/**
  The segmentation rule of the audio preprocessor (split_audio).

  Audio is modelled abstractly as a sequence indexed by millisecond: `audio[t]`
  is whatever the decoded buffer holds for millisecond t, `|audio|` is
  `len(audio)`, and the buffer slice `audio[start:end]` is the subsequence
  `audio[start..end]`.
 */
module Segmenter {
  import opened Wrappers

  /** The only error the segmentation itself can raise: Python's `range`
      rejects a step of zero with a ValueError. */
  datatype SplitError = ZeroSegmentLength

  /** A half-open window [start, end) of the audio, in milliseconds. */
  datatype Span = Span(start: nat, end: nat)

  function Min(a: int, b: int): int {
    if a <= b then a else b
  }

  /** ceil(n / L): the least number of L-millisecond windows that cover n milliseconds. */
  function CeilDiv(n: nat, L: nat): (q: nat)
    requires L > 0
    ensures q * L >= n
    ensures q > 0 ==> (q - 1) * L < n
  {
    if n % L == 0 then n / L else n / L + 1
  }

  /** The window of the k-th (0-based) segment of n milliseconds of audio cut every L ms. */
  function SegmentSpan(k: nat, n: nat, L: nat): Span {
    Span(k * L, Min(k * L + L, n))
  }

  /** `segs` is the list of windows split_audio returns for `audio` and segment length L:
      ceil(|audio| / L) of them, the k-th being the slice of SegmentSpan(k). */
  ghost predicate IsSplit<T>(audio: seq<T>, L: nat, segs: seq<seq<T>>)
    requires L > 0
  {
    && |segs| == CeilDiv(|audio|, L)
    && forall k :: 0 <= k < |segs| ==>
         k * L < |audio| && segs[k] == audio[k * L .. Min(k * L + L, |audio|)]
  }

  /** The concatenation of segments, in order. */
  function Flatten<T>(segs: seq<seq<T>>): seq<T> {
    if |segs| == 0 then [] else Flatten(segs[..|segs| - 1]) + segs[|segs| - 1]
  }

  /** The sum of the segments' lengths. */
  function TotalLength<T>(segs: seq<seq<T>>): nat {
    if |segs| == 0 then 0 else TotalLength(segs[..|segs| - 1]) + |segs[|segs| - 1]|
  }

  lemma CeilDivUnique(n: nat, L: nat, q: nat)
    requires L > 0
    requires q * L >= n
    requires q > 0 ==> (q - 1) * L < n
    ensures q == CeilDiv(n, L)
  {
    var c := CeilDiv(n, L);
    if c > 0 { MulLtCancel(c - 1, q, L); }
    if q > 0 { MulLtCancel(q - 1, c, L); }
  }

  lemma MulLtCancel(a: int, b: int, L: nat)
    requires L > 0 && a * L < b * L
    ensures a < b
  {
  }

  /** Taking one window of L ms off a non-empty stretch of m ms leaves one window fewer. */
  lemma CeilDivStep(m: nat, L: nat)
    requires L > 0 && m > 0
    ensures CeilDiv(m, L) == if m <= L then 1 else CeilDiv(m - L, L) + 1
  {
    if m <= L {
      CeilDivUnique(m, L, 1);
    } else {
      var q := CeilDiv(m - L, L);
      assert q > 0;
      assert (q + 1) * L == q * L + L;
      assert q * L == (q - 1) * L + L;
      CeilDivUnique(m, L, q + 1);
    }
  }

  /** The windows taken by the loop `for start in range(from, len(audio), L)`, in order. */
  function SplitFrom<T>(audio: seq<T>, L: nat, from: nat): (segs: seq<seq<T>>)
    requires L > 0
    ensures |segs| == if from < |audio| then CeilDiv(|audio| - from, L) else 0
    decreases |audio| - from
  {
    if from >= |audio| then []
    else
      CeilDivStep(|audio| - from, L);
      [audio[from .. Min(from + L, |audio|)]] + SplitFrom(audio, L, from + L)
  }

  /** The k-th window the loop takes from `from` on starts k * L ms after `from`. */
  lemma {:induction false} SplitFromWindow<T>(audio: seq<T>, L: nat, from: nat, k: nat)
    requires L > 0
    requires k < |SplitFrom(audio, L, from)|
    ensures from + k * L < |audio|
    ensures SplitFrom(audio, L, from)[k] == audio[from + k * L .. Min(from + k * L + L, |audio|)]
    decreases k
  {
    if k > 0 {
      SplitFromWindow(audio, L, from + L, k - 1);
      assert from + L + (k - 1) * L == from + k * L;
    }
  }

  /** split_audio(audio, segment_length): the non-overlapping windows of
      `segmentLength` ms starting at 0, each cut short at the end of the audio.
      A zero length is the ValueError raised by `range`; a negative one makes
      `range(0, n, step)` empty. */
  function SplitAudio<T>(audio: seq<T>, segmentLength: int): (r: Result<seq<seq<T>>, SplitError>)
    ensures r.Failure? <==> segmentLength == 0
    ensures segmentLength < 0 ==> r == Success([])
    ensures segmentLength > 0 ==> r.Success? && IsSplit(audio, segmentLength, r.value)
  {
    if segmentLength == 0 then Failure(ZeroSegmentLength)
    else if segmentLength < 0 then Success([])
    else
      var segs := SplitFrom(audio, segmentLength, 0);
      assert IsSplit(audio, segmentLength, segs) by {
        forall k | 0 <= k < |segs|
          ensures k * segmentLength < |audio|
          ensures segs[k] == audio[k * segmentLength .. Min(k * segmentLength + segmentLength, |audio|)]
        {
          SplitFromWindow(audio, segmentLength, 0, k);
        }
      }
      Success(segs)
  }

  /** Euclidean division by L is the unique k with k * L <= t < k * L + L. */
  lemma DivUnique(t: nat, L: nat, k: nat)
    requires L > 0
    requires k * L <= t < k * L + L
    ensures t / L == k
  {
    var d := t / L;
    assert (d + 1) * L == d * L + L;
    assert (k + 1) * L == k * L + L;
    MulLtCancel(k, d + 1, L);
    MulLtCancel(d, k + 1, L);
  }

  lemma MulLe(a: int, b: int, L: nat)
    requires a <= b
    ensures a * L <= b * L
  {
  }

  /** The k-th of the ceil(n / L) windows is non-empty, inside [0, n), ends where
      the next one starts, and the last one ends at n. */
  lemma SpanAt(n: nat, L: nat, k: nat)
    requires L > 0 && k < CeilDiv(n, L)
    ensures SegmentSpan(k, n, L).start < SegmentSpan(k, n, L).end <= n
    ensures k + 1 < CeilDiv(n, L) ==> SegmentSpan(k, n, L).end == SegmentSpan(k + 1, n, L).start
    ensures k + 1 < CeilDiv(n, L) ==> SegmentSpan(k, n, L).end - SegmentSpan(k, n, L).start == L
    ensures k + 1 == CeilDiv(n, L) ==> SegmentSpan(k, n, L).end == n
  {
    var c := CeilDiv(n, L);
    assert (k + 1) * L == k * L + L;
    MulLe(k, c - 1, L);
    if k + 1 < c {
      MulLe(k + 1, c - 1, L);
    } else {
      assert (c - 1) * L + L == c * L;
    }
  }

  /** An earlier window ends no later than a later one starts. */
  lemma SpanOrder(n: nat, L: nat, j: nat, k: nat)
    requires L > 0 && j < k
    ensures SegmentSpan(j, n, L).end <= SegmentSpan(k, n, L).start
    ensures SegmentSpan(j, n, L).start < SegmentSpan(k, n, L).start
  {
    assert (j + 1) * L == j * L + L;
    MulLe(j + 1, k, L);
  }

  /** Segment count: none for empty audio, otherwise just enough windows to cover it. */
  lemma SplitCount<T>(audio: seq<T>, L: nat, segs: seq<seq<T>>)
    requires L > 0 && IsSplit(audio, L, segs)
    ensures |segs| == 0 <==> |audio| == 0
    ensures |segs| * L >= |audio|
    ensures |segs| > 0 ==> (|segs| - 1) * L < |audio|
  {
  }

  /** The windows are laid end to end from 0 to the end of the audio, each
      non-empty, with strictly increasing starts and no overlap. */
  lemma SplitSpans<T>(audio: seq<T>, L: nat, segs: seq<seq<T>>)
    requires L > 0 && IsSplit(audio, L, segs)
    ensures forall k :: 0 <= k < |segs| ==>
              SegmentSpan(k, |audio|, L).start < SegmentSpan(k, |audio|, L).end <= |audio|
    ensures forall k :: 0 <= k < |segs| ==>
              segs[k] == audio[SegmentSpan(k, |audio|, L).start .. SegmentSpan(k, |audio|, L).end]
    ensures |segs| > 0 ==> SegmentSpan(0, |audio|, L).start == 0
    ensures forall k :: 0 <= k < |segs| - 1 ==>
              SegmentSpan(k, |audio|, L).end == SegmentSpan(k + 1, |audio|, L).start
    ensures |segs| > 0 ==> SegmentSpan(|segs| - 1, |audio|, L).end == |audio|
    ensures forall j, k :: 0 <= j < k < |segs| ==>
              SegmentSpan(j, |audio|, L).end <= SegmentSpan(k, |audio|, L).start
    ensures forall j, k :: 0 <= j < k < |segs| ==>
              SegmentSpan(j, |audio|, L).start < SegmentSpan(k, |audio|, L).start
  {
    var n := |audio|;
    forall k | 0 <= k < |segs|
      ensures SegmentSpan(k, n, L).start < SegmentSpan(k, n, L).end <= n
      ensures k < |segs| - 1 ==> SegmentSpan(k, n, L).end == SegmentSpan(k + 1, n, L).start
      ensures k == |segs| - 1 ==> SegmentSpan(k, n, L).end == n
    {
      SpanAt(n, L, k);
    }
    forall j, k | 0 <= j < k < |segs|
      ensures SegmentSpan(j, n, L).end <= SegmentSpan(k, n, L).start
      ensures SegmentSpan(j, n, L).start < SegmentSpan(k, n, L).start
    {
      SpanOrder(n, L, j, k);
    }
  }

  /** Every segment but the last is exactly L ms long; the last is non-empty,
      at most L ms, and shorter than L exactly when L does not divide the length. */
  lemma SplitLengths<T>(audio: seq<T>, L: nat, segs: seq<seq<T>>)
    requires L > 0 && IsSplit(audio, L, segs)
    ensures forall k :: 0 <= k < |segs| - 1 ==> |segs[k]| == L
    ensures |segs| > 0 ==> 0 < |segs[|segs| - 1]| <= L
    ensures |segs| > 0 ==> (|segs[|segs| - 1]| < L <==> |audio| % L != 0)
  {
    var n, c := |audio|, |segs|;
    forall k | 0 <= k < c - 1
      ensures |segs[k]| == L
    {
      SpanAt(n, L, k);
    }
    if c > 0 {
      SpanAt(n, L, c - 1);
      LastLength(n, L);
    }
  }

  /** The last of the ceil(n / L) windows is L ms long exactly when L divides n. */
  lemma LastLength(n: nat, L: nat)
    requires L > 0 && n > 0
    ensures var c := CeilDiv(n, L); n - (c - 1) * L <= L
    ensures var c := CeilDiv(n, L); n - (c - 1) * L < L <==> n % L != 0
  {
    var c, d := CeilDiv(n, L), n / L;
    assert n == d * L + n % L;
    assert c * L == (c - 1) * L + L;
    if n % L == 0 {
      assert (d - 1) * L == d * L - L;
      CeilDivUnique(n, L, d);
    } else {
      assert (d + 1) * L == d * L + L;
      CeilDivUnique(n, L, d + 1);
    }
  }

  /** Every millisecond t of the audio lies in exactly one window, the (t / L)-th,
      and that segment holds the audio's value for t. */
  lemma SplitOwner<T>(audio: seq<T>, L: nat, segs: seq<seq<T>>, t: nat)
    requires L > 0 && IsSplit(audio, L, segs)
    requires t < |audio|
    ensures t / L < |segs|
    ensures SegmentSpan(t / L, |audio|, L).start <= t < SegmentSpan(t / L, |audio|, L).end
    ensures segs[t / L][t - (t / L) * L] == audio[t]
    ensures forall k :: 0 <= k < |segs| && SegmentSpan(k, |audio|, L).start <= t < SegmentSpan(k, |audio|, L).end
              ==> k == t / L
  {
    var n := |audio|;
    OwnerSpan(n, L, t);
    forall k | 0 <= k < |segs| && SegmentSpan(k, n, L).start <= t < SegmentSpan(k, n, L).end
      ensures k == t / L
    {
      DivUnique(t, L, k);
    }
  }

  lemma OwnerSpan(n: nat, L: nat, t: nat)
    requires L > 0 && t < n
    ensures t / L < CeilDiv(n, L)
    ensures SegmentSpan(t / L, n, L).start <= t < SegmentSpan(t / L, n, L).end
  {
    var d := t / L;
    assert d * L <= t < d * L + L;
    MulLtCancel(d, CeilDiv(n, L), L);
  }

  lemma {:induction false} FlattenLength<T>(segs: seq<seq<T>>)
    ensures |Flatten(segs)| == TotalLength(segs)
  {
    if |segs| > 0 {
      FlattenLength(segs[..|segs| - 1]);
    }
  }

  /** The first j segments concatenate to the audio's first min(j * L, n) milliseconds. */
  lemma {:induction false} SplitPrefix<T>(audio: seq<T>, L: nat, segs: seq<seq<T>>, j: nat)
    requires L > 0 && IsSplit(audio, L, segs)
    requires j <= |segs|
    ensures Flatten(segs[..j]) == audio[..Min(j * L, |audio|)]
  {
    if j > 0 {
      var n := |audio|;
      var sp := SegmentSpan(j - 1, n, L);
      SplitPrefix(audio, L, segs, j - 1);
      SpanAt(n, L, j - 1);
      assert sp.start + L == j * L;
      assert Min(sp.start, n) == sp.start;
      assert segs[j - 1] == audio[sp.start .. sp.end];
      assert segs[..j][..j - 1] == segs[..j - 1];
      assert Flatten(segs[..j]) == Flatten(segs[..j - 1]) + segs[j - 1];
      assert audio[..sp.start] + audio[sp.start .. sp.end] == audio[..sp.end];
    }
  }

  /** Concatenating the segments in order gives back the audio, and their
      lengths add up to its length. */
  lemma SplitReconstructs<T>(audio: seq<T>, L: nat, segs: seq<seq<T>>)
    requires L > 0 && IsSplit(audio, L, segs)
    ensures Flatten(segs) == audio
    ensures TotalLength(segs) == |audio|
  {
    SplitPrefix(audio, L, segs, |segs|);
    assert segs[..|segs|] == segs;
    FlattenLength(segs);
  }
}
