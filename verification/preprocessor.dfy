/**
  The decisions convert_audio takes once the audio is decoded and resampled:
  whether to split, with what segment length, and which file each piece of
  audio is exported to. Decoding, resampling and the export itself are not
  modelled; `audio` is the resampled buffer as a millisecond-indexed sequence.
 */
module Preprocessor {
  import opened Wrappers
  import opened Segmenter
  import opened PartNaming

  /** One call of `export`: the audio written and the path it is written to. */
  datatype Export<T> = Export(path: string, audio: seq<T>)

  /** What convert_audio's try/except turns into `False`, as far as the logic
      modelled here can raise it. */
  datatype ConvertError =
    | SegmentationFailed(cause: SplitError)  // range() with a zero step: max_duration == 0
    | InvalidSuffix(suffix: string)          // pathlib refuses the argument of with_suffix

  /** An explicit output_path, with the same path stripped of its suffix
      (what `Path(output_path).with_suffix('')` gives). */
  datatype Destination = Destination(path: string, stem: string)

  /** pathlib's check on the argument of `with_suffix`: no separator, and either
      empty or a '.' followed by at least one more character. */
  predicate ValidSuffix(suffix: string) {
    '/' !in suffix && (suffix == "" || (suffix[0] == '.' && suffix != "."))
  }

  /** `Path(p).with_suffix(suffix)`, where `stem` is p with its current suffix removed. */
  function WithSuffix(stem: string, suffix: string): (r: Result<string, ConvertError>)
    ensures r.Failure? <==> !ValidSuffix(suffix)
    ensures r.Success? ==> |r.value| == |stem| + |suffix| && r.value[..|stem|] == stem && r.value[|stem|..] == suffix
  {
    if ValidSuffix(suffix) then Success(stem + suffix) else Failure(InvalidSuffix(suffix))
  }

  const WholeSuffix := "_16khz.wav"

  /** The default output path of a short file as the source computes it:
      `Path(input_path).with_suffix('_16khz.wav')`. */
  function DefaultWholePathAsWritten(inputStem: string): Result<string, ConvertError> {
    WithSuffix(inputStem, WholeSuffix)
  }

  /** pathlib rejects "_16khz.wav" as a suffix, so with no output_path every
      short file fails to convert, whatever its name. */
  lemma DefaultWholePathAsWrittenFails(inputStem: string)
    ensures DefaultWholePathAsWritten(inputStem) == Failure(InvalidSuffix("_16khz.wav"))
  {
  }

  /** The evidently intended default: the input's stem followed by "_16khz.wav".
      It is never read as a part path of the same stem, so a whole export
      cannot land on a part's file. */
  function DefaultWholePath(inputStem: string): (p: string)
    ensures |p| >= |inputStem| && p[..|inputStem|] == inputStem
    ensures PartIndex(inputStem, p) == None
    ensures forall i: nat :: p != PartName(inputStem, i)
  {
    var p := inputStem + WholeSuffix;
    assert p[|inputStem| .. |inputStem| + |PartInfix|] == "_16kh";
    assert forall i: nat :: p != PartName(inputStem, i) by {
      forall i: nat
        ensures p != PartName(inputStem, i)
      {
        PartIndexRoundTrip(inputStem, i);
      }
    }
    p
  }

  /** Where the whole (unsplit) audio is exported. */
  function WholePath(inputStem: string, output: Option<Destination>): string {
    match output
    case Some(d) => d.path
    case None => DefaultWholePath(inputStem)
  }

  /** The base that part names are built on. */
  function PartBase(inputStem: string, output: Option<Destination>): string {
    match output
    case Some(d) => d.stem
    case None => inputStem
  }

  /** convert_audio splits when the duration in seconds exceeds max_duration;
      the duration is compared in whole milliseconds. */
  function ShouldSplit(lengthMs: nat, maxDuration: int): bool {
    lengthMs > maxDuration * 1000
  }

  /** The millisecond comparison is the comparison of the duration in seconds. */
  lemma ShouldSplitInSeconds(lengthMs: nat, maxDuration: int)
    ensures ShouldSplit(lengthMs, maxDuration) <==> (lengthMs as real) / 1000.0 > maxDuration as real
  {
  }

  /** Audio of exactly max_duration seconds is kept whole; one millisecond more is split. */
  lemma ShouldSplitBoundary(maxDuration: nat)
    ensures !ShouldSplit(maxDuration * 1000, maxDuration)
    ensures ShouldSplit(maxDuration * 1000 + 1, maxDuration)
  {
  }

  /** Once splitting is decided with a positive max_duration, there are at least two parts. */
  lemma SplitYieldsAtLeastTwo(lengthMs: nat, maxDuration: int)
    requires maxDuration > 0 && ShouldSplit(lengthMs, maxDuration)
    ensures CeilDiv(lengthMs, maxDuration * 1000) >= 2
  {
  }

  function AudiosOf<T>(exports: seq<Export<T>>): (r: seq<seq<T>>)
    ensures |r| == |exports|
    ensures forall k :: 0 <= k < |r| ==> r[k] == exports[k].audio
  {
    seq(|exports|, k requires 0 <= k < |exports| => exports[k].audio)
  }

  /** No two exports go to the same path. */
  ghost predicate DistinctPaths<T>(exports: seq<Export<T>>) {
    forall j, k :: 0 <= j < k < |exports| ==> exports[j].path != exports[k].path
  }

  /** `enumerate(segments, 1)`: the segments are exported unchanged and in
      order, the k-th to a path from which part number k + 1 reads back, and
      no two to the same path. */
  function PartExports<T>(base: string, segs: seq<seq<T>>): (r: seq<Export<T>>)
    ensures AudiosOf(r) == segs
    ensures forall k :: 0 <= k < |r| ==> PartIndex(base, r[k].path) == Some(k + 1)
    ensures DistinctPaths(r)
  {
    var r := seq(|segs|, k requires 0 <= k < |segs| => Export(PartName(base, k + 1), segs[k]));
    assert forall k :: 0 <= k < |r| ==> PartIndex(base, r[k].path) == Some(k + 1) by {
      forall k | 0 <= k < |r|
        ensures PartIndex(base, r[k].path) == Some(k + 1)
      {
        PartIndexRoundTrip(base, k + 1);
      }
    }
    assert DistinctPaths(r) by {
      forall j, k | 0 <= j < k < |r|
        ensures r[j].path != r[k].path
      {
        PartNamesDistinct(base, j + 1, k + 1);
      }
    }
    r
  }

  /** The files convert_audio writes for already-resampled `audio`.
      `inputStem` is input_path without its suffix and `output` the optional
      output_path; pathlib's stripping of suffixes is taken as given. The
      one failure the modelled logic can raise is a zero segment length
      (max_duration == 0 on non-empty audio). A short file without an
      output_path goes to DefaultWholePath, not to the failing
      DefaultWholePathAsWritten. */
  function ConvertAudio<T>(audio: seq<T>, inputStem: string, output: Option<Destination>, maxDuration: int)
    : (r: Result<seq<Export<T>>, ConvertError>)
    ensures !ShouldSplit(|audio|, maxDuration) ==> r == Success([Export(WholePath(inputStem, output), audio)])
    ensures r.Failure? <==> ShouldSplit(|audio|, maxDuration) && maxDuration == 0
    ensures ShouldSplit(|audio|, maxDuration) && maxDuration < 0 ==> r == Success([])
    ensures ShouldSplit(|audio|, maxDuration) && maxDuration > 0 ==>
              && r.Success?
              && |r.value| >= 2
              && IsSplit(audio, maxDuration * 1000, AudiosOf(r.value))
              && forall k :: 0 <= k < |r.value| ==> r.value[k].path == PartName(PartBase(inputStem, output), k + 1)
    ensures r.Success? && maxDuration >= 0 ==> Flatten(AudiosOf(r.value)) == audio
    ensures r.Success? ==> DistinctPaths(r.value)
  {
    if !ShouldSplit(|audio|, maxDuration) then
      var whole := Export(WholePath(inputStem, output), audio);
      assert Flatten(AudiosOf([whole])) == Flatten([audio]);
      assert Flatten([audio]) == [] + audio;
      Success([whole])
    else
      match SplitAudio(audio, maxDuration * 1000)
      case Failure(e) => Failure(SegmentationFailed(e))
      case Success(segs) =>
        var base := PartBase(inputStem, output);
        var exports := PartExports(base, segs);
        if maxDuration > 0 then
          SplitYieldsAtLeastTwo(|audio|, maxDuration);
          SplitReconstructs(audio, maxDuration * 1000, segs);
          Success(exports)
        else
          Success(exports)
  }

  /** convert_audio as written: like ConvertAudio, except that a short file
      with no output_path asks pathlib for `with_suffix('_16khz.wav')`, which
      raises, so the call returns `False` and nothing is exported. */
  function ConvertAudioAsWritten<T>(audio: seq<T>, inputStem: string, output: Option<Destination>, maxDuration: int)
    : Result<seq<Export<T>>, ConvertError>
  {
    if !ShouldSplit(|audio|, maxDuration) && output.None? then
      match DefaultWholePathAsWritten(inputStem)
      case Failure(e) => Failure(e)
      case Success(p) => Success([Export(p, audio)])
    else
      ConvertAudio(audio, inputStem, output, maxDuration)
  }

  /** The code as written and the corrected model disagree exactly on short
      files converted without an output_path: there the code fails on the
      refused suffix, while the corrected model exports the whole file. */
  lemma ConvertAudioAsWrittenDiffers<T>(audio: seq<T>, inputStem: string, output: Option<Destination>, maxDuration: int)
    ensures (ConvertAudioAsWritten(audio, inputStem, output, maxDuration) != ConvertAudio(audio, inputStem, output, maxDuration))
            <==> (!ShouldSplit(|audio|, maxDuration) && output.None?)
    ensures !ShouldSplit(|audio|, maxDuration) && output.None? ==>
              && ConvertAudioAsWritten(audio, inputStem, output, maxDuration) == Failure(InvalidSuffix(WholeSuffix))
              && ConvertAudio(audio, inputStem, output, maxDuration).Success?
  {
  }

  /** A 45-second recording with the default 30-second limit becomes two parts,
      [0 s, 30 s) and [30 s, 45 s). */
  lemma FortyFiveSecondsExample<T>(audio: seq<T>, inputStem: string)
    requires |audio| == 45000
    ensures ConvertAudio(audio, inputStem, None, 30)
              == Success([Export(PartName(inputStem, 1), audio[..30000]), Export(PartName(inputStem, 2), audio[30000..])])
  {
    var base := inputStem;
    var r := ConvertAudio(audio, inputStem, None, 30);
    var parts := AudiosOf(r.value);
    assert CeilDiv(45000, 30000) == 2;
    assert |r.value| == 2;
    assert parts[0] == audio[0 .. Min(30000, 45000)];
    assert parts[1] == audio[30000 .. Min(60000, 45000)];
    assert r.value[0] == Export(PartName(base, 1), audio[..30000]);
    assert r.value[1] == Export(PartName(base, 2), audio[30000..]);
    assert r.value == [r.value[0], r.value[1]];
  }

  /** As written, the same 10-second recording with no output_path is not
      converted: the refused suffix makes convert_audio return False. */
  lemma TenSecondsAsWrittenFails<T>(audio: seq<T>, inputStem: string)
    requires |audio| == 10000
    ensures ConvertAudioAsWritten(audio, inputStem, None, 30) == Failure(InvalidSuffix("_16khz.wav"))
  {
  }

  /** A 10-second recording with the default limit is exported whole, unsplit,
      to the corrected default path. */
  lemma TenSecondsExample<T>(audio: seq<T>, inputStem: string)
    requires |audio| == 10000
    ensures ConvertAudio(audio, inputStem, None, 30) == Success([Export(inputStem + "_16khz.wav", audio)])
  {
  }
}
