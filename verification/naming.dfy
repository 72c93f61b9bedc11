/**
  Output naming of split audio in convert_audio: part i of a file whose
  extension-less path is `base` is written to `{base}_part{i:02d}.wav`.
 */
module PartNaming {
  import opened Wrappers

  predicate IsDigit(c: char) {
    '0' <= c <= '9'
  }

  predicate AllDigits(s: string) {
    forall i :: 0 <= i < |s| ==> IsDigit(s[i])
  }

  function DigitChar(d: nat): (c: char)
    requires d < 10
    ensures IsDigit(c) && DigitValue(c) == d
  {
    (('0' as int) + d) as char
  }

  function DigitValue(c: char): nat
    requires IsDigit(c)
  {
    (c as int) - ('0' as int)
  }

  /** The value of a string of decimal digits, most significant first; leading zeros add nothing. */
  function ParseDecimal(s: string): nat
    requires AllDigits(s)
  {
    if |s| == 0 then 0 else ParseDecimal(s[..|s| - 1]) * 10 + DigitValue(s[|s| - 1])
  }

  /** The decimal numeral Python's `d` format gives a non-negative integer:
      its digits with no leading zero, so one digit below 10 and two below 100. */
  function Decimal(n: nat): (s: string)
    ensures AllDigits(s) && |s| >= 1
    ensures |s| > 1 ==> s[0] != '0'
    ensures n < 10 <==> |s| == 1
    ensures n < 100 <==> |s| <= 2
  {
    if n < 10 then [DigitChar(n)] else Decimal(n / 10) + [DigitChar(n % 10)]
  }

  lemma {:induction false} DecimalRoundTrip(n: nat)
    ensures ParseDecimal(Decimal(n)) == n
  {
    if n >= 10 {
      var s := Decimal(n);
      DecimalRoundTrip(n / 10);
      assert s[..|s| - 1] == Decimal(n / 10);
    }
  }

  lemma {:induction false} ParseLeadingZero(s: string)
    requires AllDigits(s)
    ensures ParseDecimal("0" + s) == ParseDecimal(s)
  {
    if |s| > 0 {
      var z := "0" + s;
      assert z[..|z| - 1] == "0" + s[..|s| - 1];
      ParseLeadingZero(s[..|s| - 1]);
    }
  }

  /** The `{i:02d}` field: the decimal digits of i, left-padded with '0' to a
      width of two and never cut, so 1 gives "01", 12 gives "12", 123 gives "123". */
  function ZeroPad2(i: nat): (s: string)
    ensures AllDigits(s) && |s| >= 2
    ensures ParseDecimal(s) == i
    ensures |s| > 2 ==> s[0] != '0'
    ensures |s| == 2 <==> i < 100
    ensures i < 10 ==> s[0] == '0'
  {
    DecimalRoundTrip(i);
    if i < 10 then
      ParseLeadingZero(Decimal(i));
      "0" + Decimal(i)
    else
      Decimal(i)
  }

  const PartInfix := "_part"
  const WavSuffix := ".wav"

  /** The path part i of a split file is exported to. */
  function PartName(base: string, i: nat): (name: string)
    ensures |name| == |base| + |PartInfix| + |ZeroPad2(i)| + |WavSuffix|
    ensures name[..|base|] == base
    ensures name[|name| - |WavSuffix|..] == WavSuffix
  {
    base + PartInfix + ZeroPad2(i) + WavSuffix
  }

  /** Reads the part number back out of an exported path, if it has the shape
      `base + "_part" + digits + ".wav"`. */
  function PartIndex(base: string, name: string): Option<nat> {
    var lo, hi := |base| + |PartInfix|, |name| - |WavSuffix|;
    if lo <= hi && name[..|base|] == base && name[|base|..lo] == PartInfix
       && name[hi..] == WavSuffix && AllDigits(name[lo..hi])
    then Some(ParseDecimal(name[lo..hi]))
    else None
  }

  /** The part number can be recovered from the part's path. */
  lemma PartIndexRoundTrip(base: string, i: nat)
    ensures PartIndex(base, PartName(base, i)) == Some(i)
  {
  }

  /** Distinct part numbers give distinct paths, so no part overwrites another. */
  lemma PartNamesDistinct(base: string, i: nat, j: nat)
    requires i != j
    ensures PartName(base, i) != PartName(base, j)
  {
    PartIndexRoundTrip(base, i);
    PartIndexRoundTrip(base, j);
  }

  /** Concrete names from the two-digit convention. */
  lemma PartNameExamples()
    ensures PartName("talk", 1) == "talk_part01.wav"
    ensures PartName("talk", 12) == "talk_part12.wav"
    ensures PartName("talk", 100) == "talk_part100.wav"
  {
  }
}
