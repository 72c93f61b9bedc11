/**
  The supported-extension filter of batch_convert_directory: a directory entry
  is converted iff its lower-cased name ends with one of seven extensions.
 */
module AudioFormats {
  import opened Wrappers

  /** The extensions, with their dot, in the order the source lists them. */
  const SupportedFormats: seq<string> := [".mp3", ".wav", ".ogg", ".flac", ".m4a", ".wma", ".aac"]

  /** The same seven extensions without their dot. */
  const AudioExtensions: set<string> := {"mp3", "wav", "ogg", "flac", "m4a", "wma", "aac"}

  /** `str.lower` on one character, restricted to ASCII letters. */
  function LowerChar(c: char): char {
    if 'A' <= c <= 'Z' then ((c as int) + 32) as char else c
  }

  /** `s.lower()` on ASCII: no capital letter is left, every capital becomes
      its small letter, and every other character is kept in place. */
  function Lower(s: string): (r: string)
    ensures |r| == |s|
    ensures forall i :: 0 <= i < |r| ==> !('A' <= r[i] <= 'Z')
    ensures forall i :: 0 <= i < |s| && 'A' <= s[i] <= 'Z' ==> r[i] as int == s[i] as int + 32
    ensures forall i :: 0 <= i < |s| && !('A' <= s[i] <= 'Z') ==> r[i] == s[i]
  {
    seq(|s|, i requires 0 <= i < |s| => LowerChar(s[i]))
  }

  /** Lower-casing twice is lower-casing once. */
  lemma LowerIdempotent(s: string)
    ensures Lower(Lower(s)) == Lower(s)
  {
  }

  predicate EndsWith(s: string, suffix: string) {
    |suffix| <= |s| && s[|s| - |suffix|..] == suffix
  }

  /** `any(name.endswith(fmt) for fmt in formats)`. */
  function AnyEndsWith(name: string, formats: seq<string>): (b: bool)
    ensures b <==> exists i :: 0 <= i < |formats| && EndsWith(name, formats[i])
  {
    if |formats| == 0 then false
    else EndsWith(name, formats[0]) || AnyEndsWith(name, formats[1..])
  }

  /** Whether batch_convert_directory converts a directory entry of this name. */
  function IsSupported(filename: string): bool {
    AnyEndsWith(Lower(filename), SupportedFormats)
  }

  /** The text after the last '.', or None when there is no '.'. */
  function AfterLastDot(s: string): (r: Option<string>)
    ensures r.None? ==> '.' !in s
    ensures r.Some? ==> '.' !in r.value && EndsWith(s, "." + r.value)
  {
    if |s| == 0 then None
    else if s[|s| - 1] == '.' then Some("")
    else match AfterLastDot(s[..|s| - 1])
      case None => None
      case Some(e) =>
        assert s == s[..|s| - 1] + [s[|s| - 1]];
        Some(e + [s[|s| - 1]])
  }

  /** A string ending in '.' + e, where e has no dot, has e after its last dot. */
  lemma {:induction false} AfterLastDotOfSuffix(s: string, e: string)
    requires '.' !in e && EndsWith(s, "." + e)
    ensures AfterLastDot(s) == Some(e)
    decreases |e|
  {
    if |e| > 0 {
      var s', e' := s[..|s| - 1], e[..|e| - 1];
      assert EndsWith(s', "." + e') by {
        assert s'[|s'| - |"." + e'|..] == s[|s| - |"." + e|..][..|e|];
      }
      AfterLastDotOfSuffix(s', e');
      assert e == e' + [s[|s| - 1]];
    }
  }

  /** Each format is a dot followed by a dot-free audio extension. */
  lemma FormatShape(i: nat)
    requires i < |SupportedFormats|
    ensures SupportedFormats[i] == "." + SupportedFormats[i][1..]
    ensures '.' !in SupportedFormats[i][1..]
    ensures SupportedFormats[i][1..] in AudioExtensions
  {
  }

  /** The filter, stated independently: a name is accepted iff the lower-cased
      text after its last dot is one of the seven audio extensions. */
  lemma IsSupportedIffExtension(filename: string)
    ensures IsSupported(filename) <==>
              (AfterLastDot(Lower(filename)).Some? && AfterLastDot(Lower(filename)).value in AudioExtensions)
  {
    var l := Lower(filename);
    if IsSupported(filename) {
      var i :| 0 <= i < |SupportedFormats| && EndsWith(l, SupportedFormats[i]);
      FormatShape(i);
      AfterLastDotOfSuffix(l, SupportedFormats[i][1..]);
    }
    if AfterLastDot(l).Some? && AfterLastDot(l).value in AudioExtensions {
      var i := FormatIndex(AfterLastDot(l).value);
      assert EndsWith(l, SupportedFormats[i]);
    }
  }

  /** Where an extension sits, with its dot, in the list of formats. */
  function FormatIndex(e: string): (i: nat)
    requires e in AudioExtensions
    ensures i < |SupportedFormats| && SupportedFormats[i] == "." + e
  {
    if e == "mp3" then 0
    else if e == "wav" then 1
    else if e == "ogg" then 2
    else if e == "flac" then 3
    else if e == "m4a" then 4
    else if e == "wma" then 5
    else 6
  }

  /** The filter ignores letter case: names that lower-case alike are treated alike. */
  lemma IsSupportedCaseInsensitive(f: string, g: string)
    requires Lower(f) == Lower(g)
    ensures IsSupported(f) == IsSupported(g)
    ensures IsSupported(f) == IsSupported(Lower(f))
  {
    LowerIdempotent(f);
  }

  lemma AcceptsUpperCase()
    ensures IsSupported("X.MP3")
  {
  }

  lemma RejectsTrailingText()
    ensures !IsSupported("x.mp3.txt")
  {
    var l := Lower("x.mp3.txt");
    assert l == "x.mp3.txt";
    AfterLastDotOfSuffix(l, "txt");
    IsSupportedIffExtension("x.mp3.txt");
  }

  /** The directory entries batch_convert_directory hands to convert_audio, in listing order. */
  function SelectSupported(listing: seq<string>): (r: seq<string>)
    ensures forall f :: f in r <==> f in listing && IsSupported(f)
    ensures forall f :: IsSupported(f) ==> multiset(r)[f] == multiset(listing)[f]
    ensures |r| <= |listing|
  {
    if |listing| == 0 then []
    else
      var rest := SelectSupported(listing[1..]);
      assert listing == [listing[0]] + listing[1..];
      if IsSupported(listing[0]) then [listing[0]] + rest else rest
  }

  /** Selection keeps listing order: selecting from a concatenation is
      concatenating the selections. */
  lemma {:induction false} SelectSupportedAppend(a: seq<string>, b: seq<string>)
    ensures SelectSupported(a + b) == SelectSupported(a) + SelectSupported(b)
    decreases |a|
  {
    if |a| > 0 {
      assert (a + b)[1..] == a[1..] + b;
      SelectSupportedAppend(a[1..], b);
    } else {
      assert a + b == b;
    }
  }

  /** A single entry is kept iff it is accepted; with SelectSupportedAppend this
      fixes the selection, order included. */
  lemma SelectSupportedOne(f: string)
    ensures SelectSupported([f]) == if IsSupported(f) then [f] else []
  {
  }
}
