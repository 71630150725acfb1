/** Text as the cipher sees it: a sequence of UTF-16 code units, indexed and
    compared one code unit at a time, as C# `string` and `char` are. */
module Text {

  /** One UTF-16 code unit (a C# `char`). Surrogate pairs are two units. */
  newtype CodeUnit = x: int | 0 <= x < 0x1_0000

  /** The padding character, U+0020. */
  const Space: CodeUnit := 0x20

  /** `Char.IsWhiteSpace` of .NET for one code unit: the Unicode space,
      line and paragraph separators plus the controls U+0009..U+000D and
      U+0085. */
  predicate IsWhiteSpace(c: CodeUnit) {
    (0x09 <= c <= 0x0D) || c == 0x20 || c == 0x85 || c == 0xA0 || c == 0x1680
    || (0x2000 <= c <= 0x200A) || c == 0x2028 || c == 0x2029 || c == 0x202F
    || c == 0x205F || c == 0x3000
  }

  /** `count` padding characters. */
  function Spaces(count: nat): (r: seq<CodeUnit>)
    ensures |r| == count
  {
    seq(count, _ => Space)
  }

  /** `String.TrimEnd()` with no arguments: drops every trailing code unit
      for which `IsWhiteSpace` holds, and nothing else. */
  function TrimEnd(s: seq<CodeUnit>): (r: seq<CodeUnit>)
    // what is kept is a prefix of the input ...
    ensures |r| <= |s| && r == s[..|r|]
    // ... that does not end in white space ...
    ensures r == [] || !IsWhiteSpace(r[|r| - 1])
    // ... and everything dropped is white space
    ensures forall k :: |r| <= k < |s| ==> IsWhiteSpace(s[k])
  {
    if s != [] && IsWhiteSpace(s[|s| - 1]) then TrimEnd(s[..|s| - 1]) else s
  }

  /** Text that ends in something other than white space is left alone by
      `TrimEnd`, and so is text followed by padding only. */
  lemma TrimEndPadding(t: seq<CodeUnit>, count: nat)
    requires t == [] || !IsWhiteSpace(t[|t| - 1])
    ensures TrimEnd(t + Spaces(count)) == t
  {
    var s := t + Spaces(count);
    var r := TrimEnd(s);
    assert r == s[..|t|] == t;
  }

  /** Padding with spaces makes no difference once `TrimEnd` has run:
      whatever white space the text itself ends in is dropped as well. */
  lemma {:induction false} TrimEndSpaces(t: seq<CodeUnit>, count: nat)
    ensures TrimEnd(t + Spaces(count)) == TrimEnd(t)
  {
    var s := t + Spaces(count);
    if count == 0 {
      assert s == t;
    } else {
      assert s[..|s| - 1] == t + Spaces(count - 1);
      assert IsWhiteSpace(s[|s| - 1]);
      TrimEndSpaces(t, count - 1);
    }
  }

  /** The code units of a Dafny string all of whose characters lie in the
      Basic Multilingual Plane. */
  function FromString(s: string): (r: seq<CodeUnit>)
    requires forall i :: 0 <= i < |s| ==> s[i] as int < 0x1_0000
    ensures |r| == |s| && forall i :: 0 <= i < |s| ==> r[i] as int == s[i] as int
  {
    seq(|s|, i requires 0 <= i < |s| => s[i] as int as CodeUnit)
  }
}
