/** The string operations the extraction relies on: Python's `str.strip()`, `str.lower()` and the
    substring test `sub in s`. */
module Text {

  /** The characters Python's `str.isspace()` accepts, which `str.strip()` removes. */
  const Whitespace: set<char> := {
    ' ', '\t', '\n', '\r', '\U{0B}', '\U{0C}', '\U{1C}', '\U{1D}', '\U{1E}', '\U{1F}',
    '\U{85}', '\U{A0}', '\U{1680}', '\U{2000}', '\U{2001}', '\U{2002}', '\U{2003}', '\U{2004}',
    '\U{2005}', '\U{2006}', '\U{2007}', '\U{2008}', '\U{2009}', '\U{200A}', '\U{2028}',
    '\U{2029}', '\U{202F}', '\U{205F}', '\U{3000}'
  }

  predicate IsWhitespace(c: char) {
    c in Whitespace
  }

  /** A string with no whitespace at either end: what `str.strip()` produces. */
  predicate IsStripped(s: string) {
    s == [] || (!IsWhitespace(s[0]) && !IsWhitespace(s[|s| - 1]))
  }

  /** Every character of `s` is whitespace. */
  predicate AllWhitespace(s: string) {
    forall m :: 0 <= m < |s| ==> IsWhitespace(s[m])
  }

  /** The end of the run of whitespace that begins at `i`. */
  function SkipForward(s: string, i: nat): (k: nat)
    requires i <= |s|
    decreases |s| - i
    ensures i <= k <= |s|
    ensures AllWhitespace(s[i..k])
    ensures k < |s| ==> !IsWhitespace(s[k])
  {
    if i < |s| && IsWhitespace(s[i]) then
      var k := SkipForward(s, i + 1);
      assert s[i..k] == [s[i]] + s[i + 1..k];
      k
    else i
  }

  /** The start of the run of whitespace that ends at `j`, not going below `lo`. */
  function SkipBackward(s: string, lo: nat, j: nat): (k: nat)
    requires lo <= j <= |s|
    decreases j
    ensures lo <= k <= j
    ensures AllWhitespace(s[k..j])
    ensures k > lo ==> !IsWhitespace(s[k - 1])
  {
    if j > lo && IsWhitespace(s[j - 1]) then
      var k := SkipBackward(s, lo, j - 1);
      assert s[k..j] == s[k..j - 1] + [s[j - 1]];
      k
    else j
  }

  /** `str.strip()`: `s` without its leading and trailing whitespace. */
  function Strip(s: string): (r: string)
    ensures IsStripped(r)
    ensures |r| <= |s|
  {
    var i := SkipForward(s, 0);
    s[i..SkipBackward(s, i, |s|)]
  }

  /** What `Strip` removes is whitespace, and only from the two ends: `s` is some whitespace,
      then `Strip(s)`, then some more whitespace. */
  lemma StripIsSlice(s: string)
    ensures exists i, j :: 0 <= i <= j <= |s| && Strip(s) == s[i..j]
                           && AllWhitespace(s[..i]) && AllWhitespace(s[j..])
  {
    var i := SkipForward(s, 0);
    var j := SkipBackward(s, i, |s|);
    assert s[..i] == s[0..i];
    assert AllWhitespace(s[j..]) by {
      assert s[j..] == s[j..|s|];
    }
  }

  /** A string with no whitespace at either end is left alone by `Strip`. */
  lemma StripKeepsStripped(s: string)
    requires IsStripped(s)
    ensures Strip(s) == s
  {
    if s != [] {
      assert SkipForward(s, 0) == 0;
      assert SkipBackward(s, 0, |s|) == |s|;
    }
  }

  /** Stripping twice is stripping once. */
  lemma StripIdempotent(s: string)
    ensures Strip(Strip(s)) == Strip(s)
  {
    StripKeepsStripped(Strip(s));
  }

  /** `str.lower()` on one character, for the ASCII letters. */
  function LowerChar(c: char): (r: char)
    ensures !('A' <= r <= 'Z')
    ensures c == r || ('A' <= c <= 'Z' && r as int - c as int == 'a' as int - 'A' as int)
  {
    if 'A' <= c <= 'Z' then (c as int - 'A' as int + 'a' as int) as char else c
  }

  /** `str.lower()`, character by character. */
  function Lower(s: string): (r: string)
    ensures |r| == |s|
  {
    seq(|s|, k requires 0 <= k < |s| => LowerChar(s[k]))
  }

  /** Python's `sub in s`: `sub` occurs in `s` at some position, so it is no longer than `s`. */
  predicate Contains(s: string, sub: string): (b: bool)
    ensures b ==> |sub| <= |s|
  {
    exists i :: 0 <= i <= |s| && sub <= s[i..]
  }

  /** Substring containment survives adding text on either side. */
  lemma ContainsInContext(a: string, b: string, c: string, sub: string)
    requires Contains(b, sub)
    ensures Contains(a + b + c, sub)
  {
    var i :| 0 <= i <= |b| && sub <= b[i..];
    assert (a + b + c)[|a| + i..] == b[i..] + c;
  }

  /** Lowering leaves no ASCII capital, changes a string exactly when it has one, and a second
      lowering changes nothing. */
  lemma LowerSpec(s: string)
    ensures forall k :: 0 <= k < |s| ==> !('A' <= Lower(s)[k] <= 'Z')
    ensures Lower(s) == s <==> forall k :: 0 <= k < |s| ==> !('A' <= s[k] <= 'Z')
    ensures Lower(Lower(s)) == Lower(s)
  {
    if Lower(s) == s {
      forall k | 0 <= k < |s| ensures !('A' <= s[k] <= 'Z') {
        assert Lower(s)[k] == LowerChar(s[k]);
      }
    }
  }

  /** "nan" in any mix of letter cases. */
  predicate SpellsNan(s: string) {
    |s| == 3 && s[0] in "nN" && s[1] in "aA" && s[2] in "nN"
  }

  /** "none" in any mix of letter cases. */
  predicate SpellsNone(s: string) {
    |s| == 4 && s[0] in "nN" && s[1] in "oO" && s[2] in "nN" && s[3] in "eE"
  }

  /** Lowering matches "nan" exactly on the eight spellings of "nan" in mixed case. */
  lemma LowerIsNan(s: string)
    ensures Lower(s) == "nan" <==> SpellsNan(s)
  {
    if |s| == 3 && Lower(s) == "nan" {
      assert Lower(s)[0] == LowerChar(s[0]) && Lower(s)[1] == LowerChar(s[1]);
      assert Lower(s)[2] == LowerChar(s[2]);
    }
  }

  /** Lowering matches "none" exactly on the sixteen spellings of "none" in mixed case. */
  lemma LowerIsNone(s: string)
    ensures Lower(s) == "none" <==> SpellsNone(s)
  {
    if |s| == 4 && Lower(s) == "none" {
      assert Lower(s)[0] == LowerChar(s[0]) && Lower(s)[1] == LowerChar(s[1]);
      assert Lower(s)[2] == LowerChar(s[2]) && Lower(s)[3] == LowerChar(s[3]);
    }
  }
}
