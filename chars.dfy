/**
 * Character classes and string helpers used throughout the preprocessor.
 * The model works over ASCII text: `is_whitespace`, `trim` and the
 * `is_ascii_*` predicates of the original agree with these definitions on
 * ASCII characters.
 */
module Chars {

  /** ASCII white space as Rust's `char::is_whitespace` sees it: TAB, LF, VT, FF, CR and SPACE. */
  predicate IsWhitespace(c: char) {
    c == ' ' || '\t' <= c <= '\r'
  }

  predicate IsAsciiAlpha(c: char) {
    'a' <= c <= 'z' || 'A' <= c <= 'Z'
  }

  predicate IsAsciiDigit(c: char) {
    '0' <= c <= '9'
  }

  /** A character that may begin an identifier. */
  predicate IsIdentStart(c: char) {
    IsAsciiAlpha(c) || c == '_'
  }

  /** A character that may continue an identifier. */
  predicate IsIdentChar(c: char) {
    IsIdentStart(c) || IsAsciiDigit(c)
  }

  /** `is_ident`: a non-empty run that starts with a letter or `_` and continues with letters, digits or `_`. */
  predicate IsIdent(s: string)
    ensures IsIdent(s) <==> |s| > 0 && IsIdentStart(s[0]) && forall j :: 1 <= j < |s| ==> IsIdentChar(s[j])
  {
    AllIdentCharsIff(s, 1);
    |s| > 0 && IsIdentStart(s[0]) && AllIdentChars(s, 1)
  }

  /** Every character of `s` from index `i` on may continue an identifier (the `for c in chars` loop). */
  predicate AllIdentChars(s: string, i: nat)
    decreases |s| - i
  {
    i >= |s| || (IsIdentChar(s[i]) && AllIdentChars(s, i + 1))
  }

  /** `AllIdentChars` is the character-wise condition it abbreviates. */
  lemma {:induction false} AllIdentCharsIff(s: string, i: nat)
    ensures AllIdentChars(s, i) <==> forall j :: i <= j < |s| ==> IsIdentChar(s[j])
    decreases |s| - i
  {
    if i < |s| {
      AllIdentCharsIff(s, i + 1);
    }
  }

  predicate StartsWith(s: string, prefix: string) {
    |prefix| <= |s| && s[..|prefix|] == prefix
  }

  function ToAsciiUpper(c: char): (u: char)
    ensures IsAsciiAlpha(c) ==> 'A' <= u <= 'Z'
    ensures 'a' <= c <= 'z' ==> u as int == c as int - 32
    ensures !('a' <= c <= 'z') ==> u == c
  {
    if 'a' <= c <= 'z' then (c as int - 32) as char else c
  }

  /** `to_ascii_uppercase` on a whole string. */
  function Upper(s: string): (r: string)
    ensures |r| == |s|
    ensures forall i :: 0 <= i < |s| ==> r[i] == ToAsciiUpper(s[i])
  {
    if s == [] then [] else [ToAsciiUpper(s[0])] + Upper(s[1..])
  }

  /** `trim_start`: drops the longest all-white-space prefix. */
  function TrimStart(s: string): (r: string)
    ensures |r| <= |s| && r == s[|s| - |r|..]
    ensures forall i :: 0 <= i < |s| - |r| ==> IsWhitespace(s[i])
    ensures r != [] ==> !IsWhitespace(r[0])
  {
    if s != [] && IsWhitespace(s[0]) then TrimStart(s[1..]) else s
  }

  /** `trim_end`: drops the longest all-white-space suffix. */
  function TrimEnd(s: string): (r: string)
    ensures |r| <= |s| && r == s[..|r|]
    ensures forall i :: |r| <= i < |s| ==> IsWhitespace(s[i])
    ensures r != [] ==> !IsWhitespace(r[|r| - 1])
  {
    if s != [] && IsWhitespace(s[|s| - 1]) then TrimEnd(s[..|s| - 1]) else s
  }

  /** Text that starts with no white space is its own `trim_start`. */
  lemma TrimStartNone(s: string)
    requires s == [] || !IsWhitespace(s[0])
    ensures TrimStart(s) == s
  {
  }

  /** Text with no white space at either end is its own `trim`. */
  lemma TrimNone(s: string)
    requires s == [] || (!IsWhitespace(s[0]) && !IsWhitespace(s[|s| - 1]))
    ensures Trim(s) == s
  {
    TrimStartNone(s);
  }

  /** `trim`: white space removed from both ends. */
  function Trim(s: string): (r: string)
    ensures r != [] ==> !IsWhitespace(r[0]) && !IsWhitespace(r[|r| - 1])
  {
    TrimEnd(TrimStart(s))
  }

  /** The characters of `s` from `a` up to `b`, built from the right so that unfolding it creates no slices. */
  function Sub(s: string, a: nat, b: nat): (r: string)
    requires a <= b <= |s|
    ensures |r| == b - a
    decreases b - a
  {
    if a == b then [] else Sub(s, a, b - 1) + [s[b - 1]]
  }

  /** `Sub` is the slice `s[a..b]`. */
  lemma {:induction false} SubIsSlice(s: string, a: nat, b: nat)
    requires a <= b <= |s|
    ensures Sub(s, a, b) == s[a..b]
    decreases b - a
  {
    if a < b {
      SubIsSlice(s, a, b - 1);
      assert s[a..b] == s[a..b - 1] + [s[b - 1]];
    }
  }
}
