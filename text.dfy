/** Whitespace and trimming, as Foundation's
    `trimmingCharacters(in: .whitespacesAndNewlines)` behaves on a string of
    Unicode scalars. */
module Text {

  /** Membership in `CharacterSet.whitespacesAndNewlines`: the Unicode
      space separators (category Zs), the line and paragraph separators
      (Zl, Zp), CHARACTER TABULATION, U+000A to U+000D and NEXT LINE. */
  predicate IsWhitespace(c: char)
    ensures c == ' ' || c == '\t' || c == '\n' || c == '\r' ==> IsWhitespace(c)
    ensures ('0' <= c <= '9' || 'a' <= c <= 'z' || 'A' <= c <= 'Z' || c == ',') ==> !IsWhitespace(c)
    ensures IsWhitespace(c) ==> c as int <= 0x3000
  {
    var n := c as int;
    || (0x09 <= n <= 0x0D)
    || n == 0x20 || n == 0x85 || n == 0xA0 || n == 0x1680
    || (0x2000 <= n <= 0x200A)
    || n == 0x2028 || n == 0x2029 || n == 0x202F || n == 0x205F || n == 0x3000
  }

  /** The number of whitespace characters at the front of `s`. */
  function LeadingWhitespace(s: string): (n: nat)
    ensures n <= |s|
    ensures forall i :: 0 <= i < n ==> IsWhitespace(s[i])
    ensures n < |s| ==> !IsWhitespace(s[n])
  {
    if s == [] || !IsWhitespace(s[0]) then 0 else 1 + LeadingWhitespace(s[1..])
  }

  /** The number of whitespace characters at the back of `s`. */
  function TrailingWhitespace(s: string): (n: nat)
    ensures n <= |s|
    ensures forall i :: |s| - n <= i < |s| ==> IsWhitespace(s[i])
    ensures n < |s| ==> !IsWhitespace(s[|s| - 1 - n])
  {
    if s == [] || !IsWhitespace(s[|s| - 1]) then 0 else 1 + TrailingWhitespace(s[..|s| - 1])
  }

  /** `s` with its leading and trailing whitespace removed. The result is
      the slice of `s` after its leading whitespace, followed in `s` by
      whitespace only; it neither starts nor ends with whitespace, and it
      is empty exactly when `s` is all whitespace. */
  function Trim(s: string): (r: string)
    ensures |r| <= |s|
    ensures r != [] ==> !IsWhitespace(r[0]) && !IsWhitespace(r[|r| - 1])
    ensures forall i :: 0 <= i < |r| ==> r[i] in s
    ensures LeadingWhitespace(s) + |r| <= |s| && r == s[LeadingWhitespace(s)..LeadingWhitespace(s) + |r|]
    ensures forall i :: LeadingWhitespace(s) + |r| <= i < |s| ==> IsWhitespace(s[i])
    ensures r == [] <==> forall i :: 0 <= i < |s| ==> IsWhitespace(s[i])
  {
    var front := LeadingWhitespace(s);
    var t := s[front..];
    var back := TrailingWhitespace(t);
    var r := t[..|t| - back];
    assert forall i :: 0 <= i < |r| ==> r[i] == s[front + i];
    assert r == s[front..front + |r|];
    r
  }

  /** True when the trimmed string is empty: exactly when every
      character of `s` is whitespace, so the empty string is blank. */
  function IsBlank(s: string): (b: bool)
    ensures b <==> forall i :: 0 <= i < |s| ==> IsWhitespace(s[i])
    ensures s == [] ==> b
  {
    Trim(s) == []
  }
}
