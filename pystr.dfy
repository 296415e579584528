/** A model of the two pieces of Python's `str` that the signup handler relies on:
    `str.isspace` on one character and `str.strip()` with no argument, which
    removes leading and trailing whitespace. Characters are Unicode scalar values,
    as a Python `str` holds code points. */
module PyStr {

  /** The characters Python's `str.isspace` accepts: the ASCII controls TAB..CR and
      FS..US, SPACE, NEL, NO-BREAK SPACE, and the Unicode space separators and
      line/paragraph separators. */
  predicate IsWhitespace(c: char)
  {
    ('\U{9}' <= c <= '\U{D}') || ('\U{1C}' <= c <= '\U{20}') ||
    c == '\U{85}' || c == '\U{A0}' || c == '\U{1680}' ||
    ('\U{2000}' <= c <= '\U{200A}') || c == '\U{2028}' || c == '\U{2029}' ||
    c == '\U{202F}' || c == '\U{205F}' || c == '\U{3000}'
  }

  /** Every character of `s` is whitespace (vacuously true of the empty string). */
  predicate AllWhitespace(s: string)
  {
    forall i :: 0 <= i < |s| ==> IsWhitespace(s[i])
  }

  /** How many whitespace characters `s` starts with: the first index at which the
      left-to-right scan of `strip()` stops. */
  function LeadingWhitespace(s: string): (n: nat)
    ensures n <= |s|
    ensures forall i :: 0 <= i < n ==> IsWhitespace(s[i])
    ensures n < |s| ==> !IsWhitespace(s[n])
  {
    if s == [] || !IsWhitespace(s[0]) then 0
    else
      var n := 1 + LeadingWhitespace(s[1..]);
      assert forall i :: 1 <= i < n ==> s[i] == s[1..][i - 1];
      n
  }

  /** How many whitespace characters `s` ends with: the right-to-left scan of
      `strip()`. */
  function TrailingWhitespace(s: string): (n: nat)
    ensures n <= |s|
    ensures forall i :: |s| - n <= i < |s| ==> IsWhitespace(s[i])
    ensures n < |s| ==> !IsWhitespace(s[|s| - 1 - n])
  {
    if s == [] || !IsWhitespace(s[|s| - 1]) then 0
    else
      var n := 1 + TrailingWhitespace(s[..|s| - 1]);
      assert forall i :: |s| - n <= i < |s| - 1 ==> s[i] == s[..|s| - 1][i];
      n
  }

  /** Python's `s.strip()`: the slice between the leading and the trailing run of
      whitespace; the empty string when `s` holds nothing else. */
  function Strip(s: string): string
  {
    var lo := LeadingWhitespace(s);
    var hi := if lo == |s| then lo else |s| - TrailingWhitespace(s);
    s[lo..hi]
  }

  /** `not s.strip()` in Python: the string is empty or made only of whitespace. */
  lemma StripEmptyIff(s: string)
    ensures Strip(s) == [] <==> AllWhitespace(s)
  {
  }

  /** Strip keeps a slice `s[lo..hi]` whose margins are whitespace and whose first
      and last characters are not: the full meaning of `str.strip()`. */
  lemma StripShape(s: string)
    ensures exists lo, hi ::
              0 <= lo <= hi <= |s| && Strip(s) == s[lo..hi] &&
              (forall i :: 0 <= i < lo ==> IsWhitespace(s[i])) &&
              (forall i :: hi <= i < |s| ==> IsWhitespace(s[i])) &&
              (lo < hi ==> !IsWhitespace(s[lo]) && !IsWhitespace(s[hi - 1]))
  {
    var lo := LeadingWhitespace(s);
    var hi := if lo == |s| then lo else |s| - TrailingWhitespace(s);
    assert Strip(s) == s[lo..hi];
  }
}
