/** Character classes and whitespace handling of Python strings. */
module Text {

  /** Python's whitespace: `str.isspace()`, which is also what `\s` matches in a
      `str` regular expression (and what `str.strip()` removes). */
  predicate IsSpace(c: char) {
    c == ' ' || ('\t' <= c <= '\r') || ('\U{1c}' <= c <= '\U{1f}')
    || c == '\U{85}' || c == '\U{a0}' || c == '\U{1680}'
    || ('\U{2000}' <= c <= '\U{200a}') || c == '\U{2028}' || c == '\U{2029}'
    || c == '\U{202f}' || c == '\U{205f}' || c == '\U{3000}'
  }

  /** Length of the whitespace run at the start of `s` (what a greedy `\s*` consumes). */
  function SkipSpace(s: string): (n: nat)
    ensures n <= |s|
    ensures forall i | 0 <= i < n :: IsSpace(s[i])
    ensures n < |s| ==> !IsSpace(s[n])
  {
    if s != [] && IsSpace(s[0]) then 1 + SkipSpace(s[1..]) else 0
  }

  /** Length of the whitespace run at the end of `s`. */
  function TrailingSpace(s: string): (n: nat)
    ensures n <= |s|
    ensures forall i | |s| - n <= i < |s| :: IsSpace(s[i])
    ensures n < |s| ==> !IsSpace(s[|s| - 1 - n])
  {
    if s != [] && IsSpace(s[|s| - 1]) then 1 + TrailingSpace(s[..|s| - 1]) else 0
  }

  /** Python's `str.strip()`: drop leading and trailing whitespace. */
  function Strip(s: string): (r: string)
    ensures SkipSpace(s) + |r| <= |s| && r == s[SkipSpace(s)..SkipSpace(s) + |r|]
    ensures forall i | SkipSpace(s) + |r| <= i < |s| :: IsSpace(s[i])
    ensures r != [] ==> !IsSpace(r[0]) && !IsSpace(r[|r| - 1])
    ensures r == [] <==> forall i | 0 <= i < |s| :: IsSpace(s[i])
  {
    var t := s[SkipSpace(s)..];
    t[..|t| - TrailingSpace(t)]
  }
}
