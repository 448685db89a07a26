/** Character classes and string primitives shared by the link sub-parsers:
    the pieces of the regular expressions the parsers are written with, and
    Python's slicing of the reader's text. */
module Chars {

  /** Python's `\s` on a str pattern: the characters `str.isspace` accepts. */
  predicate IsWhitespace(c: char) {
    || c == ' '
    || ('\t' <= c <= '\r')
    || ('\U{1C}' <= c <= '\U{1F}')
    || c == '\U{85}' || c == '\U{A0}' || c == '\U{1680}'
    || ('\U{2000}' <= c <= '\U{200A}')
    || c == '\U{2028}' || c == '\U{2029}' || c == '\U{202F}' || c == '\U{205F}' || c == '\U{3000}'
  }

  /** The class `[ \n]` skipped before a bare destination. */
  predicate IsSpaceOrNewline(c: char) {
    c == ' ' || c == '\n'
  }

  /** ASCII punctuation: the characters a backslash may escape (CommonMark, section 2.4). */
  predicate IsAsciiPunctuation(c: char) {
    ('!' <= c <= '/') || (':' <= c <= '@') || ('[' <= c <= '`') || ('{' <= c <= '~')
  }

  /** An escape sequence (a backslash and an ASCII punctuation character) starts at `k`. */
  predicate EscapeAt(s: string, k: nat) {
    k + 1 < |s| && s[k] == '\\' && IsAsciiPunctuation(s[k + 1])
  }

  /** The regex `c*` run greedily on `s` from `k`, for a character class `accept`:
      the end of the longest run of accepted characters. */
  function SkipWhile(s: string, k: nat, accept: char -> bool): (r: nat)
    requires k <= |s|
    ensures k <= r <= |s|
    ensures forall j :: k <= j < r ==> accept(s[j])
    ensures r == |s| || !accept(s[r])
    decreases |s| - k
  {
    if k < |s| && accept(s[k]) then SkipWhile(s, k + 1, accept) else k
  }

  /** Python's `s[i:j]` on a str: negative indices count from the end, and both
      bounds are clamped to the string. */
  function Slice(s: string, i: int, j: int): (r: string)
    ensures |r| <= |s|
    ensures 0 <= i <= j <= |s| ==> r == s[i..j]
    ensures 0 <= j <= i ==> r == []
  {
    var a, b := Clamp(i, |s|), Clamp(j, |s|);
    if a < b then s[a..b] else []
  }

  /** A Python slice bound resolved against a string of length `n`. */
  function Clamp(k: int, n: nat): (r: nat)
    ensures r <= n
    ensures 0 <= k <= n ==> r == k
  {
    if k < 0 then (if k + n < 0 then 0 else k + n) else if k > n then n else k
  }

  /** `s` holds `prefix` at position `k`. */
  predicate StartsWithAt(s: string, k: nat, prefix: string) {
    k + |prefix| <= |s| && s[k..k + |prefix|] == prefix
  }
}
