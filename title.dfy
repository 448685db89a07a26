/** `LinkTitleParser`: an optional link title in one of its three quoted
    forms, run as Python's backtracking matcher runs the pattern
    `\s*("(ESC|[^"])*"|'(ESC|[^'])*'|\((ESC|[^)])*\))`. */
module LinkTitle {
  import opened Chars
  import opened Nodes

  /** The delimiter that closes a title opened by `c`, if `c` opens one. */
  function CloserOf(c: char): (r: Option<char>)
    ensures r.Some? <==> c == '"' || c == '\'' || c == '('
    ensures c == '(' ==> r == Some(')')
    ensures c == '"' || c == '\'' ==> r == Some(c)
    ensures r.Some? ==> r.value != '\\'
  {
    if c == '"' then Some('"')
    else if c == '\'' then Some('\'')
    else if c == '(' then Some(')')
    else None
  }

  /** `(ESC|[^q])*q` from offset `k`, with `q` the closing delimiter: the
      offset just past the `q` of the first match the backtracking matcher
      finds. Each repetition tries the escape first, then one character other
      than `q`; the repetition ends only when neither leads to a match. */
  function QuotedEnd(s: string, k: nat, q: char): (r: Option<nat>)
    requires k <= |s|
    ensures r.Some? ==> k < r.value <= |s| && s[r.value - 1] == q
    decreases |s| - k
  {
    if k == |s| then None
    else
      var viaEscape := if EscapeAt(s, k) then QuotedEnd(s, k + 2, q) else None;
      if viaEscape.Some? then viaEscape
      else
        var viaChar := if s[k] != q then QuotedEnd(s, k + 1, q) else None;
        if viaChar.Some? then viaChar
        else if s[k] == q then Some(k + 1)
        else None
  }

  /** `s[k..m]` is made of whole escape sequences and characters other than
      `q` that start no escape. */
  predicate QuotedRun(s: string, k: nat, m: nat, q: char)
    requires k <= m <= |s|
    decreases m - k
  {
    || k == m
    || (EscapeAt(s, k) && k + 2 <= m && QuotedRun(s, k + 2, m, q))
    || (s[k] != q && !EscapeAt(s, k) && QuotedRun(s, k + 1, m, q))
  }

  /** `LinkTitleParser.parse` from offset `k`: the title between its two
      delimiters, entity-decoded then unescaped, or None with nothing read. */
  function ParseLinkTitle(env: Env, s: string, k: nat): (r: Scan<Option<string>>)
    requires k <= |s|
    ensures k <= r.next <= |s|
    ensures r.value.None? ==> r.next == k
    ensures r.value.Some? ==>
      var j := SkipWhile(s, k, IsWhitespace);
      && j + 2 <= r.next
      && CloserOf(s[j]) == Some(s[r.next - 1])
      && r.value.value == env.unescape(env.decodeEntities(s[j + 1..r.next - 1]))
  {
    var j := SkipWhile(s, k, IsWhitespace);
    if j < |s| && CloserOf(s[j]).Some? then
      match QuotedEnd(s, j + 1, CloserOf(s[j]).value)
      case Some(e) => Scan(Some(env.unescape(env.decodeEntities(s[j + 1..e - 1]))), e)
      case None => Scan(None, k)
    else Scan(None, k)
  }

  /** Inside a matched title, the closing delimiter occurs only as the second
      character of an escape sequence. */
  lemma {:induction false} QuotedBodyEscapes(s: string, k: nat, q: char)
    requires k <= |s| && q != '\\'
    requires QuotedEnd(s, k, q).Some?
    ensures forall i :: k <= i < QuotedEnd(s, k, q).value - 1 && s[i] == q ==> k < i && s[i - 1] == '\\'
    decreases |s| - k
  {
    var viaEscape := if EscapeAt(s, k) then QuotedEnd(s, k + 2, q) else None;
    var viaChar := if s[k] != q then QuotedEnd(s, k + 1, q) else None;
    if viaEscape.Some? {
      QuotedBodyEscapes(s, k + 2, q);
    } else if viaChar.Some? {
      QuotedBodyEscapes(s, k + 1, q);
    }
  }

  /** A run of escapes and other characters closed by `q` is matched up to
      that `q`: an escaped delimiter stays inside the title. */
  lemma {:induction false} QuotedRunEnd(s: string, k: nat, m: nat, q: char)
    requires k <= m < |s| && s[m] == q && q != '\\'
    requires QuotedRun(s, k, m, q)
    ensures QuotedEnd(s, k, q) == Some(m + 1)
    decreases m - k
  {
    if k < m {
      if EscapeAt(s, k) {
        QuotedRunEnd(s, k + 2, m, q);
      } else {
        QuotedRunEnd(s, k + 1, m, q);
      }
    }
  }

  /** An escape sequence is stepped over whenever the title closes after it. */
  lemma TitleEscapeSteppedOver(s: string, k: nat, q: char)
    requires k <= |s| && EscapeAt(s, k)
    requires QuotedEnd(s, k + 2, q).Some?
    ensures QuotedEnd(s, k, q) == QuotedEnd(s, k + 2, q)
  {
  }

  /** Without backslashes the title ends at the first closing delimiter. */
  lemma {:induction false} QuotedPlain(s: string, k: nat, m: nat, q: char)
    requires k <= m < |s| && s[m] == q && q != '\\'
    requires forall i :: k <= i < m ==> s[i] != q && s[i] != '\\'
    ensures QuotedEnd(s, k, q) == Some(m + 1)
    decreases m - k
  {
    if k < m {
      QuotedPlain(s, k + 1, m, q);
    }
  }

  /** A title that is never closed does not match. */
  lemma {:induction false} QuotedNeedsCloser(s: string, k: nat, q: char)
    requires k <= |s|
    requires forall i :: k <= i < |s| ==> s[i] != q
    ensures QuotedEnd(s, k, q).None?
    decreases |s| - k
  {
    if k < |s| {
      if EscapeAt(s, k) {
        QuotedNeedsCloser(s, k + 2, q);
      }
      QuotedNeedsCloser(s, k + 1, q);
    }
  }

  /** A title with no backslash and no closing delimiter inside is read up to
      that delimiter and returned without the two delimiters. */
  lemma PlainTitle(env: Env, s: string, k: nat, m: nat)
    requires k <= |s|
    requires SkipWhile(s, k, IsWhitespace) < m < |s|
    requires CloserOf(s[SkipWhile(s, k, IsWhitespace)]) == Some(s[m])
    requires forall i :: SkipWhile(s, k, IsWhitespace) < i < m ==> s[i] != s[m] && s[i] != '\\'
    ensures ParseLinkTitle(env, s, k)
         == Scan(Some(env.unescape(env.decodeEntities(s[SkipWhile(s, k, IsWhitespace) + 1..m]))), m + 1)
  {
    var j := SkipWhile(s, k, IsWhitespace);
    QuotedPlain(s, j + 1, m, s[m]);
  }

  /** A title whose body is made of escapes and characters other than its
      closer is read up to that closer, escaped delimiters included. */
  lemma EscapedTitle(env: Env, s: string, k: nat, m: nat)
    requires k <= |s|
    requires SkipWhile(s, k, IsWhitespace) < m < |s|
    requires CloserOf(s[SkipWhile(s, k, IsWhitespace)]) == Some(s[m])
    requires QuotedRun(s, SkipWhile(s, k, IsWhitespace) + 1, m, s[m])
    ensures ParseLinkTitle(env, s, k)
         == Scan(Some(env.unescape(env.decodeEntities(s[SkipWhile(s, k, IsWhitespace) + 1..m]))), m + 1)
  {
    QuotedRunEnd(s, SkipWhile(s, k, IsWhitespace) + 1, m, s[m]);
  }

  /** `"a\"b"` is the title `a\"b` (before unescaping), read to offset 6. */
  lemma EscapedQuoteInside(env: Env)
    ensures ParseLinkTitle(env, "\"a\\\"b\"", 0) == Scan(Some(env.unescape(env.decodeEntities("a\\\"b"))), 6)
  {
    var s := "\"a\\\"b\"";
    assert SkipWhile(s, 0, IsWhitespace) == 0;
    assert QuotedRun(s, 5, 5, '"');
    assert QuotedRun(s, 4, 5, '"');
    assert QuotedRun(s, 2, 5, '"');
    assert QuotedRun(s, 1, 5, '"');
    EscapedTitle(env, s, 0, 5);
    assert s[1..5] == "a\\\"b";
  }

  /** An opened title that is never closed is no title, and nothing is read. */
  lemma UnterminatedTitle(env: Env, s: string, k: nat)
    requires k <= |s|
    requires SkipWhile(s, k, IsWhitespace) < |s|
    requires CloserOf(s[SkipWhile(s, k, IsWhitespace)]).Some?
    requires forall i :: SkipWhile(s, k, IsWhitespace) < i < |s|
               ==> Some(s[i]) != CloserOf(s[SkipWhile(s, k, IsWhitespace)])
    ensures ParseLinkTitle(env, s, k) == Scan(None, k)
  {
    var j := SkipWhile(s, k, IsWhitespace);
    QuotedNeedsCloser(s, j + 1, CloserOf(s[j]).value);
  }
}
