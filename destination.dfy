/** `LinkDestinationParser`: the destination of an inline link, in its
    angle-bracket form `<...>` or its bare form with balanced parentheses. */
module LinkDestination {
  import opened Chars
  import opened Nodes

  /** `normalize_link_destination`: entity decoding, then backslash
      unescaping, then URI normalisation. */
  function NormalizeDestination(env: Env, s: string): string {
    env.normalizeUri(env.unescape(env.decodeEntities(s)))
  }

  // ---------------------------------------------------------------------
  // Angle-bracket form: `\s*<((?:[^<>\n\\]|ESC)*)>`
  // ---------------------------------------------------------------------

  /** A character of the class `[^<>\n\\]`. */
  predicate IsAngleChar(c: char) {
    c != '<' && c != '>' && c != '\n' && c != '\\'
  }

  /** `^\s*<`: the remaining text asks for the angle-bracket form. */
  predicate AngleFormApplies(s: string, k: nat)
    requires k <= |s|
  {
    var j := SkipWhile(s, k, IsWhitespace);
    j < |s| && s[j] == '<'
  }

  /** `s[k..r]` is a run of `(?:[^<>\n\\]|ESC)*`: class characters and
      whole escape sequences. */
  predicate AngleRun(s: string, k: nat, r: nat)
    requires k <= r <= |s|
    decreases r - k
  {
    || k == r
    || (IsAngleChar(s[k]) && AngleRun(s, k + 1, r))
    || (EscapeAt(s, k) && k + 2 <= r && AngleRun(s, k + 2, r))
  }

  /** The end of the run `(?:[^<>\n\\]|ESC)*` from `k`. The two alternatives
      cannot start at the same character, so the run is unique and the regex
      never backtracks into it. */
  function AngleBodyEnd(s: string, k: nat): (r: nat)
    requires k <= |s|
    ensures k <= r <= |s|
    ensures AngleRun(s, k, r)
    ensures forall j :: k <= j < r ==> IsAngleChar(s[j]) || EscapeAt(s, j) || (k < j && EscapeAt(s, j - 1))
    ensures forall j :: k <= j < r && !IsAngleChar(s[j]) && s[j] != '\\' ==> k < j && s[j - 1] == '\\'
    ensures r == |s| || (!IsAngleChar(s[r]) && !EscapeAt(s, r))
    decreases |s| - k
  {
    if k < |s| && IsAngleChar(s[k]) then AngleBodyEnd(s, k + 1)
    else if EscapeAt(s, k) then AngleBodyEnd(s, k + 2)
    else k
  }

  /** The angle-bracket pattern matched at `k`: the offset just past the
      first `>` after the `<` that no backslash escapes. */
  function AngleMatch(s: string, k: nat): (r: Option<nat>)
    requires k <= |s|
    ensures r.Some? ==> AngleFormApplies(s, k) && k < r.value <= |s| && s[r.value - 1] == '>'
    ensures r.Some? ==> SkipWhile(s, k, IsWhitespace) + 2 <= r.value
    ensures r.Some? ==>
      forall j :: SkipWhile(s, k, IsWhitespace) < j < r.value - 1 && s[j] == '>' ==> s[j - 1] == '\\'
    ensures r.Some? ==> AngleRun(s, SkipWhile(s, k, IsWhitespace) + 1, r.value - 1)
  {
    var j := SkipWhile(s, k, IsWhitespace);
    if j < |s| && s[j] == '<' then
      var e := AngleBodyEnd(s, j + 1);
      if e < |s| && s[e] == '>' then Some(e + 1) else None
    else None
  }

  /** A `<` that is never closed makes the angle-bracket form yield the empty
      destination, read nowhere. */
  lemma {:induction false} UnclosedAngle(env: Env, s: string, k: nat)
    requires k <= |s|
    requires AngleFormApplies(s, k)
    requires '>' !in s[SkipWhile(s, k, IsWhitespace)..]
    ensures Destination(env, s, k) == Scan(Some(""), k)
  {
    var j := SkipWhile(s, k, IsWhitespace);
    var e := AngleBodyEnd(s, j + 1);
    if e < |s| {
      assert s[e] == s[j..][e - j];
    }
  }

  /** The run is unique: any run that stops where neither alternative can
      start is the one `AngleBodyEnd` finds. */
  lemma {:induction false} AngleRunIsBody(s: string, k: nat, m: nat)
    requires k <= m <= |s|
    requires AngleRun(s, k, m)
    requires m == |s| || (!IsAngleChar(s[m]) && !EscapeAt(s, m))
    ensures AngleBodyEnd(s, k) == m
    decreases m - k
  {
    if k < m {
      if IsAngleChar(s[k]) {
        AngleRunIsBody(s, k + 1, m);
      } else {
        AngleRunIsBody(s, k + 2, m);
      }
    }
  }

  /** `<u>` where `u` is a run of class characters and escapes is matched up
      to that `>`, and the destination is `u`, normalised: the match ends at
      the first `>` no escape covers. */
  lemma AngleDestination(env: Env, s: string, k: nat, m: nat)
    requires k <= |s|
    requires AngleFormApplies(s, k)
    requires SkipWhile(s, k, IsWhitespace) < m < |s| && s[m] == '>'
    requires AngleRun(s, SkipWhile(s, k, IsWhitespace) + 1, m)
    ensures AngleMatch(s, k) == Some(m + 1)
    ensures Destination(env, s, k)
         == Scan(Some(NormalizeDestination(env, s[SkipWhile(s, k, IsWhitespace) + 1..m])), m + 1)
  {
    AngleRunIsBody(s, SkipWhile(s, k, IsWhitespace) + 1, m);
  }

  /** In `<\\>b>` the escape covers the second backslash, not the `>`: the
      match ends at offset 4, with the destination `\\` normalised. */
  lemma EscapedBackslashBeforeCloser(env: Env)
    ensures AngleMatch("<\\\\>b>", 0) == Some(4)
    ensures Destination(env, "<\\\\>b>", 0) == Scan(Some(NormalizeDestination(env, "\\\\")), 4)
  {
    var s := "<\\\\>b>";
    assert SkipWhile(s, 0, IsWhitespace) == 0;
    assert AngleRun(s, 3, 3);
    assert AngleRun(s, 1, 3);
    AngleDestination(env, s, 0, 3);
    assert s[1..3] == "\\\\";
  }

  /** A run of angle characters is the body up to the first character
      outside the class that starts no escape. */
  lemma {:induction false} PlainAngleBody(s: string, k: nat, m: nat)
    requires k <= m <= |s|
    requires forall j :: k <= j < m ==> IsAngleChar(s[j])
    requires m == |s| || (!IsAngleChar(s[m]) && s[m] != '\\')
    ensures AngleBodyEnd(s, k) == m
    decreases m - k
  {
    if k < m {
      PlainAngleBody(s, k + 1, m);
    }
  }

  /** `<u>` with no `<`, `>`, newline or backslash inside `u` is matched up to
      its `>`, and the destination is `u`, normalised. */
  lemma PlainAngleDestination(env: Env, s: string, k: nat, m: nat)
    requires k <= |s|
    requires AngleFormApplies(s, k)
    requires SkipWhile(s, k, IsWhitespace) < m < |s| && s[m] == '>'
    requires forall j :: SkipWhile(s, k, IsWhitespace) < j < m ==> IsAngleChar(s[j])
    ensures Destination(env, s, k)
         == Scan(Some(NormalizeDestination(env, s[SkipWhile(s, k, IsWhitespace) + 1..m])), m + 1)
  {
    PlainAngleBody(s, SkipWhile(s, k, IsWhitespace) + 1, m);
  }

  // ---------------------------------------------------------------------
  // Bare form
  // ---------------------------------------------------------------------

  /** Where the scan of `parseBareLinkDestination` stops, and the paren depth
      it has then (before the `)` that would make it negative). */
  datatype BareStop = BareStop(end: nat, parens: int)

  /** The loop of `parseBareLinkDestination`, from offset `k` at depth
      `parens`: it stops at the first space or newline, or at the first `)`
      that would take the depth below zero, and steps over an escape sequence
      as a whole. */
  function BareScan(s: string, k: nat, parens: int): (r: BareStop)
    requires k <= |s| && parens >= 0
    ensures k <= r.end <= |s| && r.parens >= 0
    ensures r.end == |s| || IsSpaceOrNewline(s[r.end]) || (s[r.end] == ')' && r.parens == 0)
    decreases |s| - k
  {
    if k == |s| then BareStop(k, parens)
    else if IsSpaceOrNewline(s[k]) then BareStop(k, parens)
    else if s[k] == '(' then BareScan(s, k + 1, parens + 1)
    else if s[k] == ')' then
      if parens - 1 < 0 then BareStop(k, parens) else BareScan(s, k + 1, parens - 1)
    else if EscapeAt(s, k) then BareScan(s, k + 2, parens)
    else BareScan(s, k + 1, parens)
  }

  /** The bare destination from `k`: after `[ \n]*`, nothing left means no
      destination at all (None); otherwise the scanned text, normalised. */
  function BareDestination(env: Env, s: string, k: nat): (r: Scan<Option<string>>)
    requires k <= |s|
    ensures k <= r.next <= |s|
  {
    var j := SkipWhile(s, k, IsSpaceOrNewline);
    if j == |s| then Scan(None, j)
    else
      var e := BareScan(s, j, 0).end;
      Scan(Some(NormalizeDestination(env, s[j..e])), e)
  }

  /** `LinkDestinationParser.parse` from offset `k`. */
  function Destination(env: Env, s: string, k: nat): (r: Scan<Option<string>>)
    requires k <= |s|
    ensures k <= r.next <= |s|
    ensures r.value.None? ==> !AngleFormApplies(s, k) && r.next == |s|
    ensures AngleFormApplies(s, k) && AngleMatch(s, k).None? ==> r == Scan(Some(""), k)
  {
    if AngleFormApplies(s, k) then
      match AngleMatch(s, k)
      case None => Scan(Some(""), k)
      case Some(e) =>
        Scan(Some(NormalizeDestination(env, s[SkipWhile(s, k, IsWhitespace) + 1..e - 1])), e)
    else BareDestination(env, s, k)
  }

  /** The destination is absent exactly when only spaces and newlines remain. */
  lemma AbsentDestination(env: Env, s: string, k: nat)
    requires k <= |s|
    ensures Destination(env, s, k).value.None?
        <==> forall j :: k <= j < |s| ==> IsSpaceOrNewline(s[j])
  {
    var j := SkipWhile(s, k, IsSpaceOrNewline);
    if AngleFormApplies(s, k) {
      var w := SkipWhile(s, k, IsWhitespace);
      assert !IsSpaceOrNewline(s[w]);
    }
  }

  /** The net paren depth of a run: `(` counts one up, `)` one down. */
  function Depth(u: string): int {
    if u == [] then 0
    else (if u[0] == '(' then 1 else if u[0] == ')' then -1 else 0) + Depth(u[1..])
  }

  /** A run of plain characters and parentheses (no space, newline or escape
      sequence; a backslash before a non-punctuation character is a plain
      character) whose depth, starting from `parens`, never drops below zero
      stays inside the destination: the scan goes on from its end at the
      depth the run leaves. */
  lemma {:induction false} BalancedRunStaysInside(s: string, k: nat, m: nat, parens: int)
    requires k <= m <= |s| && parens >= 0
    requires forall j :: k <= j < m ==> !IsSpaceOrNewline(s[j]) && !EscapeAt(s, j)
    requires forall j :: k <= j <= m ==> parens + Depth(s[k..j]) >= 0
    ensures parens + Depth(s[k..m]) >= 0
    ensures BareScan(s, k, parens) == BareScan(s, m, parens + Depth(s[k..m]))
    decreases m - k
  {
    if k < m {
      var d := if s[k] == '(' then 1 else if s[k] == ')' then -1 else 0;
      assert Depth(s[k..k + 1]) == d by {
        assert s[k..k + 1][1..] == [];
      }
      assert parens + d >= 0;
      var k' := k + 1;
      forall j | k' <= j <= m
        ensures parens + d + Depth(s[k'..j]) >= 0
      {
        assert s[k..j][1..] == s[k'..j];
        assert Depth(s[k..j]) == d + Depth(s[k'..j]);
      }
      assert s[k..m][1..] == s[k'..m];
      BalancedRunStaysInside(s, k', m, parens + d);
    }
  }

  /** Balanced parentheses stay inside a bare destination, and the first `)`
      that would unbalance them ends it: `a(b)c)` yields `a(b)c`. */
  lemma BalancedDestination(s: string, k: nat, m: nat)
    requires k <= m < |s|
    requires forall j :: k <= j < m ==> !IsSpaceOrNewline(s[j]) && !EscapeAt(s, j)
    requires forall j :: k <= j <= m ==> Depth(s[k..j]) >= 0
    requires Depth(s[k..m]) == 0 && s[m] == ')'
    ensures BareScan(s, k, 0).end == m
  {
    BalancedRunStaysInside(s, k, m, 0);
  }

  /** A space or newline after a run with no unbalanced `)` ends the
      destination there. */
  lemma DestinationEndsAtSpace(s: string, k: nat, m: nat)
    requires k <= m < |s|
    requires forall j :: k <= j < m ==> !IsSpaceOrNewline(s[j]) && !EscapeAt(s, j)
    requires forall j :: k <= j <= m ==> Depth(s[k..j]) >= 0
    requires IsSpaceOrNewline(s[m])
    ensures BareScan(s, k, 0).end == m
  {
    BalancedRunStaysInside(s, k, m, 0);
  }

  /** A backslash before a letter is an ordinary character of the
      destination: `a\b c` yields `a\b`. */
  lemma LoneBackslashKept(env: Env)
    ensures BareDestination(env, "a\\b c", 0) == Scan(Some(NormalizeDestination(env, "a\\b")), 3)
  {
    var s := "a\\b c";
    assert s[0..1] == "a" && s[0..2] == "a\\" && s[0..3] == "a\\b";
    assert Depth("") == 0;
    assert Depth("b") == 0;
    assert Depth("\\b") == 0;
    assert Depth("a") == 0 && Depth("a\\") == 0 && Depth("a\\b") == 0;
    DestinationEndsAtSpace(s, 0, 3);
  }

  /** An escape sequence is stepped over as a whole: an escaped `)`, `(` or
      backslash neither ends the destination nor changes the depth. */
  lemma EscapeSteppedOver(s: string, k: nat, parens: int)
    requires k <= |s| && parens >= 0
    requires EscapeAt(s, k)
    ensures BareScan(s, k, parens) == BareScan(s, k + 2, parens)
    ensures BareScan(s, k, parens).end >= k + 2
  {
  }

  // ---------------------------------------------------------------------
  // The parsers as they run on the reader
  // ---------------------------------------------------------------------

  /** `parseBareLinkDestination`. */
  method ParseBareLinkDestination(env: Env, reader: TextReader) returns (destination: Option<string>)
    requires reader.Valid()
    modifies reader
    ensures reader.Valid()
    ensures Scan(destination, reader.position) == BareDestination(env, reader.text, old(reader.position))
  {
    reader.position := SkipWhile(reader.text, reader.position, IsSpaceOrNewline);
    if reader.position == |reader.text| {
      // nothing but spaces and newlines was left: no destination
      return None;
    }

    var parens := 0;
    var start := reader.position;
    while reader.position < |reader.text|
      invariant start <= reader.position <= |reader.text| && parens >= 0
      invariant BareScan(reader.text, start, 0) == BareScan(reader.text, reader.position, parens)
      decreases |reader.text| - reader.position
    {
      var c := reader.text[reader.position];
      if IsSpaceOrNewline(c) {
        break;
      } else if c == '(' {
        parens := parens + 1;
      } else if c == ')' {
        parens := parens - 1;
        if parens < 0 {
          break;
        }
      } else if EscapeAt(reader.text, reader.position) {
        reader.Step(1);  // the backslash; the escaped character is stepped below
      }
      reader.Step(1);
    }

    destination := Some(NormalizeDestination(env, reader.text[start..reader.position]));
  }

  /** `LinkDestinationParser.parse`. */
  method ParseLinkDestination(env: Env, reader: TextReader) returns (destination: Option<string>)
    requires reader.Valid()
    modifies reader
    ensures reader.Valid()
    ensures Scan(destination, reader.position) == Destination(env, reader.text, old(reader.position))
  {
    if AngleFormApplies(reader.text, reader.position) {
      var matched := AngleMatch(reader.text, reader.position);
      if matched.None? {
        destination := Some("");
      } else {
        var open := SkipWhile(reader.text, reader.position, IsWhitespace);
        destination := Some(NormalizeDestination(env, reader.text[open + 1..matched.value - 1]));
        reader.position := matched.value;
      }
    } else {
      destination := ParseBareLinkDestination(env, reader);
    }
  }
}
