/** `LinkLabelParser`: the label of a full or collapsed reference, run as
    Python's backtracking matcher runs `(?:[^\[\]\\]|ESC|\\){0,1000}\]`. */
module LinkLabel {
  import opened Chars
  import opened Nodes

  /** The bound of the repetition: at most this many items before the `]`. */
  const MaxLabelItems: nat := 1000

  /** A character of the class `[^\[\]\\]`. */
  predicate IsLabelChar(c: char) {
    c != '[' && c != ']' && c != '\\'
  }

  /** The label pattern from offset `k` with `n` items already taken: the
      offset just past the closing `]` of the first match the backtracking
      matcher finds. While fewer than 1000 items are taken, one more item is
      tried first (a plain character, then an escape sequence, then a lone
      backslash); only when none leads to a match does the `]` have to
      follow. */
  function LabelEnd(s: string, k: nat, n: nat): (r: Option<nat>)
    requires k <= |s| && n <= MaxLabelItems
    ensures r.Some? ==> k < r.value <= |s| && s[r.value - 1] == ']'
    ensures r.Some? ==> r.value - 1 - k <= 2 * (MaxLabelItems - n)
    decreases |s| - k
  {
    var viaItem :=
      if n < MaxLabelItems && k < |s| then
        var plain := if IsLabelChar(s[k]) then LabelEnd(s, k + 1, n + 1) else None;
        if plain.Some? then plain
        else
          var escape := if EscapeAt(s, k) then LabelEnd(s, k + 2, n + 1) else None;
          if escape.Some? then escape
          else if s[k] == '\\' then LabelEnd(s, k + 1, n + 1)
          else None
      else None;
    if viaItem.Some? then viaItem
    else if k < |s| && s[k] == ']' then Some(k + 1)
    else None
  }

  /** `s[k..m]` is `c` items of the repetition: characters of the class,
      whole escape sequences, and backslashes that start no escape. */
  predicate LabelRun(s: string, k: nat, m: nat, c: nat)
    requires k <= m <= |s|
    decreases m - k
  {
    if k == m then c == 0
    else
      && c > 0
      && (|| (IsLabelChar(s[k]) && LabelRun(s, k + 1, m, c - 1))
          || (EscapeAt(s, k) && k + 2 <= m && LabelRun(s, k + 2, m, c - 1))
          || (s[k] == '\\' && !EscapeAt(s, k) && LabelRun(s, k + 1, m, c - 1)))
  }

  /** `s[k..m]` splits into `c` items in some way the repetition can take
      them: a class character, a whole escape sequence, or a single
      backslash (after backtracking, even one before punctuation). */
  predicate LabelItems(s: string, k: nat, m: nat, c: nat)
    requires k <= m <= |s|
    decreases m - k
  {
    if k == m then c == 0
    else
      && c > 0
      && (|| (IsLabelChar(s[k]) && LabelItems(s, k + 1, m, c - 1))
          || (EscapeAt(s, k) && k + 2 <= m && LabelItems(s, k + 2, m, c - 1))
          || (s[k] == '\\' && LabelItems(s, k + 1, m, c - 1)))
  }

  /** `LinkLabelParser.parse` from offset `k`: the matched text without its
      closing `]`, with the reader past the `]`; or None with nothing read.
      The empty label is a success (it signals a collapsed reference). */
  function ParseLinkLabel(s: string, k: nat): (r: Scan<Option<string>>)
    requires k <= |s|
    ensures k <= r.next <= |s|
    ensures r.value.None? ==> r.next == k
    ensures r.value.Some? ==>
      && k < r.next && s[r.next - 1] == ']'
      && r.value.value == s[k..r.next - 1]
      && |r.value.value| <= 2 * MaxLabelItems
  {
    match LabelEnd(s, k, 0)
    case Some(e) => Scan(Some(s[k..e - 1]), e)
    case None => Scan(None, k)
  }

  /** Every match keeps the bound of the repetition: the text before its `]`
      is at most `1000 - n` items. */
  lemma {:induction false} LabelEndIsItems(s: string, k: nat, n: nat) returns (c: nat)
    requires k <= |s| && n <= MaxLabelItems
    requires LabelEnd(s, k, n).Some?
    ensures n + c <= MaxLabelItems && LabelItems(s, k, LabelEnd(s, k, n).value - 1, c)
    decreases |s| - k
  {
    if n < MaxLabelItems && k < |s| {
      var plain := if IsLabelChar(s[k]) then LabelEnd(s, k + 1, n + 1) else None;
      var escape := if EscapeAt(s, k) then LabelEnd(s, k + 2, n + 1) else None;
      if plain.Some? {
        var rest := LabelEndIsItems(s, k + 1, n + 1);
        return rest + 1;
      } else if escape.Some? {
        var rest := LabelEndIsItems(s, k + 2, n + 1);
        return rest + 1;
      } else if s[k] == '\\' && LabelEnd(s, k + 1, n + 1).Some? {
        var rest := LabelEndIsItems(s, k + 1, n + 1);
        return rest + 1;
      }
    }
    return 0;
  }

  /** A label the parser returns is at most 1000 items of the repetition. */
  lemma LabelHasItems(s: string, k: nat) returns (c: nat)
    requires k <= |s|
    requires ParseLinkLabel(s, k).value.Some?
    ensures c <= MaxLabelItems && LabelItems(s, k, ParseLinkLabel(s, k).next - 1, c)
    ensures ParseLinkLabel(s, k).value.value == s[k..ParseLinkLabel(s, k).next - 1]
  {
    c := LabelEndIsItems(s, k, 0);
  }

  /** Inside a matched label every `[` and `]` is escaped: it is the second
      character of an escape sequence. */
  lemma {:induction false} LabelBracketsEscaped(s: string, k: nat, n: nat)
    requires k <= |s| && n <= MaxLabelItems
    requires LabelEnd(s, k, n).Some?
    ensures forall i :: k <= i < LabelEnd(s, k, n).value - 1 && (s[i] == '[' || s[i] == ']')
              ==> k < i && s[i - 1] == '\\'
    decreases |s| - k
  {
    if n < MaxLabelItems && k < |s| {
      var plain := if IsLabelChar(s[k]) then LabelEnd(s, k + 1, n + 1) else None;
      var escape := if EscapeAt(s, k) then LabelEnd(s, k + 2, n + 1) else None;
      if plain.Some? {
        LabelBracketsEscaped(s, k + 1, n + 1);
      } else if escape.Some? {
        LabelBracketsEscaped(s, k + 2, n + 1);
      } else if s[k] == '\\' && LabelEnd(s, k + 1, n + 1).Some? {
        LabelBracketsEscaped(s, k + 1, n + 1);
      }
    }
  }

  /** A run of items closed by `]` that keeps within the bound is matched up
      to that `]`: an escaped bracket stays inside the label. */
  lemma {:induction false} LabelRunEnd(s: string, k: nat, m: nat, n: nat, c: nat)
    requires k <= m < |s| && s[m] == ']'
    requires LabelRun(s, k, m, c) && n + c <= MaxLabelItems
    ensures LabelEnd(s, k, n) == Some(m + 1)
    decreases m - k
  {
    if k < m {
      if IsLabelChar(s[k]) {
        LabelRunEnd(s, k + 1, m, n + 1, c - 1);
      } else if EscapeAt(s, k) {
        LabelRunEnd(s, k + 2, m, n + 1, c - 1);
      } else {
        LabelRunEnd(s, k + 1, m, n + 1, c - 1);
      }
    }
  }

  /** An escape sequence is stepped over whenever the label closes after it. */
  lemma LabelEscapeSteppedOver(s: string, k: nat, n: nat)
    requires k <= |s| && n < MaxLabelItems && EscapeAt(s, k)
    requires LabelEnd(s, k + 2, n + 1).Some?
    ensures LabelEnd(s, k, n) == LabelEnd(s, k + 2, n + 1)
  {
  }

  /** The label parser on a run of at most 1000 items closed by `]` returns
      the run, escaped brackets included. */
  lemma EscapedLabel(s: string, k: nat, m: nat, c: nat)
    requires k <= m < |s| && s[m] == ']'
    requires LabelRun(s, k, m, c) && c <= MaxLabelItems
    ensures ParseLinkLabel(s, k) == Scan(Some(s[k..m]), m + 1)
  {
    LabelRunEnd(s, k, m, 0, c);
  }

  /** `foo\]bar]` is the label `foo\]bar`, read to offset 9. */
  lemma EscapedBracketInside()
    ensures ParseLinkLabel("foo\\]bar]", 0) == Scan(Some("foo\\]bar"), 9)
  {
    var s := "foo\\]bar]";
    assert LabelRun(s, 8, 8, 0);
    assert LabelRun(s, 7, 8, 1);
    assert LabelRun(s, 6, 8, 2);
    assert LabelRun(s, 5, 8, 3);
    assert LabelRun(s, 3, 8, 4);
    assert LabelRun(s, 2, 8, 5);
    assert LabelRun(s, 1, 8, 6);
    assert LabelRun(s, 0, 8, 7);
    EscapedLabel(s, 0, 8, 7);
    assert s[0..8] == "foo\\]bar";
  }

  /** A run of plain characters closed by `]` is a label exactly when it
      keeps within the bound; the label is then the whole run. */
  lemma {:induction false} PlainLabelEnd(s: string, k: nat, m: nat, n: nat)
    requires k <= m < |s| && s[m] == ']' && n <= MaxLabelItems
    requires forall i :: k <= i < m ==> IsLabelChar(s[i])
    ensures LabelEnd(s, k, n) == if (m - k) + n <= MaxLabelItems then Some(m + 1) else None
    decreases m - k
  {
    if k < m && n < MaxLabelItems {
      PlainLabelEnd(s, k + 1, m, n + 1);
    }
  }

  /** The label parser on a plain run closed by `]`: it succeeds with the run
      when the run has at most 1000 characters, and fails otherwise. */
  lemma PlainLabel(s: string, k: nat, m: nat)
    requires k <= m < |s| && s[m] == ']'
    requires forall i :: k <= i < m ==> IsLabelChar(s[i])
    ensures ParseLinkLabel(s, k)
         == if m - k <= MaxLabelItems then Scan(Some(s[k..m]), m + 1) else Scan(None, k)
  {
    PlainLabelEnd(s, k, m, 0);
  }

  /** Without a `]` ahead there is no label. */
  lemma {:induction false} LabelNeedsCloser(s: string, k: nat, n: nat)
    requires k <= |s| && n <= MaxLabelItems
    requires forall i :: k <= i < |s| ==> s[i] != ']'
    ensures LabelEnd(s, k, n).None?
    decreases |s| - k
  {
    if k < |s| && n < MaxLabelItems {
      LabelNeedsCloser(s, k + 1, n + 1);
      if EscapeAt(s, k) {
        LabelNeedsCloser(s, k + 2, n + 1);
      }
    }
  }
}
