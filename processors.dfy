/** The link processors of the inline parser (CommonMark, sections 6.5
    "Links" and 6.6 "Images"): the opener for `[` and `![`, and the four
    closers tried on `]` — the unmatched-bracket fast path, the inline
    destination form `](...)`, the reference form `][...]` and the shortcut
    form `]`. */
module LinkProcessors {
  import opened Chars
  import opened Nodes
  import opened LinkDestination
  import opened LinkTitle
  import opened LinkLabel
  import opened Brackets

  // ---------------------------------------------------------------------
  // The state invariant the processors keep
  // ---------------------------------------------------------------------

  /** Every bracket among the children was opened before the reader's
      position: the character just before its recorded position is the `[`
      of its marker. */
  ghost predicate BracketsBehind(doc: seq<Node>, text: string, pos: nat) {
    forall j :: 0 <= j < |doc| && doc[j].Bracket? ==>
      0 < doc[j].position <= pos && doc[j].position <= |text| && text[doc[j].position - 1] == '['
  }

  // ---------------------------------------------------------------------
  // The opener
  // ---------------------------------------------------------------------

  /** The marker the pattern `\!?\[` matches at `k`. */
  function MarkerAt(s: string, k: nat): (m: Marker)
    requires StartsWithAt(s, k, "[") || StartsWithAt(s, k, "![")
    ensures StartsWithAt(s, k, m) && s[k + |m| - 1] == '['
  {
    if StartsWithAt(s, k, "![") then "![" else "["
  }

  /** `LinkOpenerProcessor.run`: consumes the marker and appends one active
      bracket that can open, recording the position just after the marker;
      nothing else changes. */
  method OpenBracket(reader: TextReader, document: Document)
    requires reader.Valid()
    requires StartsWithAt(reader.text, reader.position, "[") || StartsWithAt(reader.text, reader.position, "![")
    modifies reader, document
    ensures reader.Valid()
    ensures var marker := MarkerAt(reader.text, old(reader.position));
      && reader.position == old(reader.position) + |marker|
      && document.children == old(document.children) + [Bracket(marker, true, true, reader.position)]
    ensures BracketsBehind(old(document.children), reader.text, old(reader.position))
        ==> BracketsBehind(document.children, reader.text, reader.position)
  {
    var marker := MarkerAt(reader.text, reader.position);
    reader.Step(|marker|);
    document.children := document.children + [Bracket(marker, true, true, reader.position)];
  }

  // ---------------------------------------------------------------------
  // The unmatched-bracket fast path
  // ---------------------------------------------------------------------

  /** `UnmatchedLinkCloserProcessor.run` on a `]`: with no opener the `]` is
      text; with an inactive innermost opener both the opener and the `]`
      become text; with an active one it declines and changes nothing. */
  method CloseUnmatched(reader: TextReader, document: Document) returns (handled: bool)
    requires reader.Valid() && StartsWithAt(reader.text, reader.position, "]")
    modifies reader, document
    ensures reader.Valid()
    ensures var doc, p := old(document.children), old(reader.position);
      match LastOpener(doc)
      case None =>
        handled && reader.position == p + 1 && document.children == doc + [Text("]")]
      case Some(i) =>
        if doc[i].active then
          !handled && reader.position == p && document.children == doc
        else
          handled && reader.position == p + 1
          && document.children == doc[i := Text(doc[i].marker)] + [Text("]")]
    ensures BracketsBehind(old(document.children), reader.text, old(reader.position))
        ==> BracketsBehind(document.children, reader.text, reader.position)
  {
    var opener := LastOpener(document.children);
    if opener.None? {
      reader.Step(1);
      document.children := document.children + [Text("]")];
      return true;
    } else if !document.children[opener.value].active {
      reader.Step(1);
      var i := opener.value;
      document.children := document.children[i := Text(document.children[i].marker)];
      document.children := document.children + [Text("]")];
      return true;
    } else {
      // an active opener is left for the closers that parse what follows
      return false;
    }
  }

  // ---------------------------------------------------------------------
  // What a closer's parse step yields, and how the attempt concludes
  // ---------------------------------------------------------------------

  /** The end of a closer's parse step: a target and the offset after the
      syntax read; `LabelNotMatched`, a label missing from the reference
      table; or `Failed`, any other failure (a pattern that does not match,
      reported in the source by an assertion or another exception). */
  datatype Attempt = Matched(target: Target, next: nat) | LabelNotMatched | Failed

  /** The children once an attempt on the opener at `i` is over: resolved
      into a link or image, the opener turned into its marker text, or left
      as they were. */
  function AfterAttempt(env: Env, doc: seq<Node>, i: nat, a: Attempt): seq<Node>
    requires i < |doc| && IsOpener(doc[i])
  {
    match a
    case Matched(t, _) => Resolve(env, doc, i, t)
    case LabelNotMatched => doc[i := Text(doc[i].marker)]
    case Failed => doc
  }

  /** A closer attempt on the opener at `i`, started at reader position `p`,
      ended as `a` says: it handled the `]` exactly when `a` matched, the
      reader stands after the syntax read or back at `p` (the rollback of
      `backtrack_onerror`), and the children are `AfterAttempt`'s. */
  ghost predicate Concluded(env: Env, doc: seq<Node>, p: nat, i: nat, a: Attempt,
                            handled: bool, pos: nat, children: seq<Node>)
    requires i < |doc| && IsOpener(doc[i])
  {
    && handled == a.Matched?
    && pos == (if a.Matched? then a.next else p)
    && children == AfterAttempt(env, doc, i, a)
  }

  /** A concluded attempt keeps every bracket behind the reader. */
  lemma ConcludedKeepsBracketsBehind(env: Env, doc: seq<Node>, text: string, p: nat, i: nat, a: Attempt,
                                     handled: bool, pos: nat, children: seq<Node>)
    requires i < |doc| && IsOpener(doc[i])
    requires BracketsBehind(doc, text, p)
    requires a.Matched? ==> p <= a.next
    requires Concluded(env, doc, p, i, a, handled, pos, children)
    ensures BracketsBehind(children, text, pos)
  {
    if a.Matched? {
      assert forall j :: 0 <= j < i ==> children[j].Bracket? ==> doc[j].Bracket? && children[j].position == doc[j].position;
    }
  }

  /** A failed attempt leaves no residue: reader and children are exactly as
      before it. */
  lemma FailedAttemptLeavesNoResidue(env: Env, doc: seq<Node>, p: nat, i: nat,
                                     handled: bool, pos: nat, children: seq<Node>)
    requires i < |doc| && IsOpener(doc[i])
    requires Concluded(env, doc, p, i, Failed, handled, pos, children)
    ensures !handled && pos == p && children == doc
  {
  }

  /** The end shared by the three closers: on a match, `create_node`, append
      and remove the opener; on `LabelNotMatched`, turn the opener into its
      marker text (the `except LabelNotMatched` branch); on any failure,
      restore the reader position taken before the attempt. */
  method Conclude(env: Env, reader: TextReader, document: Document, i: nat, a: Attempt, snapshot: nat)
    returns (handled: bool)
    requires reader.Valid() && snapshot <= |reader.text|
    requires i < |document.children| && IsOpener(document.children[i])
    requires a.Matched? ==> reader.position == a.next
    modifies reader, document
    ensures reader.Valid()
    ensures Concluded(env, old(document.children), snapshot, i, a, handled, reader.position, document.children)
  {
    match a
    case Matched(target, _) =>
      ResolveOpener(env, document, i, target);
      handled := true;
    case LabelNotMatched =>
      // the label is unknown: the opener can no longer start a link or image
      document.children := document.children[i := Text(document.children[i].marker)];
      reader.position := snapshot;
      handled := false;
    case Failed =>
      reader.position := snapshot;
      handled := false;
  }

  // ---------------------------------------------------------------------
  // Inline destination form: `](destination "title")`
  // ---------------------------------------------------------------------

  /** `\s*\)` from offset `k`: the offset just past the `)`, if it matches. */
  function ClosingParen(s: string, k: nat): (r: Option<nat>)
    requires k <= |s|
    ensures r.Some? ==> k < r.value <= |s| && s[r.value - 1] == ')'
    ensures r.Some? ==> forall j :: k <= j < r.value - 1 ==> IsWhitespace(s[j])
    ensures r.None? ==> forall j :: k <= j < |s| && s[j] == ')' ==> exists i :: k <= i < j && !IsWhitespace(s[i])
  {
    var close := SkipWhile(s, k, IsWhitespace);
    if close < |s| && s[close] == ')' then Some(close + 1) else None
  }

  /** `parse_link_destination` from offset `k` (just after `](`): the
      destination, an optional title, then `\s*\)`, which must match. */
  function InlineForm(env: Env, s: string, k: nat): (r: Attempt)
    requires k <= |s|
    ensures !r.LabelNotMatched?
    ensures r.Matched? ==> k < r.next <= |s| && s[r.next - 1] == ')'
  {
    var d := Destination(env, s, k);
    var t := ParseLinkTitle(env, s, d.next);
    match ClosingParen(s, t.next)
    case Some(e) => Matched(Target(d.value, t.value), e)
    case None => Failed
  }

  /** An absent destination (only spaces and newlines left) makes the inline
      form fail, so a link made by it always has a destination. */
  lemma AbsentDestinationFails(env: Env, s: string, k: nat)
    requires k <= |s|
    ensures Destination(env, s, k).value.None? ==> InlineForm(env, s, k) == Failed
    ensures InlineForm(env, s, k).Matched? ==> InlineForm(env, s, k).target.refuri.Some?
  {
    var d := Destination(env, s, k);
    if d.value.None? {
      assert !AngleFormApplies(s, k);
      assert d.next == |s|;
    }
  }

  /** `LinkCloserWithDestinationProcessor.parse_link_destination`. */
  method ParseDestinationAndTitle(env: Env, reader: TextReader) returns (a: Attempt)
    requires reader.Valid()
    modifies reader
    ensures reader.Valid()
    ensures a == InlineForm(env, reader.text, old(reader.position))
    ensures a.Matched? ==> reader.position == a.next
  {
    var destination := ParseLinkDestination(env, reader);
    var title := ParseLinkTitle(env, reader.text, reader.position);
    reader.position := title.next;
    var close := ClosingParen(reader.text, reader.position);
    if close.Some? {
      reader.position := close.value;
      a := Matched(Target(destination, title.value), reader.position);
    } else {
      a := Failed;
    }
  }

  /** `LinkCloserWithDestinationProcessor.run` on `](`. */
  method CloseWithDestination(env: Env, reader: TextReader, document: Document) returns (handled: bool)
    requires reader.Valid() && StartsWithAt(reader.text, reader.position, "](")
    modifies reader, document
    ensures reader.Valid()
    ensures var doc, p := old(document.children), old(reader.position);
      match LastOpener(doc)
      case None => !handled && reader.position == p && document.children == doc
      case Some(i) =>
        Concluded(env, doc, p, i, InlineForm(env, reader.text, p + 2), handled, reader.position, document.children)
    ensures BracketsBehind(old(document.children), reader.text, old(reader.position))
        ==> BracketsBehind(document.children, reader.text, reader.position)
  {
    var opener := LastOpener(document.children);
    if opener.None? {
      return false;
    }
    ghost var doc := document.children;
    var snapshot := reader.position;
    reader.Step(2);
    var attempt := ParseDestinationAndTitle(env, reader);
    handled := Conclude(env, reader, document, opener.value, attempt, snapshot);
    if BracketsBehind(doc, reader.text, snapshot) {
      ConcludedKeepsBracketsBehind(env, doc, reader.text, snapshot, opener.value, attempt,
                                   handled, reader.position, document.children);
    }
  }

  // ---------------------------------------------------------------------
  // Reference form: `][label]` and `][]`
  // ---------------------------------------------------------------------

  /** The name `parse_link_label` looks up: the label itself, or for the
      empty label of a collapsed reference the source text
      `reader[opener.position : reader.position - 2]`. */
  function ReferenceName(s: string, openerPosition: nat, name: string, next: nat): (r: string)
    ensures name != "" ==> r == name
    ensures name == "" && openerPosition + 2 <= next <= |s| + 2 ==> r == s[openerPosition..next - 2]
    ensures name == "" && 2 <= next < openerPosition + 2 ==> r == []
  {
    if name == "" then Slice(s, openerPosition, next - 2) else name
  }

  /** `parse_link_label` from offset `k` (just after `][`), for the opener
      recorded at `openerPosition`. */
  function ReferenceForm(env: Env, s: string, openerPosition: nat, k: nat): (r: Attempt)
    requires k <= |s|
    ensures r.Matched? ==> k < r.next <= |s| && s[r.next - 1] == ']'
    ensures r.Failed? <==> ParseLinkLabel(s, k).value.None?
  {
    var parsed := ParseLinkLabel(s, k);
    if parsed.value.None? then Failed
    else
      match LookupTarget(env, ReferenceName(s, openerPosition, parsed.value.value, parsed.next))
      case None => LabelNotMatched
      case Some(t) => Matched(t, parsed.next)
  }

  /** `LinkCloserWithLabelProcessor.parse_link_label`. */
  method ParseReference(env: Env, reader: TextReader, openerPosition: nat) returns (a: Attempt)
    requires reader.Valid()
    modifies reader
    ensures reader.Valid()
    ensures a == ReferenceForm(env, reader.text, openerPosition, old(reader.position))
    ensures a.Matched? ==> reader.position == a.next
  {
    var parsed := ParseLinkLabel(reader.text, reader.position);
    reader.position := parsed.next;
    if parsed.value.None? {
      // normalize_link_label(None) fails: not a LabelNotMatched
      return Failed;
    }
    var refname := parsed.value.value;
    if refname == "" {
      // an empty label: `[...][]` is looked up by the source text from the
      // opener's position to two before the reader, as CollapsedReferenceName states
      refname := Slice(reader.text, openerPosition, reader.position - 2);
    }
    var target := LookupTarget(env, refname);
    if target.None? {
      a := LabelNotMatched;
    } else {
      a := Matched(target.value, reader.position);
    }
  }

  /** `LinkCloserWithLabelProcessor.run` on `][`. */
  method CloseWithLabel(env: Env, reader: TextReader, document: Document) returns (handled: bool)
    requires reader.Valid() && StartsWithAt(reader.text, reader.position, "][")
    modifies reader, document
    ensures reader.Valid()
    ensures var doc, p := old(document.children), old(reader.position);
      match LastOpener(doc)
      case None => !handled && reader.position == p && document.children == doc
      case Some(i) =>
        Concluded(env, doc, p, i, ReferenceForm(env, reader.text, doc[i].position, p + 2),
                  handled, reader.position, document.children)
    ensures BracketsBehind(old(document.children), reader.text, old(reader.position))
        ==> BracketsBehind(document.children, reader.text, reader.position)
  {
    var opener := LastOpener(document.children);
    if opener.None? {
      return false;
    }
    ghost var doc := document.children;
    var snapshot := reader.position;
    reader.Step(2);
    var attempt := ParseReference(env, reader, document.children[opener.value].position);
    handled := Conclude(env, reader, document, opener.value, attempt, snapshot);
    if BracketsBehind(doc, reader.text, snapshot) {
      ConcludedKeepsBracketsBehind(env, doc, reader.text, snapshot, opener.value, attempt,
                                   handled, reader.position, document.children);
    }
  }

  /** A collapsed reference `[...][]` looks up the source text from the
      opener's position to `reader.position - 2`, which (the reader standing
      past `][]`) is the bracketed text followed by the `]` that closes it. */
  lemma CollapsedReferenceName(text: string, doc: seq<Node>, p: nat)
    requires BracketsBehind(doc, text, p)
    requires StartsWithAt(text, p, "][]")
    requires LastOpener(doc).Some?
    ensures var o := doc[LastOpener(doc).value].position;
      && ParseLinkLabel(text, p + 2) == Scan(Some(""), p + 3)
      && ReferenceName(text, o, "", p + 3) == text[o..p] + "]"
  {
    assert text[p..p + 3] == "][]";
    assert text[p] == ']' && text[p + 2] == ']';
    PlainLabel(text, p + 2, p + 2);
    var o := doc[LastOpener(doc).value].position;
    assert text[o..p + 1] == text[o..p] + [text[p]];
  }

  /** A full reference `[...][label]` looks up its non-empty label. */
  lemma FullReferenceName(env: Env, text: string, o: nat, k: nat)
    requires k <= |text|
    requires ParseLinkLabel(text, k).value.Some? && ParseLinkLabel(text, k).value.value != ""
    ensures var parsed := ParseLinkLabel(text, k);
      ReferenceForm(env, text, o, k)
        == match LookupTarget(env, parsed.value.value)
           case None => LabelNotMatched
           case Some(t) => Matched(t, parsed.next)
  {
  }

  // ---------------------------------------------------------------------
  // Shortcut form: a bare `]`
  // ---------------------------------------------------------------------

  /** `process_link_or_image` with the reader at `k`, just past the `]`: the
      source text `reader[opener.position : reader.position - 1]` is looked
      up; this form fails only by `LabelNotMatched`. */
  function ShortcutForm(env: Env, s: string, openerPosition: nat, k: nat): (r: Attempt)
    ensures !r.Failed?
    ensures r.Matched? ==> r.next == k
  {
    match LookupTarget(env, Slice(s, openerPosition, k - 1))
    case None => LabelNotMatched
    case Some(t) => Matched(t, k)
  }

  /** `LinkCloserProcessor.run` on a bare `]`. */
  method CloseShortcut(env: Env, reader: TextReader, document: Document) returns (handled: bool)
    requires reader.Valid() && StartsWithAt(reader.text, reader.position, "]")
    modifies reader, document
    ensures reader.Valid()
    ensures var doc, p := old(document.children), old(reader.position);
      match LastOpener(doc)
      case None => !handled && reader.position == p && document.children == doc
      case Some(i) =>
        Concluded(env, doc, p, i, ShortcutForm(env, reader.text, doc[i].position, p + 1),
                  handled, reader.position, document.children)
    ensures BracketsBehind(old(document.children), reader.text, old(reader.position))
        ==> BracketsBehind(document.children, reader.text, reader.position)
  {
    var opener := LastOpener(document.children);
    if opener.None? {
      return false;
    }
    ghost var doc := document.children;
    var snapshot := reader.position;
    reader.Step(1);
    var attempt := ShortcutForm(env, reader.text, document.children[opener.value].position, reader.position);
    handled := Conclude(env, reader, document, opener.value, attempt, snapshot);
    if BracketsBehind(doc, reader.text, snapshot) {
      ConcludedKeepsBracketsBehind(env, doc, reader.text, snapshot, opener.value, attempt,
                                   handled, reader.position, document.children);
    }
  }

  /** A shortcut reference looks up exactly the source text between the
      opener's marker and the `]`. */
  lemma ShortcutReferenceName(env: Env, text: string, doc: seq<Node>, p: nat)
    requires BracketsBehind(doc, text, p)
    requires p < |text| && text[p] == ']'
    requires LastOpener(doc).Some?
    ensures var o := doc[LastOpener(doc).value].position;
      && o <= p
      && ShortcutForm(env, text, o, p + 1)
         == match LookupTarget(env, text[o..p])
            case None => LabelNotMatched
            case Some(t) => Matched(t, p + 1)
  {
  }
}
