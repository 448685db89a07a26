# pycmark link processors in Dafny

This project models the link and image processors of pycmark's inline parser
(CommonMark, sections 6.5 "Links" and 6.6 "Images"), along with the
sub-parsers for link destinations, titles and labels that they call.

The parser writes its output into a document element, and the children of
that element double as the bracket stack:

- On `[` or `![`, the opener appends an active bracket node that records the
  reader position just after its marker.
- On `]`, four closers are tried. The order below is assumed: the
  dispatcher that orders them is not part of this model, and only the
  priorities 100 (fast path) and 400 (inline and reference forms) are
  visible, with none given for the shortcut form:
  - the unmatched-bracket fast path;
  - the inline form `](destination "title")`;
  - the reference forms `][label]` and `][]`;
  - the shortcut form, a bare `]`.
- A closer that succeeds moves every node after the innermost opener into a
  new link or image node, then removes the opener. A link also deactivates
  every link opener before it, so links cannot nest.
- A closer that fails is rolled back by `backtrack_onerror`. The one exception
  is a label missing from the reference table: that opener is first turned
  back into plain text.

How the model is organised:

- `Chars`: character classes (Python's `\s`, escape sequences) and Python's
  clamping slice `s[i:j]`.
- `Nodes`:
  - the node datatype;
  - the reader, a class whose position the methods update;
  - the document, a class whose child sequence the methods reassign;
  - `Env`: the collaborators the core calls but does not define, such as
    the reference table and the normalisers.
- `LinkDestination`, `LinkTitle`, `LinkLabel`: the sub-parsers.
  - Each regular expression is written as an explicit matcher. Where the
    pattern can backtrack (the title and label patterns), the matcher tries
    the alternatives in the same order Python's matcher does.
  - The loop of `parseBareLinkDestination` is a `while` loop, proved against
    the recursive scan `BareScan`.
- `Brackets`:
  - finding the innermost opener;
  - `create_node`, with its deactivation loop;
  - the success path shared by the closers, specified as the function
    `Resolve` on the children.
- `LinkProcessors`:
  - the five processors, each a method on the reader and the document;
  - each closer's parse step, specified as a function returning an
    `Attempt`: a target, `LabelNotMatched`, or `Failed`;
  - the predicate `Concluded`, which states the children and reader
    position that every closer leaves behind;
  - the ghost invariant `BracketsBehind`, which every processor preserves.
    It says each recorded bracket position lies behind the reader and
    follows a `[`.

About the collapsed-reference name: for `[foo][]`, the reader stands past
`][]` when it computes `reader[opener.position : reader.position - 2]`. With
Python's slice rules, what that yields is the bracketed text followed by the
`]` that closes it (`foo]`). The model keeps the computation exactly as
written, and `LinkProcessors.CollapsedReferenceName` states the result. It
departs from the CommonMark rule that `[foo][]` resolves like `[foo]`; it rests
on the reading of `reader[i:j]` stated under "## Left out".

## Model

| member | source | states |
|---|---|---|
| Chars.SkipWhile | pycmark/inlineparser/link_processors.py:223 | the greedy run `[ \n]*` (or `\s*`): every character it passes is in the class, and it stops at the end or at the first character outside the class |
| Chars.Slice | pycmark/inlineparser/link_processors.py:164 | Python's `reader[i:j]`: the plain substring for in-range bounds, empty when the end bound does not pass the start, never longer than the text |
| Nodes.LookupTarget | pycmark/inlineparser/link_processors.py:76-84 | a target is found exactly when the normalised label is registered, and it is the target registered under the normalised label; otherwise the lookup reports `LabelNotMatched` |
| Nodes.LookupRespectsNormalization | pycmark/inlineparser/link_processors.py:79-80 | two labels with the same normalised form resolve to the same target |
| Brackets.OpenerIndices | pycmark/inlineparser/link_processors.py:42-45 | the generator yields exactly the children that are brackets with `can_open`, in strictly increasing document order |
| Brackets.LastOpener | pycmark/inlineparser/link_processors.py:47-52 | None exactly when no child can open; otherwise an opener with no opener after it |
| Brackets.TitleAttribute | pycmark/inlineparser/link_processors.py:61-67 | `if title:` sets the attribute exactly when the title is present and non-empty, and then to the title itself |
| Brackets.DeactivateLinkOpeners | pycmark/inlineparser/link_processors.py:69-72 | after the loop every `[` opener in the document is inactive and every other child is unchanged |
| Brackets.CreateNode | pycmark/inlineparser/link_processors.py:54-74 | returns an image holding the moved nodes' alt text, or a link holding the moved nodes; leaves the document cut just after the opener, with link openers deactivated only for a link |
| Brackets.NewNode | pycmark/inlineparser/link_processors.py:55-67 | never an opener; an image exactly for `![`, carrying the destination, the non-empty title and the moved nodes' alt text; a link exactly for `[`, carrying the destination, the non-empty title and the moved nodes themselves |
| Brackets.Resolve | pycmark/inlineparser/link_processors.py:123-124 | the children end at the opener's index with the new node; each earlier child is deactivated for a link and unchanged for an image |
| Brackets.ResolveOpener | pycmark/inlineparser/link_processors.py:123-124 | `document += create_node(...)` followed by `document.remove(opener)` leaves exactly `Resolve` of the old children |
| Brackets.ResolveReplacesSpan | pycmark/inlineparser/link_processors.py:54-68 | the opener and every node after it collapse into one non-opener node at the opener's index; a link holds exactly the moved nodes, an image their alt text, and both carry the target's destination and non-empty title |
| Brackets.LinkDeactivatesEarlierOpeners | pycmark/inlineparser/link_processors.py:69-72 | after a link, each earlier `[` opener becomes inactive, stays an opener and keeps everything else; image openers and other nodes are untouched |
| Brackets.ImageDeactivatesNothing | pycmark/inlineparser/link_processors.py:56-62 | an image leaves every child before its opener unchanged |
| Brackets.LastOpenerAfterResolve | pycmark/inlineparser/link_processors.py:123-124 | after a resolution, the innermost opener is the innermost one before the resolved opener |
| Brackets.NoLinkInLink | pycmark/inlineparser/link_processors.py:69-72 | after a link, the innermost remaining opener, if it is a `[`, is inactive; so the fast path turns it into text instead of nesting a link |
| LinkDestination.AngleBodyEnd | pycmark/inlineparser/link_processors.py:204 | the run `(?:[^<>\n\\]\|ESC)*` is a run (`AngleRun`) of class characters and whole escape sequences; it ends at the end of the text or at a character that can start neither alternative |
| LinkDestination.AngleMatch | pycmark/inlineparser/link_processors.py:204-212 | a match exists only when `^\s*<` applies; it ends just past a `>` at least two characters after the `<`, and the text between the `<` and that `>` is a run of class characters and whole escape sequences |
| LinkDestination.AngleRunIsBody | pycmark/inlineparser/link_processors.py:204 | the run is unique: any run of class characters and escapes that stops where neither alternative can start is the one the matcher finds |
| LinkDestination.AngleDestination | pycmark/inlineparser/link_processors.py:204-212 | for `\s*<u>` with `u` a run of class characters and escapes, the match ends at that `>` and the destination is `u` normalised |
| LinkDestination.EscapedBackslashBeforeCloser | pycmark/inlineparser/link_processors.py:204-212 | in `<\\>b>` the escape covers the second backslash, so the match ends at the first `>` (offset 4) |
| LinkDestination.PlainAngleBody | pycmark/inlineparser/link_processors.py:204 | a run of class characters is the whole body up to the first character that is neither in the class nor a backslash |
| LinkDestination.PlainAngleDestination | pycmark/inlineparser/link_processors.py:207-212 | for `\s*<u>` with no `<`, `>`, newline or backslash in `u`, the destination is `u` normalised, with the reader just past the `>` |
| LinkDestination.UnclosedAngle | pycmark/inlineparser/link_processors.py:207-210 | a `<` with no `>` after it yields the empty destination and reads nothing |
| LinkDestination.BareScan | pycmark/inlineparser/link_processors.py:228-243 | the scan stops at the end of the text, at a space or newline, or at a `)` met at depth zero; the depth never goes negative |
| LinkDestination.BareDestination | pycmark/inlineparser/link_processors.py:222-246 | the bare form never moves the reader backwards and never past the end of the text |
| LinkDestination.NormalizeDestination | pycmark/inlineparser/link_processors.py:216-220 | entity decoding, then backslash unescaping, then URI normalisation, in that order |
| LinkDestination.Destination | pycmark/inlineparser/link_processors.py:206-214 | never moves the reader backwards or past the end; None only in the bare form, with the reader at the end; an angle form with no match yields `''` and reads nothing |
| LinkDestination.AbsentDestination | pycmark/inlineparser/link_processors.py:225-226 | the destination is None exactly when only spaces and newlines remain |
| LinkDestination.BalancedRunStaysInside | pycmark/inlineparser/link_processors.py:234-239 | a run with no space, newline or escape sequence (lone backslashes allowed) whose depth never drops below zero does not end the scan; the scan continues from the run's end at the depth the run leaves |
| LinkDestination.BalancedDestination | pycmark/inlineparser/link_processors.py:234-239 | balanced parentheses stay inside the destination, and the `)` that would unbalance them ends it |
| LinkDestination.DestinationEndsAtSpace | pycmark/inlineparser/link_processors.py:232-233 | a space or newline after a balanced run ends the destination exactly there |
| LinkDestination.LoneBackslashKept | pycmark/inlineparser/link_processors.py:232-243 | a backslash before a letter is an ordinary destination character: `a\b c` yields `a\b` |
| LinkDestination.EscapeSteppedOver | pycmark/inlineparser/link_processors.py:240-241 | an escape sequence is stepped over whole: an escaped parenthesis neither ends the destination nor changes the depth |
| LinkDestination.ParseBareLinkDestination | pycmark/inlineparser/link_processors.py:222-246 | the loop over the reader yields the destination and the reader position that `BareDestination` specifies |
| LinkDestination.ParseLinkDestination | pycmark/inlineparser/link_processors.py:206-214 | the parser on the reader yields the destination and the reader position that `Destination` specifies, in both the angle and the bare form |
| LinkTitle.CloserOf | pycmark/inlineparser/link_processors.py:250-252 | exactly `"`, `'` and `(` open a title; `"` and `'` close themselves and `(` is closed by `)` |
| LinkTitle.QuotedEnd | pycmark/inlineparser/link_processors.py:250-252 | a match ends just past an occurrence of the closing delimiter |
| LinkTitle.ParseLinkTitle | pycmark/inlineparser/link_processors.py:254-259 | None reads nothing; a title is delimited by an opener and its matching closer after the leading `\s*`, and is the text between them, entity-decoded and then unescaped |
| LinkTitle.QuotedRunEnd | pycmark/inlineparser/link_processors.py:250-252 | a body of whole escapes and other non-closer characters, followed by the closer, is matched up to that closer: escaped delimiters stay inside |
| LinkTitle.TitleEscapeSteppedOver | pycmark/inlineparser/link_processors.py:250-252 | an escape sequence is taken whole whenever the title closes after it |
| LinkTitle.EscapedTitle | pycmark/inlineparser/link_processors.py:254-257 | a title whose body is whole escapes and non-closer characters is its whole body, delimiters stripped, entity-decoded then unescaped |
| LinkTitle.EscapedQuoteInside | pycmark/inlineparser/link_processors.py:254-257 | `"a\"b"` is the title `a\"b` before unescaping, with the reader at offset 6 |
| LinkTitle.QuotedBodyEscapes | pycmark/inlineparser/link_processors.py:250-252 | inside a matched title, the closing delimiter occurs only when escaped by a backslash |
| LinkTitle.QuotedPlain | pycmark/inlineparser/link_processors.py:250-252 | without backslashes, the title ends at the first closing delimiter |
| LinkTitle.QuotedNeedsCloser | pycmark/inlineparser/link_processors.py:250-252 | with no closing delimiter ahead there is no match |
| LinkTitle.PlainTitle | pycmark/inlineparser/link_processors.py:254-257 | a title with no inner backslash or closer is read up to its closer and returned without its delimiters |
| LinkTitle.UnterminatedTitle | pycmark/inlineparser/link_processors.py:255-259 | an opened title that is never closed is None, and the reader stays put |
| LinkLabel.LabelEnd | pycmark/inlineparser/link_processors.py:263 | a match ends just past a `]`, with at most 2·(1000 − n) characters before it when `n` items are already taken |
| LinkLabel.ParseLinkLabel | pycmark/inlineparser/link_processors.py:265-270 | None reads nothing; otherwise the label is the matched text up to its closing `]`, at most 2000 characters long, with the reader past the `]` |
| LinkLabel.LabelRunEnd | pycmark/inlineparser/link_processors.py:263 | a run of class characters, whole escapes and lone backslashes, closed by `]` and within the 1000-item bound, is matched up to that `]`: escaped brackets stay inside |
| LinkLabel.LabelEscapeSteppedOver | pycmark/inlineparser/link_processors.py:263 | below the bound, an escape sequence is taken whole whenever the label closes after it |
| LinkLabel.EscapedLabel | pycmark/inlineparser/link_processors.py:265-270 | the parser returns such a run of at most 1000 items as the label, with the reader past its `]` |
| LinkLabel.EscapedBracketInside | pycmark/inlineparser/link_processors.py:265-270 | `foo\]bar]` is the label `foo\]bar`, with the reader at offset 9 |
| LinkLabel.LabelEndIsItems | pycmark/inlineparser/link_processors.py:263 | every match keeps the `{0,1000}` bound: the text before its `]` splits into at most `1000 - n` items (class characters, whole escapes, single backslashes) |
| LinkLabel.LabelHasItems | pycmark/inlineparser/link_processors.py:265-270 | a label the parser returns is the matched text before its `]` and splits into at most 1000 items |
| LinkLabel.LabelBracketsEscaped | pycmark/inlineparser/link_processors.py:263 | inside a matched label every `[` and `]` is escaped by a backslash |
| LinkLabel.PlainLabelEnd | pycmark/inlineparser/link_processors.py:263 | a plain run closed by `]` matches exactly when it keeps within the 1000-item bound |
| LinkLabel.PlainLabel | pycmark/inlineparser/link_processors.py:265-270 | the parser returns a plain run of at most 1000 characters closed by `]`, and rejects a longer one without reading anything |
| LinkLabel.LabelNeedsCloser | pycmark/inlineparser/link_processors.py:263 | with no `]` ahead there is no label |
| LinkProcessors.MarkerAt | pycmark/inlineparser/link_processors.py:33-36 | the marker `\!?\[` matched at the position: present in the text and ending in `[` |
| LinkProcessors.OpenBracket | pycmark/inlineparser/link_processors.py:35-38 | consumes the marker and appends exactly one active opener recording the position after the marker; keeps `BracketsBehind` |
| LinkProcessors.CloseUnmatched | pycmark/inlineparser/link_processors.py:91-104 | with no opener, the `]` becomes text; with an inactive innermost opener, the opener and the `]` become text; with an active one, it declines and changes nothing; keeps `BracketsBehind` |
| LinkProcessors.ConcludedKeepsBracketsBehind | pycmark/inlineparser/link_processors.py:114-125 | every way a closer attempt can end keeps each remaining bracket behind the reader |
| LinkProcessors.FailedAttemptLeavesNoResidue | pycmark/inlineparser/link_processors.py:114 | a failed attempt rolls back completely: not handled, reader back where it was, children unchanged |
| LinkProcessors.Conclude | pycmark/inlineparser/link_processors.py:148-157 | a match resolves the opener; `LabelNotMatched` turns the opener into its marker text and rolls the reader back; any other failure rolls the reader back only |
| LinkProcessors.ClosingParen | pycmark/inlineparser/link_processors.py:130 | `\s*\)` either ends just past a `)` preceded only by whitespace, or fails, and then every `)` ahead has a non-whitespace character before it |
| LinkProcessors.InlineForm | pycmark/inlineparser/link_processors.py:127-132 | never `LabelNotMatched`; a match ends just past a `)` |
| LinkProcessors.AbsentDestinationFails | pycmark/inlineparser/link_processors.py:127-132 | an absent destination makes the inline form fail, so every inline link has a destination |
| LinkProcessors.ParseDestinationAndTitle | pycmark/inlineparser/link_processors.py:127-132 | the method on the reader yields `InlineForm`'s outcome, with the reader past the `)` on a match |
| LinkProcessors.CloseWithDestination | pycmark/inlineparser/link_processors.py:114-125 | with no opener, declines and changes nothing; otherwise ends as `Concluded` says for the inline form after `](`; keeps `BracketsBehind` |
| LinkProcessors.ReferenceName | pycmark/inlineparser/link_processors.py:161-164 | a non-empty label is the name; for the empty label, the name is the text from the opener's position to two before the reader's position, empty when those bounds cross |
| LinkProcessors.ReferenceForm | pycmark/inlineparser/link_processors.py:159-167 | fails plainly exactly when no label matches; a match ends just past the label's `]` |
| LinkProcessors.ParseReference | pycmark/inlineparser/link_processors.py:159-167 | the method on the reader yields `ReferenceForm`'s outcome, with the reader past the label on a match |
| LinkProcessors.CloseWithLabel | pycmark/inlineparser/link_processors.py:142-157 | with no opener, declines and changes nothing; otherwise ends as `Concluded` says for the reference form after `][`; keeps `BracketsBehind` |
| LinkProcessors.CollapsedReferenceName | pycmark/inlineparser/link_processors.py:161-164 | for `][]`, the label is empty and the name looked up is the text from the opener's position to the first `]`, followed by that `]` |
| LinkProcessors.FullReferenceName | pycmark/inlineparser/link_processors.py:159-167 | a non-empty label is looked up as it is |
| LinkProcessors.ShortcutForm | pycmark/inlineparser/link_processors.py:192-200 | never a plain failure, only a match or `LabelNotMatched`; a match leaves the reader just past the `]` |
| LinkProcessors.CloseShortcut | pycmark/inlineparser/link_processors.py:175-190 | with no opener, declines and changes nothing; otherwise ends as `Concluded` says for the shortcut form; keeps `BracketsBehind` |
| LinkProcessors.ShortcutReferenceName | pycmark/inlineparser/link_processors.py:194 | a shortcut reference looks up exactly the text between the opener's marker and the `]` |

## Left out

- docutils nodes are reduced to the datatype `Node`. A node that another processor produced is `Other`; node attributes other than those the core sets are not modelled.
- `EmphasisConverter(para).apply()` and `para.astext()` are not part of this model. Together they are the uninterpreted `Env.altText` applied to the moved nodes.
- `entitytrans._unescape`, `unescape`, `normalize_uri` and `normalize_link_label` are not part of this model; they are uninterpreted functions in `Env`.
- `ESCAPED_CHARS` and `escaped_chars_pattern` are not part of this model. They are taken to be a backslash followed by an ASCII punctuation character, as CommonMark, section 2.4 defines an escape.
- `get_root_document`, `nameids` and `ids` are reduced to one map from normalised label to target. A name registered in `nameids` whose id is missing from `ids` is not modelled.
- `reader[i:j]` is taken to slice the whole inline text with the same absolute offsets that `reader.position` and the bracket's `position` count, under Python's slice rules (`Chars.Slice`). The reader class is not part of this model; a reader whose indexing used other offsets would look up other names in `ReferenceName` and `ShortcutForm`.
- `TextReader` and `transplant_nodes` are not part of this model. The reader is a text with a position, and `consume` of a pattern is written out per pattern. `transplant_nodes` moves every child after the opener.
- `backtrack_onerror` is not part of this model. It is taken to catch every exception and restore the reader position, leaving the document as the attempt left it. So the opener's replacement by its marker text persists.
- The inline processor dispatch (pattern matching at the reader position, and the `priority` ordering of the closers) is not modelled. Each closer states its outcome given the text at the position; the fast path's decline is stated.
- `assert` statements are taken to be enabled. A failed assert is a `Failed` attempt.
- `LinkCloserProcessor` calls `replace_self` on the opener in both `process_link_or_image` and `run`. The model replaces the opener once, the effect the source intends. The exception the second call may raise is caught by `backtrack_onerror` anyway.
- `normalize_link_label(None)`, reached when no label matches, is taken to raise an error other than `LabelNotMatched`. The attempt fails plainly and the opener is not replaced.
- Characters are Dafny `char`s. Python's `\s` is modelled as the set `str.isspace` accepts; Unicode normalisation and case folding are left to `normalizeLabel`.
