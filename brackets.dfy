/** The output stream used as the bracket stack (`LinkCloserProcessorBase`):
    finding the innermost opener, and building the link or image that
    replaces it and everything after it. */
module Brackets {
  import opened Nodes

  /** `get_opening_brackets`: the offsets of the document's children that
      are brackets able to open, in document order. */
  function OpenerIndices(doc: seq<Node>): (r: seq<nat>)
    ensures forall j :: j in r <==> 0 <= j < |doc| && IsOpener(doc[j])
    ensures forall a, b :: 0 <= a < b < |r| ==> r[a] < r[b]
  {
    if doc == [] then []
    else
      var init := doc[..|doc| - 1];
      var rest := OpenerIndices(init);
      assert forall a :: 0 <= a < |rest| ==> rest[a] < |init| by {
        forall a | 0 <= a < |rest| ensures rest[a] < |init| {
          assert rest[a] in rest;
        }
      }
      rest + (if IsOpener(doc[|doc| - 1]) then [|doc| - 1] else [])
  }

  /** `get_last_opening_brackets`: the innermost opener, the last child in
      document order that is a bracket able to open; None exactly when there
      is none. */
  function LastOpener(doc: seq<Node>): (r: Option<nat>)
    ensures r.None? <==> forall j :: 0 <= j < |doc| ==> !IsOpener(doc[j])
    ensures r.Some? ==> r.value < |doc| && IsOpener(doc[r.value])
    ensures r.Some? ==> forall j :: r.value < j < |doc| ==> !IsOpener(doc[j])
  {
    var openers := OpenerIndices(doc);
    if |openers| > 0 then
      var last := openers[|openers| - 1];
      assert last in openers;
      Some(last)
    else None
  }

  /** A bracket that opens a link, as opposed to an image. */
  predicate IsLinkOpener(n: Node) {
    IsOpener(n) && n.marker == "["
  }

  /** A node after `n['active'] = False` has been applied to it if it is a
      link opener. */
  function Deactivate(n: Node): Node {
    if IsLinkOpener(n) then n.(active := false) else n
  }

  /** The children after the deactivation loop of `create_node`. */
  function Deactivated(doc: seq<Node>): seq<Node> {
    seq(|doc|, j requires 0 <= j < |doc| => Deactivate(doc[j]))
  }

  /** The deactivation loop of `create_node`, over the document's children. */
  method DeactivateLinkOpeners(document: Document)
    modifies document
    ensures document.children == Deactivated(old(document.children))
  {
    ghost var before := document.children;
    for j := 0 to |document.children|
      invariant |document.children| == |before|
      invariant forall i :: 0 <= i < j ==> document.children[i] == Deactivate(before[i])
      invariant forall i :: j <= i < |before| ==> document.children[i] == before[i]
    {
      var n := document.children[j];
      if IsLinkOpener(n) {
        document.children := document.children[j := n.(active := false)];
      }
    }
  }

  /** `if title:` — an empty title sets no attribute. */
  function TitleAttribute(title: Option<string>): (r: Option<string>)
    ensures r.Some? <==> title.Some? && title.value != ""
    ensures r.Some? ==> r == title
  {
    if title.Some? && title.value != "" then title else None
  }

  /** The node `create_node` returns for an opener with `marker`, given the
      nodes moved out of the document after the opener: an image carries
      their alt text, a link carries the nodes themselves. */
  function NewNode(env: Env, marker: Marker, target: Target, moved: seq<Node>): (r: Node)
    ensures !IsOpener(r)
    ensures r.Image? <==> marker == "!["
    ensures r.Link? <==> marker == "["
    ensures r.Image? ==> r.uri == target.refuri && r.title == TitleAttribute(target.title) && r.alt == env.altText(moved)
    ensures r.Link? ==> r.refuri == target.refuri && r.reftitle == TitleAttribute(target.title) && r.children == moved
  {
    if marker == "![" then Image(target.refuri, TitleAttribute(target.title), env.altText(moved))
    else Link(target.refuri, TitleAttribute(target.title), moved)
  }

  /** The children once a closer has succeeded on the opener at `i`:
      `create_node` ran, its node was appended, and the opener was removed. */
  function Resolve(env: Env, doc: seq<Node>, i: nat, target: Target): (r: seq<Node>)
    requires i < |doc| && IsOpener(doc[i])
    ensures |r| == i + 1 && r[i] == NewNode(env, doc[i].marker, target, doc[i + 1..])
    ensures forall j :: 0 <= j < i ==> r[j] == if doc[i].marker == "[" then Deactivate(doc[j]) else doc[j]
  {
    var kept := if doc[i].marker == "[" then Deactivated(doc[..i]) else doc[..i];
    kept + [NewNode(env, doc[i].marker, target, doc[i + 1..])]
  }

  /** `create_node`: moves every child after the opener into the new node
      (`transplant_nodes`) and, for a link, deactivates the link openers left
      in the document, the opener itself included. */
  method CreateNode(env: Env, document: Document, i: nat, target: Target) returns (node: Node)
    requires i < |document.children| && IsOpener(document.children[i])
    modifies document
    ensures var doc := old(document.children);
      && node == NewNode(env, doc[i].marker, target, doc[i + 1..])
      && document.children == if doc[i].marker == "[" then Deactivated(doc[..i + 1]) else doc[..i + 1]
  {
    var opener := document.children[i];
    var moved := document.children[i + 1..];
    document.children := document.children[..i + 1];
    node := NewNode(env, opener.marker, target, moved);
    if opener.marker == "[" {
      // a link may not contain another link: retire the earlier link openers
      DeactivateLinkOpeners(document);
    }
  }

  /** The common success path of the closers: `document += create_node(...)`
      followed by `document.remove(opener)`. */
  method ResolveOpener(env: Env, document: Document, i: nat, target: Target)
    requires i < |document.children| && IsOpener(document.children[i])
    modifies document
    ensures document.children == Resolve(env, old(document.children), i, target)
  {
    ghost var doc := document.children;
    var node := CreateNode(env, document, i, target);
    document.children := document.children + [node];
    document.children := document.children[..i] + document.children[i + 1..];
    assert document.children[..i] == (if doc[i].marker == "[" then Deactivated(doc[..i]) else doc[..i]);
  }

  // ---------------------------------------------------------------------
  // Properties of a resolution
  // ---------------------------------------------------------------------

  /** The opener and everything after it collapse into one node at the
      opener's place: a link holds exactly the moved nodes, an image their
      alt text, and both carry the target's destination. */
  lemma ResolveReplacesSpan(env: Env, doc: seq<Node>, i: nat, target: Target)
    requires i < |doc| && IsOpener(doc[i])
    ensures var r := Resolve(env, doc, i, target);
      && |r| == i + 1
      && !IsOpener(r[i])
      && (doc[i].marker == "[" ==> r[i] == Link(target.refuri, TitleAttribute(target.title), doc[i + 1..]))
      && (doc[i].marker == "![" ==> r[i] == Image(target.refuri, TitleAttribute(target.title), env.altText(doc[i + 1..])))
  {
  }

  /** A link deactivates every link opener before it and changes nothing
      else: the same children stay openers at the same positions, image
      openers and all other nodes are untouched. */
  lemma LinkDeactivatesEarlierOpeners(env: Env, doc: seq<Node>, i: nat, target: Target)
    requires i < |doc| && IsOpener(doc[i]) && doc[i].marker == "["
    ensures var r := Resolve(env, doc, i, target);
      forall j :: 0 <= j < i ==>
        && (IsOpener(r[j]) <==> IsOpener(doc[j]))
        && (IsLinkOpener(doc[j]) ==> r[j] == doc[j].(active := false))
        && (!IsLinkOpener(doc[j]) ==> r[j] == doc[j])
  {
  }

  /** An image deactivates nothing: the children before it are unchanged. */
  lemma ImageDeactivatesNothing(env: Env, doc: seq<Node>, i: nat, target: Target)
    requires i < |doc| && IsOpener(doc[i]) && doc[i].marker == "!["
    ensures Resolve(env, doc, i, target)[..i] == doc[..i]
  {
  }

  /** After a resolution, the innermost opener is the one that preceded the
      resolved opener. */
  lemma {:induction false} LastOpenerAfterResolve(env: Env, doc: seq<Node>, i: nat, target: Target)
    requires i < |doc| && IsOpener(doc[i])
    ensures LastOpener(Resolve(env, doc, i, target)) == LastOpener(doc[..i])
  {
    var r := Resolve(env, doc, i, target);
    assert forall j :: 0 <= j < i ==> (IsOpener(r[j]) <==> IsOpener(doc[..i][j]));
  }

  /** No link inside a link: once a link is resolved, the innermost opener
      left (if any) is an image opener or an inactive link opener, so the
      next `]` cannot close a link around the one just made. */
  lemma NoLinkInLink(env: Env, doc: seq<Node>, i: nat, target: Target)
    requires i < |doc| && IsOpener(doc[i]) && doc[i].marker == "["
    ensures var r := Resolve(env, doc, i, target);
      LastOpener(r).Some? && r[LastOpener(r).value].marker == "[" ==> !r[LastOpener(r).value].active
  {
  }
}
