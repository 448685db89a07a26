/** The state the link processors share: the inline nodes of the output
    stream, the reference table and the other collaborators they call, the
    reader over the inline text and the document whose children are the
    output stream. */
module Nodes {

  datatype Option<+T> = None | Some(value: T)

  /** The text of a bracket marker: `[` opens a link, `![` an image. */
  type Marker = m: string | m == "[" || m == "![" witness "["

  /** One child of the document. `Bracket` is the unresolved opener that the
      output stream holds in place of a bracket stack; `Other` stands for any
      node another processor produced (emphasis, code spans, ...). */
  datatype Node =
    | Text(text: string)
    | Bracket(marker: Marker, canOpen: bool, active: bool, position: nat)
    | Link(refuri: Option<string>, reftitle: Option<string>, children: seq<Node>)
    | Image(uri: Option<string>, title: Option<string>, alt: string)
    | Other(tagname: string, children: seq<Node>)

  /** A bracket that may still close a link or an image. */
  predicate IsOpener(n: Node) {
    n.Bracket? && n.canOpen
  }

  /** What a sub-parser produced and where the reader stands after it. */
  datatype Scan<+T> = Scan(value: T, next: nat)

  /** A reference target: the `refuri` and `title` attributes of a registered
      link definition (either may be missing). */
  datatype Target = Target(refuri: Option<string>, title: Option<string>)

  /** The collaborators the core calls but does not define. Each is left
      uninterpreted: the reference table (label to target, populated by the
      link-definition pass), label normalisation, entity decoding, backslash
      unescaping, URI normalisation and the alt text an image gets from the
      nodes moved into it. */
  datatype Env = Env(
    references: map<string, Target>,
    normalizeLabel: string -> string,
    decodeEntities: string -> string,
    unescape: string -> string,
    normalizeUri: string -> string,
    altText: seq<Node> -> string)

  /** `lookup_target`: the target registered under the normalised label, or
      None where the source raises `LabelNotMatched`. */
  function LookupTarget(env: Env, refname: string): (r: Option<Target>)
    ensures r.Some? <==> env.normalizeLabel(refname) in env.references
    ensures r.Some? ==> r.value == env.references[env.normalizeLabel(refname)]
  {
    var key := env.normalizeLabel(refname);
    if key in env.references then Some(env.references[key]) else None
  }

  /** Labels with the same normalised form resolve to the same target. */
  lemma LookupRespectsNormalization(env: Env, a: string, b: string)
    requires env.normalizeLabel(a) == env.normalizeLabel(b)
    ensures LookupTarget(env, a) == LookupTarget(env, b)
  {
  }

  /** The reader over the inline text: the text and the offset of the next
      character to read. */
  class TextReader {
    const text: string
    var position: nat

    ghost predicate Valid()
      reads this
    {
      position <= |text|
    }

    constructor (text: string)
      ensures Valid() && this.text == text && position == 0
    {
      this.text := text;
      position := 0;
    }

    /** `reader.step(n)`: skip `n` characters. */
    method Step(n: nat)
      requires Valid() && position + n <= |text|
      modifies this
      ensures Valid() && position == old(position) + n
    {
      position := position + n;
    }
  }

  /** The element being filled by the inline parser; its children are the
      output stream. */
  class Document {
    var children: seq<Node>

    constructor ()
      ensures children == []
    {
      children := [];
    }
  }
}
