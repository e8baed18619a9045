/**
 * The document model produced by the parser: positions and spans, the layout
 * direction, optional metadata, nodes and typed edges, and the document that
 * holds them (crates/graphrite-core/src/ast.rs).
 */
module Ast {
  import opened Wrappers

  /** A 1-based (line, column) location in the source text. */
  datatype Position = Position(line: nat, col: nat)

  datatype Span = Span(start: Position, end: Position)

  /** The layout axis: left to right or top down. */
  datatype Direction = LR | TD

  datatype Directives = Directives(direction: Direction)

  /** Optional title and an ordered string-to-string tag map (a BTreeMap, determined by its entries). */
  datatype Metadata = Metadata(title: Option<string>, tags: Option<map<string, string>>)

  /** The source field `label` is named `caption` here, since `label` is a Dafny keyword. */
  datatype Node = Node(id: string, caption: string, span: Option<Span>)

  datatype EdgeKind = Flow | Conditional

  /** `from` and `to` are plain node ids, not references to Node values. */
  datatype Edge = Edge(from: string, to: string, kind: EdgeKind, span: Option<Span>)

  datatype Document = Document(
    version: string,
    directives: Directives,
    metadata: Option<Metadata>,
    nodes: seq<Node>,
    edges: seq<Edge>)

  /** The serialised name of a direction (variant names in upper case). */
  function DirectionName(d: Direction): (s: string)
    ensures s == "LR" || s == "TD"
  {
    match d
    case LR => "LR"
    case TD => "TD"
  }

  /** Reads a serialised direction back; only the two names are accepted. */
  function DirectionFromName(s: string): (r: Option<Direction>)
    ensures r.Some? <==> s == "LR" || s == "TD"
    ensures r.Some? ==> DirectionName(r.value) == s
  {
    if s == "LR" then Some(LR)
    else if s == "TD" then Some(TD)
    else None
  }

  lemma DirectionNameRoundTrip(d: Direction)
    ensures DirectionFromName(DirectionName(d)) == Some(d)
  {
  }

  /** The serialised name of an edge kind (variant names in lower case). */
  function EdgeKindName(k: EdgeKind): (s: string)
    ensures s == "flow" || s == "conditional"
  {
    match k
    case Flow => "flow"
    case Conditional => "conditional"
  }

  function EdgeKindFromName(s: string): (r: Option<EdgeKind>)
    ensures r.Some? <==> s == "flow" || s == "conditional"
    ensures r.Some? ==> EdgeKindName(r.value) == s
  {
    if s == "flow" then Some(Flow)
    else if s == "conditional" then Some(Conditional)
    else None
  }

  lemma EdgeKindNameRoundTrip(k: EdgeKind)
    ensures EdgeKindFromName(EdgeKindName(k)) == Some(k)
  {
  }
}
