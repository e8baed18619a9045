/**
 * The cursor-driven parser (crates/graphrite-core/src/parser.rs).
 *
 * The reference functions LeadingComments, DirectionStep, BodyStep, BodyFrom
 * and ParseTokens say, index by index, what `Parser::document` computes from
 * a token list whose only Eof token is its last one. The class Parser is the
 * source's cursor: its methods move `idx` with Bump and are proved to follow
 * the reference functions. The lemmas at the end state what a parse promises.
 */
module Parser {
  import opened Wrappers
  import opened Text
  import opened Ast
  import opened Errors
  import opened Lexer

  const MissingDirection := Diagnostic("E0001", "Missing direction on first line", None)
  const InvalidDirection := Diagnostic("E0001", "Invalid direction", None)
  const UnquotedLabel := Diagnostic("E0003", "Node label must be quoted", None)
  const MissingRBracket := Diagnostic("E0010", "Expected ] after label", None)

  /** The diagnostics a statement of the body can produce. */
  predicate IsBodyDiagnostic(d: Diagnostic) {
    d == UnquotedLabel || d == MissingRBracket
  }

  // ---------------------------------------------------------------------------
  // Cursor moves on a token list
  // ---------------------------------------------------------------------------

  /** `bump`: one step forward, except on the last token, where the cursor stays. */
  function BumpIndex(toks: seq<Token>, i: nat): (j: nat)
    requires Terminated(toks) && i < |toks|
    ensures j < |toks|
    ensures toks[i].kind != Eof ==> j == i + 1
    ensures toks[i].kind == Eof ==> j == i
  {
    if i < |toks| - 1 then i + 1 else i
  }

  /** `expect_newline`: steps over a Newline token and over nothing else. */
  function SkipNewline(toks: seq<Token>, i: nat): (j: nat)
    requires Terminated(toks) && i < |toks|
    ensures i <= j < |toks|
    ensures j == i + 1 <==> toks[i].kind == Newline
  {
    if toks[i].kind == Newline then i + 1 else i
  }

  /** Skipping to the end of the line: the first Newline or Eof at or after `i`. */
  function LineEnd(toks: seq<Token>, i: nat): (j: nat)
    requires Terminated(toks) && i < |toks|
    ensures i <= j < |toks|
    ensures toks[j].kind == Newline || toks[j].kind == Eof
    ensures forall k :: i <= k < j ==> toks[k].kind != Newline && toks[k].kind != Eof
    decreases |toks| - i
  {
    if toks[i].kind == Newline || toks[i].kind == Eof then i else LineEnd(toks, i + 1)
  }

  // ---------------------------------------------------------------------------
  // Leading comments and the title
  // ---------------------------------------------------------------------------

  /**
   * The title a comment sets: after leading whitespace it starts with
   * `Diagram:`; every back-to-back `Diagram:` is removed and the rest trimmed.
   */
  function DiagramTitle(text: string): (t: Option<string>)
    ensures t.Some? <==> StartsWith(TrimStart(text), "Diagram:")
    ensures t.Some? ==> t.value == [] || (!IsWhitespace(t.value[0]) && !IsWhitespace(t.value[|t.value| - 1]))
  {
    var s := TrimStart(text);
    if StartsWith(s, "Diagram:") then Some(Trim(TrimStartMatches(s, "Diagram:"))) else None
  }

  /**
   * What the title is: the comment, after its leading whitespace, is one or
   * more back-to-back `Diagram:` followed by a `rest` that does not start with
   * another, and the title is `rest` trimmed.
   */
  lemma DiagramTitleContent(text: string) returns (n: nat, rest: string)
    requires StartsWith(TrimStart(text), "Diagram:")
    ensures n >= 1 && TrimStart(text) == Repeat("Diagram:", n) + rest
    ensures !StartsWith(rest, "Diagram:")
    ensures DiagramTitle(text) == Some(Trim(rest))
  {
    var s := TrimStart(text);
    rest := TrimStartMatches(s, "Diagram:");
    n := StrippedCount(s, "Diagram:", 0);
    assert s[0..] == s;
    assert s != rest;
  }

  /** The metadata after reading a comment with the given text. */
  function WithComment(md: Option<Metadata>, text: string): Option<Metadata> {
    match DiagramTitle(text)
    case Some(title) => Some(Metadata(Some(title), None))
    case None => md
  }

  datatype Header = Header(next: nat, metadata: Option<Metadata>)

  /** The first loop of `document`: every leading comment, each followed by an optional Newline. */
  function LeadingComments(toks: seq<Token>, i: nat, md: Option<Metadata>): (h: Header)
    requires Terminated(toks) && i < |toks|
    ensures i <= h.next < |toks|
    ensures !toks[h.next].kind.Comment?
    decreases |toks| - i
  {
    if toks[i].kind.Comment? then
      LeadingComments(toks, SkipNewline(toks, i + 1), WithComment(md, toks[i].kind.text))
    else
      Header(i, md)
  }

  /** The title each leading comment from `i` on sets (None for a comment that sets none), in order. */
  ghost function LeadingTitles(toks: seq<Token>, i: nat): seq<Option<string>>
    requires Terminated(toks) && i < |toks|
    decreases |toks| - i
  {
    if toks[i].kind.Comment? then
      [DiagramTitle(toks[i].kind.text)] + LeadingTitles(toks, SkipNewline(toks, i + 1))
    else
      []
  }

  // ---------------------------------------------------------------------------
  // The direction line
  // ---------------------------------------------------------------------------

  datatype DirectionLine = DirectionLine(next: nat, diags: seq<Diagnostic>, direction: Option<Direction>)

  /** `direction NAME` at `i`: both tokens must be there, and NAME must be LR or TD. */
  predicate HasDirectionPair(toks: seq<Token>, i: nat)
    requires Terminated(toks) && i < |toks|
  {
    toks[i].kind.DirectionKw? && toks[i + 1].kind.Identifier?
  }

  /** A direction pair whose name is one of the two directions. */
  predicate ValidDirectionAt(toks: seq<Token>, i: nat)
    requires Terminated(toks) && i < |toks|
  {
    HasDirectionPair(toks, i) && DirectionFromName(toks[i + 1].kind.name).Some?
  }

  function DirectionStep(toks: seq<Token>, i: nat): (d: DirectionLine)
    requires Terminated(toks) && i < |toks|
    ensures i <= d.next < |toks|
    ensures d.direction.Some? <==> HasDirectionPair(toks, i)
    ensures d.diags == [] || d.diags == [MissingDirection] || d.diags == [InvalidDirection]
    ensures d.diags == [MissingDirection] <==> !HasDirectionPair(toks, i)
    ensures d.diags == [InvalidDirection] <==> HasDirectionPair(toks, i) && !ValidDirectionAt(toks, i)
    ensures d.diags == [] ==> HasDirectionPair(toks, i) && d.direction == DirectionFromName(toks[i + 1].kind.name)
  {
    if HasDirectionPair(toks, i) then
      var next := SkipNewline(toks, i + 2);
      match DirectionFromName(toks[i + 1].kind.name)
      case Some(dir) => DirectionLine(next, [], Some(dir))
      case None => DirectionLine(next, [InvalidDirection], Some(LR))
    else
      DirectionLine(i, [MissingDirection], None)
  }

  // ---------------------------------------------------------------------------
  // The body
  // ---------------------------------------------------------------------------

  /** What a stretch of the body adds: diagnostics, nodes and edges, in order. */
  datatype Found = Found(diags: seq<Diagnostic>, nodes: seq<Node>, edges: seq<Edge>)

  const NothingFound := Found([], [], [])

  function Then(a: Found, b: Found): Found {
    Found(a.diags + b.diags, a.nodes + b.nodes, a.edges + b.edges)
  }

  lemma ThenAssociative(a: Found, b: Found, c: Found)
    ensures Then(Then(a, b), c) == Then(a, Then(b, c))
  {
    assert (a.diags + b.diags) + c.diags == a.diags + (b.diags + c.diags);
    assert (a.nodes + b.nodes) + c.nodes == a.nodes + (b.nodes + c.nodes);
    assert (a.edges + b.edges) + c.edges == a.edges + (b.edges + c.edges);
  }

  lemma ThenNothing(a: Found)
    ensures Then(a, NothingFound) == a
  {
    assert a.diags + [] == a.diags && a.nodes + [] == a.nodes && a.edges + [] == a.edges;
  }

  datatype Advance = Advance(next: nat, found: Found)

  /** The edge kind an arrow token stands for. */
  function ArrowKind(k: TokenKind): (r: Option<EdgeKind>)
    ensures r == Some(Flow) <==> k == ArrowFlow
    ensures r == Some(Conditional) <==> k == ArrowCond
    ensures r.None? <==> !(k == ArrowFlow || k == ArrowCond)
  {
    match k
    case ArrowFlow => Some(Flow)
    case ArrowCond => Some(Conditional)
    case _ => None
  }

  /** `id[` at `i`. */
  predicate IsNodeDecl(toks: seq<Token>, i: nat)
    requires Terminated(toks) && i < |toks|
  {
    toks[i].kind.Identifier? && toks[i + 1].kind.LBracket?
  }

  /** `id --> id` or `id -.-> id` at `i`. */
  predicate IsEdge(toks: seq<Token>, i: nat)
    requires Terminated(toks) && i < |toks|
  {
    toks[i].kind.Identifier? && ArrowKind(toks[i + 1].kind).Some? && toks[i + 2].kind.Identifier?
  }

  /** The node `id[` at `i` declares: its caption is the quoted label, or empty when there is none. */
  function DeclaredNode(toks: seq<Token>, i: nat): Node
    requires Terminated(toks) && i < |toks| && IsNodeDecl(toks, i)
  {
    Node(toks[i].kind.name, if toks[i + 2].kind.StringLit? then toks[i + 2].kind.text else "", None)
  }

  /** `id["label"]` at `p`: the label is quoted and the bracket closed. */
  predicate WellFormedDecl(toks: seq<Token>, p: nat)
    requires Terminated(toks)
  {
    p + 3 < |toks| && toks[p + 2].kind.StringLit? && toks[p + 3].kind.RBracket?
  }

  /** A node declaration at `i`: the label, then the closing bracket, both checked. */
  function NodeDecl(toks: seq<Token>, i: nat): (a: Advance)
    requires Terminated(toks) && i < |toks| && IsNodeDecl(toks, i)
    ensures i < a.next < |toks|
    ensures a.found.diags == [] <==> WellFormedDecl(toks, i)
    ensures var quoted := toks[i + 2].kind.StringLit?;
      && a.found.nodes == [DeclaredNode(toks, i)]
      && a.found.edges == []
      && (UnquotedLabel in a.found.diags <==> !quoted)
      && (MissingRBracket in a.found.diags <==> !toks[if quoted then i + 3 else i + 2].kind.RBracket?)
      && |a.found.diags| <= 2 && (forall d <- a.found.diags :: IsBodyDiagnostic(d))
    // E0003 before E0010, each at most once; the statement resumes after `]`, or where it was missing
    ensures var quoted := toks[i + 2].kind.StringLit?;
      var k := if quoted then i + 3 else i + 2;
      && a.found.diags == (if quoted then [] else [UnquotedLabel]) + (if toks[k].kind.RBracket? then [] else [MissingRBracket])
      && a.next == if toks[k].kind.RBracket? then k + 1 else k
  {
    var j := i + 2;
    var caption := if toks[j].kind.StringLit? then toks[j].kind.text else "";
    var d1 := if toks[j].kind.StringLit? then [] else [UnquotedLabel];
    var k := if toks[j].kind.StringLit? then j + 1 else j;
    var d2 := if toks[k].kind.RBracket? then [] else [MissingRBracket];
    var next := if toks[k].kind.RBracket? then k + 1 else k;
    Advance(next, Found(d1 + d2, [Node(toks[i].kind.name, caption, None)], []))
  }

  /** One round of the body loop, starting at the non-Eof token at `i`. */
  function BodyStep(toks: seq<Token>, i: nat): (a: Advance)
    requires Terminated(toks) && i < |toks| - 1
    ensures i < a.next < |toks|
    ensures forall d <- a.found.diags :: IsBodyDiagnostic(d)
    ensures a.found.nodes == if IsNodeDecl(toks, i) then [DeclaredNode(toks, i)] else []
    ensures |a.found.edges| <= 1 && (a.found.edges != [] <==> IsEdge(toks, i))
    ensures a.found.edges != [] ==>
      a.found.edges[0] == Edge(toks[i].kind.name, toks[i + 2].kind.name, ArrowKind(toks[i + 1].kind).value, None)
    // only a declaration reports anything, and where each kind of statement resumes
    ensures IsNodeDecl(toks, i) ==> a == NodeDecl(toks, i)
    ensures !IsNodeDecl(toks, i) ==> a.found.diags == []
    ensures IsEdge(toks, i) ==> a.next == LineEnd(toks, i + 3)
    ensures ((toks[i].kind.Identifier? && !IsNodeDecl(toks, i) && !IsEdge(toks, i))
             || toks[i].kind == ArrowFlow || toks[i].kind == ArrowCond) ==> a.next == LineEnd(toks, i)
    ensures toks[i].kind.Comment? ==> a.next == SkipNewline(toks, i + 1)
    ensures !(toks[i].kind.Identifier? || toks[i].kind.Comment? || toks[i].kind == ArrowFlow || toks[i].kind == ArrowCond)
      ==> a.next == i + 1
  {
    match toks[i].kind
    case Newline => Advance(i + 1, NothingFound)
    case Comment(_) => Advance(SkipNewline(toks, i + 1), NothingFound)
    case Identifier(id) =>
      if toks[i + 1].kind.LBracket? then
        NodeDecl(toks, i)
      else if IsEdge(toks, i) then
        var e := Edge(id, toks[i + 2].kind.name, ArrowKind(toks[i + 1].kind).value, None);
        Advance(LineEnd(toks, i + 3), Found([], [], [e]))
      else
        Advance(LineEnd(toks, i), NothingFound)
    case ArrowFlow => Advance(LineEnd(toks, i), NothingFound)
    case ArrowCond => Advance(LineEnd(toks, i), NothingFound)
    case DirectionKw | StringLit(_) | LBracket | RBracket | Pipe => Advance(i + 1, NothingFound)
  }

  /** The body loop from `i` to the Eof token. */
  function BodyFrom(toks: seq<Token>, i: nat): (f: Found)
    requires Terminated(toks) && i < |toks|
    ensures forall d <- f.diags :: IsBodyDiagnostic(d)
    decreases |toks| - i
  {
    if toks[i].kind == Eof then
      NothingFound
    else
      var a := BodyStep(toks, i);
      Then(a.found, BodyFrom(toks, a.next))
  }

  lemma BodyFromUnfold(toks: seq<Token>, i: nat)
    requires Terminated(toks) && i < |toks| - 1
    ensures BodyFrom(toks, i) == Then(BodyStep(toks, i).found, BodyFrom(toks, BodyStep(toks, i).next))
  {
  }

  /** One more statement of the body loop: what was found so far, then the rest, is still the whole body. */
  lemma BodyThen(toks: seq<Token>, start: nat, i: nat, next: nat, found: Found, more: Found)
    requires Terminated(toks) && start < |toks| && i < |toks| - 1
    requires Advance(next, more) == BodyStep(toks, i)
    requires Then(found, BodyFrom(toks, i)) == BodyFrom(toks, start)
    ensures Then(Then(found, more), BodyFrom(toks, next)) == BodyFrom(toks, start)
  {
    BodyFromUnfold(toks, i);
    ThenAssociative(found, more, BodyFrom(toks, next));
  }

  /** `document` on a token list: header, direction, body, then all or nothing. */
  function ParseTokens(toks: seq<Token>): (r: Result<Document, seq<Diagnostic>>)
    requires Terminated(toks)
    ensures var h := LeadingComments(toks, 0, None);
      var body := BodyFrom(toks, DirectionStep(toks, h.next).next);
      && (r.Ok? <==> ValidDirectionAt(toks, h.next) && body.diags == [])
      && (r.Ok? ==>
            && r.value.version == "1"
            && r.value.metadata == h.metadata
            && r.value.nodes == body.nodes
            && r.value.edges == body.edges)
  {
    var h := LeadingComments(toks, 0, None);
    var d := DirectionStep(toks, h.next);
    var body := BodyFrom(toks, d.next);
    var diags := d.diags + body.diags;
    if diags != [] then
      Err(diags)
    else
      var dir := if d.direction.Some? then d.direction.value else LR;
      Ok(Document("1", Directives(dir), h.metadata, body.nodes, body.edges))
  }

  /** The name on a `direction NAME` line starting at `i`, if there is one. */
  function NamedDirection(toks: seq<Token>, i: nat): Option<string>
    requires Terminated(toks) && i < |toks|
  {
    if HasDirectionPair(toks, i) then Some(toks[i + 1].kind.name) else None
  }

  /** On success the direction is the one named on the direction line: TD for `TD`, LR for `LR`. */
  lemma ParseDirection(toks: seq<Token>)
    requires Terminated(toks)
    ensures var r := ParseTokens(toks);
      r.Ok? ==> NamedDirection(toks, LeadingComments(toks, 0, None).next) == Some(DirectionName(r.value.directives.direction))
  {
    var h := LeadingComments(toks, 0, None);
    var d := DirectionStep(toks, h.next);
    var r := ParseTokens(toks);
    if r.Ok? {
      var body := BodyFrom(toks, d.next);
      assert d.diags + body.diags == [] ==> d.diags == [];
      assert r.value.directives.direction == d.direction.value;
    }
  }

  /** The failed result is the direction line's diagnostics followed by the body's. */
  lemma ParseErrorList(toks: seq<Token>)
    requires Terminated(toks)
    ensures var h := LeadingComments(toks, 0, None);
      var d := DirectionStep(toks, h.next);
      var r := ParseTokens(toks);
      r.Err? ==> r.error == d.diags + BodyFrom(toks, d.next).diags
  {
  }

  /** What a diagnostic list made of a direction verdict and body diagnostics says. */
  lemma DiagnosticsOf(dd: seq<Diagnostic>, bd: seq<Diagnostic>)
    requires dd == [] || dd == [MissingDirection] || dd == [InvalidDirection]
    requires forall x <- bd :: IsBodyDiagnostic(x)
    ensures forall x <- dd + bd :: x.code in {"E0001", "E0003", "E0010"}
    ensures MissingDirection in dd + bd <==> dd == [MissingDirection]
    ensures InvalidDirection in dd + bd <==> dd == [InvalidDirection]
    ensures (dd + bd)[|dd + bd| - |bd|..] == bd
  {
    assert forall x <- dd + bd :: x in dd || x in bd;
  }

  /**
   * A failed parse reports only E0001, E0003 and E0010. E0001 comes first
   * and says which: the `direction NAME` pair is missing, or NAME is neither
   * LR nor TD; the body's diagnostics follow in order.
   */
  lemma ParseErrors(toks: seq<Token>)
    requires Terminated(toks)
    ensures var h := LeadingComments(toks, 0, None);
      var body := BodyFrom(toks, DirectionStep(toks, h.next).next);
      var r := ParseTokens(toks);
      r.Err? ==>
        && r.error != []
        && (forall d <- r.error :: d.code in {"E0001", "E0003", "E0010"})
        && (MissingDirection in r.error <==> !HasDirectionPair(toks, h.next))
        && (InvalidDirection in r.error <==> HasDirectionPair(toks, h.next) && !ValidDirectionAt(toks, h.next))
        && |body.diags| <= |r.error|
        && r.error[|r.error| - |body.diags|..] == body.diags
  {
    var h := LeadingComments(toks, 0, None);
    var d := DirectionStep(toks, h.next);
    var body := BodyFrom(toks, d.next);
    ParseErrorList(toks);
    DiagnosticsOf(d.diags, body.diags);
  }

  /** `Parser::parse`: the lexer's tokens, parsed. */
  function ParseSource(src: string): Result<Document, seq<Diagnostic>> {
    TokensTerminated(src);
    ParseTokens(Tokens(src))
  }

  // ---------------------------------------------------------------------------
  // What a parse promises
  // ---------------------------------------------------------------------------

  /** The metadata after reading comments that set the given titles, one after the other. */
  ghost function AfterTitles(titles: seq<Option<string>>, md: Option<Metadata>): Option<Metadata>
    decreases |titles|
  {
    if titles == [] then md
    else AfterTitles(titles[1..], if titles[0].Some? then Some(Metadata(titles[0], None)) else md)
  }

  /** The k-th title is the last one present. */
  ghost predicate LastTitle(titles: seq<Option<string>>, k: int) {
    0 <= k < |titles| && titles[k].Some? && forall l :: k < l < |titles| ==> titles[l].None?
  }

  /** Reading comments in order: the last title wins; with no title the metadata stays. */
  lemma {:induction false} LastTitleWins(titles: seq<Option<string>>, md: Option<Metadata>)
    ensures (forall k :: 0 <= k < |titles| ==> titles[k].None?) ==> AfterTitles(titles, md) == md
    ensures forall k :: LastTitle(titles, k) ==> AfterTitles(titles, md) == Some(Metadata(titles[k], None))
    decreases |titles|
  {
    if titles != [] {
      var rest := titles[1..];
      var md' := if titles[0].Some? then Some(Metadata(titles[0], None)) else md;
      LastTitleWins(rest, md');
      forall k | LastTitle(titles, k)
        ensures AfterTitles(titles, md) == Some(Metadata(titles[k], None))
      {
        if k > 0 {
          assert LastTitle(rest, k - 1);
        }
      }
    }
  }

  /** The leading-comment loop applies the leading comments' titles in order. */
  lemma {:induction false} LeadingCommentsApplyTitles(toks: seq<Token>, i: nat, md: Option<Metadata>)
    requires Terminated(toks) && i < |toks|
    ensures LeadingComments(toks, i, md).metadata == AfterTitles(LeadingTitles(toks, i), md)
    decreases |toks| - i
  {
    if toks[i].kind.Comment? {
      var j := SkipNewline(toks, i + 1);
      var text := toks[i].kind.text;
      LeadingCommentsApplyTitles(toks, j, WithComment(md, text));
      var titles := LeadingTitles(toks, i);
      assert titles[1..] == LeadingTitles(toks, j);
      assert WithComment(md, text) == if titles[0].Some? then Some(Metadata(titles[0], None)) else md;
    }
  }

  /**
   * Only the leading comments set the title, and the last one that starts
   * with `Diagram:` wins; when none does, the metadata is left as it was.
   */
  lemma TitleFromLastDiagramComment(toks: seq<Token>, md: Option<Metadata>)
    requires Terminated(toks)
    ensures var titles := LeadingTitles(toks, 0);
      var m := LeadingComments(toks, 0, md).metadata;
      && ((forall k :: 0 <= k < |titles| ==> titles[k].None?) ==> m == md)
      && (forall k :: LastTitle(titles, k) ==> m == Some(Metadata(titles[k], None)))
  {
    LeadingCommentsApplyTitles(toks, 0, md);
    LastTitleWins(LeadingTitles(toks, 0), md);
  }

  /** The node declared by `id[` at `p`. */
  ghost predicate NodeFrom(toks: seq<Token>, p: nat, n: Node)
    requires Terminated(toks)
  {
    p < |toks| && IsNodeDecl(toks, p) && n == DeclaredNode(toks, p)
  }

  /** The edge written `from ARROW to` at `p`. */
  ghost predicate EdgeFrom(toks: seq<Token>, p: nat, e: Edge)
    requires Terminated(toks)
  {
    && p < |toks| && IsEdge(toks, p)
    && e == Edge(toks[p].kind.name, toks[p + 2].kind.name, ArrowKind(toks[p + 1].kind).value, None)
  }

  /** The statement positions of the body loop from `i` that declare a node. */
  ghost function NodeSites(toks: seq<Token>, i: nat): seq<nat>
    requires Terminated(toks) && i < |toks|
    decreases |toks| - i
  {
    if toks[i].kind == Eof then []
    else (if IsNodeDecl(toks, i) then [i] else []) + NodeSites(toks, BodyStep(toks, i).next)
  }

  /** The statement positions of the body loop from `i` that form an edge. */
  ghost function EdgeSites(toks: seq<Token>, i: nat): seq<nat>
    requires Terminated(toks) && i < |toks|
    decreases |toks| - i
  {
    if toks[i].kind == Eof then []
    else (if IsEdge(toks, i) then [i] else []) + EdgeSites(toks, BodyStep(toks, i).next)
  }

  /** Putting the current position before the later sites keeps them increasing. */
  lemma SitesOrdered(here: seq<nat>, rest: seq<nat>, i: nat, next: nat)
    requires (here == [] || here == [i]) && i < next
    requires forall k :: 0 <= k < |rest| ==> next <= rest[k]
    requires forall k, l :: 0 <= k < l < |rest| ==> rest[k] < rest[l]
    ensures forall k :: 0 <= k < |here + rest| ==> i <= (here + rest)[k]
    ensures forall k, l :: 0 <= k < l < |here + rest| ==> (here + rest)[k] < (here + rest)[l]
  {
    var sites := here + rest;
    forall k | 0 <= k < |sites| ensures i <= sites[k] {
      if k >= |here| { assert sites[k] == rest[k - |here|]; }
    }
    forall k, l | 0 <= k < l < |sites| ensures sites[k] < sites[l] {
      if k >= |here| {
        assert sites[k] == rest[k - |here|] && sites[l] == rest[l - |here|];
      } else {
        assert sites[l] == rest[l - |here|];
      }
    }
  }

  /** Pairing the current site and node with the later ones keeps every pair matched. */
  lemma NodeSitesCons(toks: seq<Token>, here: seq<nat>, rest: seq<nat>, found: seq<Node>, later: seq<Node>)
    requires Terminated(toks)
    requires |here| == |found| <= 1 && (here != [] ==> NodeFrom(toks, here[0], found[0]))
    requires |rest| == |later| && forall k :: 0 <= k < |rest| ==> NodeFrom(toks, rest[k], later[k])
    ensures forall k :: 0 <= k < |here + rest| ==> NodeFrom(toks, (here + rest)[k], (found + later)[k])
  {
    forall k | 0 <= k < |here + rest| ensures NodeFrom(toks, (here + rest)[k], (found + later)[k]) {
      if k >= |here| {
        assert (here + rest)[k] == rest[k - |here|] && (found + later)[k] == later[k - |here|];
      }
    }
  }

  /** Pairing the current site and edge with the later ones keeps every pair matched. */
  lemma EdgeSitesCons(toks: seq<Token>, here: seq<nat>, rest: seq<nat>, found: seq<Edge>, later: seq<Edge>)
    requires Terminated(toks)
    requires |here| == |found| <= 1 && (here != [] ==> EdgeFrom(toks, here[0], found[0]))
    requires |rest| == |later| && forall k :: 0 <= k < |rest| ==> EdgeFrom(toks, rest[k], later[k])
    ensures forall k :: 0 <= k < |here + rest| ==> EdgeFrom(toks, (here + rest)[k], (found + later)[k])
  {
    forall k | 0 <= k < |here + rest| ensures EdgeFrom(toks, (here + rest)[k], (found + later)[k]) {
      if k >= |here| {
        assert (here + rest)[k] == rest[k - |here|] && (found + later)[k] == later[k - |here|];
      }
    }
  }

  /**
   * The k-th node comes from the k-th node declaration met by the body loop:
   * the nodes keep source order, one per `id[`.
   */
  lemma {:induction false} NodesInSourceOrder(toks: seq<Token>, i: nat)
    requires Terminated(toks) && i < |toks|
    ensures var sites := NodeSites(toks, i);
      var nodes := BodyFrom(toks, i).nodes;
      && |sites| == |nodes|
      && (forall k :: 0 <= k < |sites| ==> i <= sites[k] && NodeFrom(toks, sites[k], nodes[k]))
      && (forall k, l :: 0 <= k < l < |sites| ==> sites[k] < sites[l])
    decreases |toks| - i
  {
    if toks[i].kind != Eof {
      var a := BodyStep(toks, i);
      NodesInSourceOrder(toks, a.next);
      var rest := NodeSites(toks, a.next);
      var here := if IsNodeDecl(toks, i) then [i] else [];
      var sites := NodeSites(toks, i);
      var nodes := BodyFrom(toks, i).nodes;
      var later := BodyFrom(toks, a.next).nodes;
      assert sites == here + rest;
      assert nodes == a.found.nodes + later;
      SitesOrdered(here, rest, i, a.next);
      NodeSitesCons(toks, here, rest, a.found.nodes, later);
    }
  }

  /** Every one of the given declaration sites is `id["label"]`. */
  predicate AllWellFormed(toks: seq<Token>, sites: seq<nat>)
    requires Terminated(toks)
  {
    forall k :: 0 <= k < |sites| ==> WellFormedDecl(toks, sites[k])
  }

  /** The current statement's diagnostics and the later ones are empty exactly when every site is well formed. */
  lemma DiagnosticsCons(toks: seq<Token>, i: nat, here: seq<nat>, rest: seq<nat>, d: seq<Diagnostic>, later: seq<Diagnostic>)
    requires Terminated(toks) && (here == [] || here == [i])
    requires d == [] <==> (here != [] ==> WellFormedDecl(toks, i))
    requires later == [] <==> AllWellFormed(toks, rest)
    ensures d + later == [] <==> AllWellFormed(toks, here + rest)
  {
    var sites := here + rest;
    if AllWellFormed(toks, rest) && (here != [] ==> WellFormedDecl(toks, i)) {
      forall k | 0 <= k < |sites| ensures WellFormedDecl(toks, sites[k]) {
        if k >= |here| { assert sites[k] == rest[k - |here|]; }
      }
    }
    if AllWellFormed(toks, sites) {
      forall k | 0 <= k < |rest| ensures WellFormedDecl(toks, rest[k]) {
        assert sites[k + |here|] == rest[k];
      }
      if here != [] { assert sites[0] == i; }
    }
  }

  /**
   * The body reports nothing exactly when every node declaration the body
   * loop meets is `id["label"]`: only declarations report, E0003 for a
   * missing quoted label and E0010 for a missing `]`.
   */
  lemma {:induction false} BodyDiagnostics(toks: seq<Token>, i: nat)
    requires Terminated(toks) && i < |toks|
    ensures BodyFrom(toks, i).diags == [] <==> AllWellFormed(toks, NodeSites(toks, i))
    decreases |toks| - i
  {
    if toks[i].kind != Eof {
      var a := BodyStep(toks, i);
      BodyDiagnostics(toks, a.next);
      var here := if IsNodeDecl(toks, i) then [i] else [];
      assert NodeSites(toks, i) == here + NodeSites(toks, a.next);
      assert BodyFrom(toks, i).diags == a.found.diags + BodyFrom(toks, a.next).diags;
      DiagnosticsCons(toks, i, here, NodeSites(toks, a.next), a.found.diags, BodyFrom(toks, a.next).diags);
    }
  }

  /** What the statement at `p` reports: a declaration's diagnostics, nothing for any other statement. */
  function SiteDiagnostics(toks: seq<Token>, p: nat): seq<Diagnostic>
    requires Terminated(toks)
  {
    if p < |toks| && IsNodeDecl(toks, p) then NodeDecl(toks, p).found.diags else []
  }

  /** The diagnostics of the statements at `sites`, one after the other. */
  function SitesDiagnostics(toks: seq<Token>, sites: seq<nat>): seq<Diagnostic>
    requires Terminated(toks)
  {
    if sites == [] then [] else SiteDiagnostics(toks, sites[0]) + SitesDiagnostics(toks, sites[1..])
  }

  /**
   * The body's diagnostics are those of its node declarations, in source
   * order: each declaration's E0003 and E0010, and nothing else.
   */
  lemma {:induction false} BodyDiagnosticsInOrder(toks: seq<Token>, i: nat)
    requires Terminated(toks) && i < |toks|
    ensures BodyFrom(toks, i).diags == SitesDiagnostics(toks, NodeSites(toks, i))
    decreases |toks| - i
  {
    if toks[i].kind != Eof {
      var a := BodyStep(toks, i);
      BodyDiagnosticsInOrder(toks, a.next);
      var here := if IsNodeDecl(toks, i) then [i] else [];
      var rest := NodeSites(toks, a.next);
      assert NodeSites(toks, i) == here + rest;
      assert BodyFrom(toks, i).diags == a.found.diags + BodyFrom(toks, a.next).diags;
      SitesDiagnosticsCons(toks, i, here, rest, a.found.diags);
    }
  }

  /** The current statement's diagnostics come before those of the later sites. */
  lemma SitesDiagnosticsCons(toks: seq<Token>, i: nat, here: seq<nat>, rest: seq<nat>, d: seq<Diagnostic>)
    requires Terminated(toks) && i < |toks|
    requires here == (if IsNodeDecl(toks, i) then [i] else [])
    requires IsNodeDecl(toks, i) ==> d == NodeDecl(toks, i).found.diags
    requires !IsNodeDecl(toks, i) ==> d == []
    ensures SitesDiagnostics(toks, here + rest) == d + SitesDiagnostics(toks, rest)
  {
    if here != [] {
      var sites := here + rest;
      assert sites[0] == i && sites[1..] == rest;
      assert SiteDiagnostics(toks, i) == d;
    } else {
      assert here + rest == rest;
    }
  }

  /**
   * A token list parses exactly when its direction line names LR or TD and
   * every node declaration in the body is `id["label"]`.
   */
  lemma ParseAccepts(toks: seq<Token>)
    requires Terminated(toks)
    ensures var h := LeadingComments(toks, 0, None);
      var sites := NodeSites(toks, DirectionStep(toks, h.next).next);
      ParseTokens(toks).Ok? <==>
        ValidDirectionAt(toks, h.next) && AllWellFormed(toks, sites)
  {
    var h := LeadingComments(toks, 0, None);
    BodyDiagnostics(toks, DirectionStep(toks, h.next).next);
  }

  /**
   * The k-th edge comes from the k-th `from ARROW to` met by the body loop,
   * with the arrow's kind: edges keep source order.
   */
  lemma {:induction false} EdgesInSourceOrder(toks: seq<Token>, i: nat)
    requires Terminated(toks) && i < |toks|
    ensures var sites := EdgeSites(toks, i);
      var edges := BodyFrom(toks, i).edges;
      && |sites| == |edges|
      && (forall k :: 0 <= k < |sites| ==> i <= sites[k] && EdgeFrom(toks, sites[k], edges[k]))
      && (forall k, l :: 0 <= k < l < |sites| ==> sites[k] < sites[l])
    decreases |toks| - i
  {
    if toks[i].kind != Eof {
      var a := BodyStep(toks, i);
      EdgesInSourceOrder(toks, a.next);
      var rest := EdgeSites(toks, a.next);
      var here := if IsEdge(toks, i) then [i] else [];
      var sites := EdgeSites(toks, i);
      var edges := BodyFrom(toks, i).edges;
      var later := BodyFrom(toks, a.next).edges;
      assert sites == here + rest;
      assert edges == a.found.edges + later;
      SitesOrdered(here, rest, i, a.next);
      EdgeSitesCons(toks, here, rest, a.found.edges, later);
    }
  }

  /** The tokens of `direction LR`, `a[unquoted]`, each line ending in a newline. */
  const UnquotedTokens: seq<Token> := [
    Token(DirectionKw, 1, 1), Token(Identifier("LR"), 1, 11), Token(Newline, 1, 13),
    Token(Identifier("a"), 2, 1), Token(LBracket, 2, 2), Token(Identifier("unquoted"), 2, 3),
    Token(RBracket, 2, 11), Token(Newline, 2, 12), Token(Eof, 3, 1)]

  lemma UnquotedTerminated()
    ensures Terminated(UnquotedTokens)
  {
  }

  /** The body of the `a[unquoted]` example, from the token after the direction line. */
  lemma UnquotedBody()
    requires Terminated(UnquotedTokens)
    ensures BodyFrom(UnquotedTokens, 3) == Found([UnquotedLabel, MissingRBracket], [Node("a", "", None)], [])
  {
    var f := Found([UnquotedLabel, MissingRBracket], [Node("a", "", None)], []);
    BodyFromUnfold(UnquotedTokens, 3);
    UnquotedDecl();
    UnquotedTail();
    ThenNothing(f);
  }

  /** `a[unquoted` is a declaration with both errors, which stops at `unquoted`. */
  lemma UnquotedDecl()
    requires Terminated(UnquotedTokens)
    ensures BodyStep(UnquotedTokens, 3) == Advance(5, Found([UnquotedLabel, MissingRBracket], [Node("a", "", None)], []))
  {
    var toks := UnquotedTokens;
    assert toks[3].kind.Identifier? && toks[4].kind.LBracket?;
    assert BodyStep(toks, 3) == NodeDecl(toks, 3);
  }

  /** After the bad declaration the rest of its line is skipped, and nothing follows. */
  lemma UnquotedTail()
    requires Terminated(UnquotedTokens)
    ensures BodyFrom(UnquotedTokens, 5) == NothingFound
  {
    var toks := UnquotedTokens;
    assert LineEnd(toks, 5) == 7;
    assert BodyStep(toks, 5) == Advance(7, NothingFound);
    assert BodyStep(toks, 7) == Advance(8, NothingFound);
    BodyFromUnfold(toks, 5);
    BodyFromUnfold(toks, 7);
  }

  /** `a[unquoted]` reports both E0003 and E0010, and nothing else. */
  lemma UnquotedLabelExample()
    ensures Terminated(UnquotedTokens)
    ensures ParseTokens(UnquotedTokens) == Err([UnquotedLabel, MissingRBracket])
  {
    UnquotedTerminated();
    UnquotedHeader();
    UnquotedBody();
    assert [] + [UnquotedLabel, MissingRBracket] == [UnquotedLabel, MissingRBracket];
  }

  /** The `a[unquoted]` example has no comments and a valid `direction LR` line. */
  lemma UnquotedHeader()
    requires Terminated(UnquotedTokens)
    ensures LeadingComments(UnquotedTokens, 0, None) == Header(0, None)
    ensures DirectionStep(UnquotedTokens, 0) == DirectionLine(3, [], Some(LR))
  {
    var toks := UnquotedTokens;
    assert toks[1].kind.name == "LR" && DirectionFromName("LR") == Some(LR);
    assert SkipNewline(toks, 2) == 3;
  }

  /** The tokens of `direction TD`, `a -.-> b`, each line ending in a newline. */
  const DanglingTokens: seq<Token> := [
    Token(DirectionKw, 1, 1), Token(Identifier("TD"), 1, 11), Token(Newline, 1, 13),
    Token(Identifier("a"), 2, 1), Token(ArrowCond, 2, 3), Token(Identifier("b"), 2, 8),
    Token(Newline, 2, 9), Token(Eof, 3, 1)]

  lemma DanglingTerminated()
    ensures Terminated(DanglingTokens)
  {
  }

  /** The body of the `a -.-> b` example, from the token after the direction line. */
  lemma DanglingBody()
    requires Terminated(DanglingTokens)
    ensures BodyFrom(DanglingTokens, 3) == Found([], [], [Edge("a", "b", Conditional, None)])
  {
    var toks := DanglingTokens;
    assert LineEnd(toks, 6) == 6;
    assert BodyStep(toks, 3) == Advance(6, Found([], [], [Edge("a", "b", Conditional, None)]));
    assert BodyFrom(toks, 6) == NothingFound;
  }

  /** No reference check: an edge between two ids that are never declared is accepted. */
  lemma UndeclaredEndpointsExample()
    ensures Terminated(DanglingTokens)
    ensures ParseTokens(DanglingTokens) == Ok(Ast.Document("1", Directives(TD), None, [], [Edge("a", "b", Conditional, None)]))
  {
    DanglingTerminated();
    DanglingHeader();
    DanglingBody();
  }

  /** The `a -.-> b` example has no comments and a valid `direction TD` line. */
  lemma DanglingHeader()
    requires Terminated(DanglingTokens)
    ensures LeadingComments(DanglingTokens, 0, None) == Header(0, None)
    ensures DirectionStep(DanglingTokens, 0) == DirectionLine(3, [], Some(TD))
  {
    var toks := DanglingTokens;
    assert toks[1].kind.name == "TD" && DirectionFromName("TD") == Some(TD);
    assert SkipNewline(toks, 2) == 3;
  }

  // ---------------------------------------------------------------------------
  // The cursor
  // ---------------------------------------------------------------------------

  class Parser {
    const toks: seq<Token>
    var idx: nat

    ghost predicate Valid()
      reads this
    {
      Terminated(toks) && idx < |toks|
    }

    constructor(toks: seq<Token>)
      requires Terminated(toks)
      ensures this.toks == toks && idx == 0
      ensures Valid()
    {
      this.toks := toks;
      idx := 0;
    }

    /** The current token; it is Eof exactly on the last index. */
    function Peek(): (t: Token)
      reads this
      requires Valid()
      ensures t in toks
      ensures t.kind == Eof <==> idx == |toks| - 1
    {
      toks[idx]
    }

    method Bump()
      requires Valid()
      modifies this`idx
      ensures Valid()
      ensures idx == BumpIndex(toks, old(idx))
    {
      if idx < |toks| - 1 {
        idx := idx + 1;
      }
    }

    method ExpectNewline()
      requires Valid()
      modifies this`idx
      ensures Valid()
      ensures idx == SkipNewline(toks, old(idx))
    {
      if Peek().kind == Newline {
        Bump();
      }
    }

    /** Bumps until the current token is a Newline or Eof. */
    method SkipLine()
      requires Valid()
      modifies this`idx
      ensures Valid()
      ensures idx == LineEnd(toks, old(idx))
    {
      while !(Peek().kind == Newline || Peek().kind == Eof)
        invariant Valid()
        invariant LineEnd(toks, idx) == LineEnd(toks, old(idx))
        decreases |toks| - idx
      {
        Bump();
      }
    }

    /** One round of the body loop. */
    method Statement() returns (found: Found)
      requires Valid() && Peek().kind != Eof
      modifies this`idx
      ensures Valid()
      ensures Advance(idx, found) == BodyStep(toks, old(idx))
    {
      var t := Peek();
      if t.kind == Newline {
        Bump();
        return NothingFound;
      }
      if t.kind.Comment? {
        Bump();
        ExpectNewline();
        return NothingFound;
      }
      match t.kind
      case Identifier(id) =>
        if toks[idx + 1].kind.LBracket? {
          found := Declaration();
        } else {
          found := EdgeOrSkip();
        }
      case ArrowFlow =>
        SkipLine();
        found := NothingFound;
      case ArrowCond =>
        SkipLine();
        found := NothingFound;
      case DirectionKw | StringLit(_) | LBracket | RBracket | Pipe =>
        Bump();
        found := NothingFound;
    }

    /** A node declaration `id[`: the label, then the closing bracket, each checked. */
    method Declaration() returns (found: Found)
      requires Valid() && IsNodeDecl(toks, idx)
      modifies this`idx
      ensures Valid()
      ensures Advance(idx, found) == NodeDecl(toks, old(idx))
    {
      var id := Peek().kind.name;
      Bump();
      Bump();
      var caption := "";
      var diags := [];
      if Peek().kind.StringLit? {
        caption := Peek().kind.text;
        Bump();
      } else {
        diags := diags + [UnquotedLabel];
      }
      if Peek().kind.RBracket? {
        Bump();
      } else {
        diags := diags + [MissingRBracket];
      }
      found := Found(diags, [Node(id, caption, None)], []);
    }

    /** An identifier not followed by `[`: an edge `id ARROW id` if there is one; the line is skipped. */
    method EdgeOrSkip() returns (found: Found)
      requires Valid() && Peek().kind.Identifier? && !toks[idx + 1].kind.LBracket?
      modifies this`idx
      ensures Valid()
      ensures Advance(idx, found) == BodyStep(toks, old(idx))
    {
      var id := Peek().kind.name;
      var kind := ArrowKind(toks[idx + 1].kind);
      if kind.Some? && toks[idx + 2].kind.Identifier? {
        var to := toks[idx + 2].kind.name;
        Bump();
        Bump();
        Bump();
        found := Found([], [], [Edge(id, to, kind.value, None)]);
        SkipLine();
      } else {
        SkipLine();
        found := NothingFound;
      }
    }

    /** The leading-comment loop of `document`. */
    method Comments() returns (metadata: Option<Metadata>)
      requires Valid()
      modifies this`idx
      ensures Valid()
      ensures Header(idx, metadata) == LeadingComments(toks, old(idx), None)
    {
      metadata := None;
      while Peek().kind.Comment?
        invariant Valid()
        invariant LeadingComments(toks, idx, metadata) == LeadingComments(toks, old(idx), None)
        decreases |toks| - idx
      {
        metadata := WithComment(metadata, Peek().kind.text);
        Bump();
        ExpectNewline();
      }
    }

    /** The direction match of `document`. */
    method DirectionLineAt() returns (diags: seq<Diagnostic>, direction: Option<Direction>)
      requires Valid()
      modifies this`idx
      ensures Valid()
      ensures DirectionLine(idx, diags, direction) == DirectionStep(toks, old(idx))
    {
      diags := [];
      direction := None;
      if Peek().kind.DirectionKw? && toks[idx + 1].kind.Identifier? {
        var d := match DirectionFromName(toks[idx + 1].kind.name)
          case Some(dir) => dir
          case None => LR;
        if DirectionFromName(toks[idx + 1].kind.name).None? {
          diags := diags + [InvalidDirection];
        }
        direction := Some(d);
        Bump();
        Bump();
        ExpectNewline();
      } else {
        diags := diags + [MissingDirection];
      }
    }

    /** The body loop of `document`: statements until the Eof token. */
    method Body() returns (found: Found)
      requires Valid()
      modifies this`idx
      ensures Valid()
      ensures found == BodyFrom(toks, old(idx))
    {
      found := NothingFound;
      while Peek().kind != Eof
        invariant Valid()
        invariant Then(found, BodyFrom(toks, idx)) == BodyFrom(toks, old(idx))
        decreases |toks| - idx
      {
        ghost var before := idx;
        var more := Statement();
        BodyThen(toks, old(idx), before, idx, found, more);
        found := Then(found, more);
      }
      ThenNothing(found);
    }

    /** `document`: runs the cursor over the whole token list once. */
    method Document() returns (r: Result<Document, seq<Diagnostic>>)
      requires Valid() && idx == 0
      modifies this`idx
      ensures r == ParseTokens(toks)
    {
      var metadata := Comments();
      var diags, direction := DirectionLineAt();
      var found := Body();
      diags := diags + found.diags;
      if diags != [] {
        return Err(diags);
      }
      var dir := if direction.Some? then direction.value else LR;
      r := Ok(Ast.Document("1", Directives(dir), metadata, found.nodes, found.edges));
    }

    /** `Parser::parse`: tokenizes the source and parses it from the first token. */
    static method Parse(src: string) returns (r: Result<Document, seq<Diagnostic>>)
      ensures r == ParseSource(src)
    {
      var toks := Tokenize(src);
      TokensTerminated(src);
      var p := new Parser(toks);
      r := p.Document();
    }
  }
}
