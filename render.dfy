/**
 * The pure render helpers of the command-line tool
 * (crates/graphrite-cli/src/main.rs): the DOT serialiser `render_dot`, the
 * HTML escaper `htmlesc` and the shape classifier `kind_of`.
 */
module Render {
  import opened Text
  import opened Ast
  import Lexer

  // ---------------------------------------------------------------------------
  // render_dot
  // ---------------------------------------------------------------------------

  /** A label as written inside DOT quotes: every `"` becomes `\"`, nothing else changes. */
  function EscapeQuotes(s: string): (r: string)
    ensures forall k :: 0 <= k < |r| && r[k] == '"' ==> k > 0 && r[k - 1] == '\\'
  {
    if s == [] then []
    else
      var rest := EscapeQuotes(s[1..]);
      var head := if s[0] == '"' then "\\\"" else [s[0]];
      assert forall k :: |head| <= k < |head + rest| ==> (head + rest)[k] == rest[k - |head|];
      head + rest
  }

  /** Reads an escaped label back, left to right: `\"` gives `"`, every other character stays. */
  function UnescapeQuotes(s: string): string {
    if s == [] then []
    else if |s| >= 2 && s[0] == '\\' && s[1] == '"' then ['"'] + UnescapeQuotes(s[2..])
    else [s[0]] + UnescapeQuotes(s[1..])
  }

  /** Escaping loses nothing: the label can be read back from its DOT form. */
  lemma {:induction false} UnescapeEscapeQuotes(s: string)
    ensures UnescapeQuotes(EscapeQuotes(s)) == s
  {
    if s != [] {
      UnescapeEscapeQuotes(s[1..]);
      var rest := EscapeQuotes(s[1..]);
      assert rest == [] || rest[0] != '"';
      if s[0] == '"' {
        assert EscapeQuotes(s) == "\\\"" + rest;
        assert ("\\\"" + rest)[2..] == rest;
      } else {
        assert EscapeQuotes(s) == [s[0]] + rest;
        assert ([s[0]] + rest)[1..] == rest;
      }
    }
  }

  /** The arrow an edge is drawn with; both kinds look the same. */
  function Arrow(k: EdgeKind): (a: string)
    ensures a == "->"
  {
    match k
    case Flow => "->"
    case Conditional => "->"
  }

  function NodeLine(n: Node): string {
    "  " + n.id + " [label=\"" + EscapeQuotes(n.caption) + "\"];\n"
  }

  function EdgeLine(e: Edge): string {
    "  " + e.from + " " + Arrow(e.kind) + " " + e.to + ";\n"
  }

  const Header := "digraph G{\n"
  const Footer := "}\n"

  /** The lines of the DOT text: the header, one per node, one per edge, the footer. */
  function DotLines(doc: Document): (lines: seq<string>)
    ensures |lines| == |doc.nodes| + |doc.edges| + 2
  {
    [Header]
    + seq(|doc.nodes|, k requires 0 <= k < |doc.nodes| => NodeLine(doc.nodes[k]))
    + seq(|doc.edges|, k requires 0 <= k < |doc.edges| => EdgeLine(doc.edges[k]))
    + [Footer]
  }

  function Dot(doc: Document): string {
    Lexer.Join(DotLines(doc))
  }

  lemma {:induction false} JoinAppend(lines: seq<string>, l: string)
    ensures Lexer.Join(lines + [l]) == Lexer.Join(lines) + l
    decreases |lines|
  {
    if lines != [] {
      JoinAppend(lines[1..], l);
      assert (lines + [l])[1..] == lines[1..] + [l];
    }
  }

  /** `render_dot`: appends the header, the node lines, the edge lines and the footer. */
  method RenderDot(doc: Document) returns (s: string)
    ensures s == Dot(doc)
  {
    ghost var lines := [Header];
    s := Header;
    assert s == Lexer.Join(lines) by { assert lines[1..] == []; }
    for i := 0 to |doc.nodes|
      invariant lines == [Header] + seq(i, k requires 0 <= k < i => NodeLine(doc.nodes[k]))
      invariant s == Lexer.Join(lines)
    {
      var n := doc.nodes[i];
      JoinAppend(lines, NodeLine(n));
      lines := lines + [NodeLine(n)];
      s := s + NodeLine(n);
    }
    ghost var nodeLines := lines;
    for i := 0 to |doc.edges|
      invariant lines == nodeLines + seq(i, k requires 0 <= k < i => EdgeLine(doc.edges[k]))
      invariant s == Lexer.Join(lines)
    {
      var e := doc.edges[i];
      JoinAppend(lines, EdgeLine(e));
      lines := lines + [EdgeLine(e)];
      s := s + EdgeLine(e);
    }
    JoinAppend(lines, Footer);
    lines := lines + [Footer];
    s := s + Footer;
    assert lines == DotLines(doc);
  }

  /** No id, label or endpoint of the document contains a newline. */
  predicate SingleLine(doc: Document) {
    && (forall n <- doc.nodes :: '\n' !in n.id && '\n' !in n.caption)
    && (forall e <- doc.edges :: '\n' !in e.from && '\n' !in e.to)
  }

  lemma EscapeQuotesKeepsNewlines(s: string)
    ensures '\n' in EscapeQuotes(s) <==> '\n' in s
  {
    if s != [] {
      EscapeQuotesKeepsNewlines(s[1..]);
      assert s == [s[0]] + s[1..];
    }
  }

  /** Whatever the document holds, the DOT text starts with `digraph G{` and ends with `}`. */
  lemma DotFrame(doc: Document)
    ensures StartsWith(Dot(doc), Header) && EndsWith(Dot(doc), Footer)
  {
    var lines := DotLines(doc);
    JoinAppend(lines[..|lines| - 1], Footer);
    assert lines[..|lines| - 1] + [Footer] == lines;
    JoinPrepend(lines);
  }

  /**
   * Read back line by line, the DOT text has the header, one line per node
   * and then one line per edge, in document order, and the footer; this holds
   * whenever no id or label itself contains a newline.
   */
  lemma {:induction false} DotLayout(doc: Document)
    requires SingleLine(doc)
    ensures StartsWith(Dot(doc), Header) && EndsWith(Dot(doc), Footer)
    ensures Lexer.SplitLines(Dot(doc)) == DotLines(doc)
  {
    DotFrame(doc);
    var lines := DotLines(doc);
    forall k | 0 <= k < |lines|
      ensures Lexer.IsLine(lines[k], k == |lines| - 1)
    {
      if 1 <= k < |doc.nodes| + 1 {
        NodeLineIsLine(doc.nodes[k - 1]);
      } else if |doc.nodes| + 1 <= k < |lines| - 1 {
        EdgeLineIsLine(doc.edges[k - 1 - |doc.nodes|]);
      }
    }
    Lexer.SplitLinesJoin(lines);
  }

  /** A node's DOT line ends in its only newline. */
  lemma NodeLineIsLine(n: Node)
    requires '\n' !in n.id && '\n' !in n.caption
    ensures Lexer.IsLine(NodeLine(n), false)
  {
    var l := NodeLine(n);
    EscapeQuotesKeepsNewlines(n.caption);
    assert l[..|l| - 1] == "  " + n.id + " [label=\"" + EscapeQuotes(n.caption) + "\"];";
    assert '\n' !in l[..|l| - 1];
  }

  /** An edge's DOT line ends in its only newline. */
  lemma EdgeLineIsLine(e: Edge)
    requires '\n' !in e.from && '\n' !in e.to
    ensures Lexer.IsLine(EdgeLine(e), false)
  {
    var l := EdgeLine(e);
    assert l == "  " + e.from + " -> " + e.to + ";\n";
    assert l[..|l| - 1] == "  " + e.from + " -> " + e.to + ";";
    assert '\n' !in l[..|l| - 1];
  }

  lemma JoinPrepend(lines: seq<string>)
    requires lines != []
    ensures StartsWith(Lexer.Join(lines), lines[0])
  {
    assert Lexer.Join(lines) == lines[0] + Lexer.Join(lines[1..]);
  }

  // ---------------------------------------------------------------------------
  // htmlesc
  // ---------------------------------------------------------------------------

  /** `htmlesc`: `&` first, then `<`, then `>`, each replaced throughout. */
  function HtmlEsc(s: string): (r: string)
    ensures '<' !in r && '>' !in r
  {
    ReplaceChar(ReplaceChar(ReplaceChar(s, '&', "&amp;"), '<', "&lt;"), '>', "&gt;")
  }

  /** One character's escape. */
  function EscapeChar(c: char): string {
    if c == '&' then "&amp;"
    else if c == '<' then "&lt;"
    else if c == '>' then "&gt;"
    else [c]
  }

  /** The same escape done in one left-to-right pass. */
  function EscapeEach(s: string): string {
    if s == [] then [] else EscapeChar(s[0]) + EscapeEach(s[1..])
  }

  lemma {:induction false} ReplaceCharAppend(a: string, b: string, c: char, rep: string)
    ensures ReplaceChar(a + b, c, rep) == ReplaceChar(a, c, rep) + ReplaceChar(b, c, rep)
    decreases |a|
  {
    if a != [] {
      ReplaceCharAppend(a[1..], b, c, rep);
      assert (a + b)[0] == a[0] && (a + b)[1..] == a[1..] + b;
      var head := if a[0] == c then rep else [a[0]];
      assert ReplaceChar(a, c, rep) == head + ReplaceChar(a[1..], c, rep);
    } else {
      assert a + b == b;
    }
  }

  lemma ReplaceCharAbsent(s: string, c: char, rep: string)
    requires c !in s
    ensures ReplaceChar(s, c, rep) == s
  {
  }

  /** The three passes distribute over concatenation. */
  lemma HtmlEscAppend(a: string, b: string)
    ensures HtmlEsc(a + b) == HtmlEsc(a) + HtmlEsc(b)
  {
    var a1, b1 := ReplaceChar(a, '&', "&amp;"), ReplaceChar(b, '&', "&amp;");
    var a2, b2 := ReplaceChar(a1, '<', "&lt;"), ReplaceChar(b1, '<', "&lt;");
    ReplaceCharAppend(a, b, '&', "&amp;");
    ReplaceCharAppend(a1, b1, '<', "&lt;");
    ReplaceCharAppend(a2, b2, '>', "&gt;");
  }

  lemma ReplaceCharSingle(c: char, x: char, rep: string)
    ensures ReplaceChar([c], x, rep) == if c == x then rep else [c]
  {
    assert [c][1..] == [];
  }

  /** On one character, the three passes are that character's escape. */
  lemma HtmlEscChar(c: char)
    ensures HtmlEsc([c]) == EscapeChar(c)
  {
    ReplaceCharSingle(c, '&', "&amp;");
    if c == '&' {
      ReplaceCharAbsent("&amp;", '<', "&lt;");
      ReplaceCharAbsent("&amp;", '>', "&gt;");
    } else {
      ReplaceCharSingle(c, '<', "&lt;");
      if c == '<' {
        ReplaceCharAbsent("&lt;", '>', "&gt;");
      } else {
        ReplaceCharSingle(c, '>', "&gt;");
      }
    }
  }

  /**
   * Replacing `&` before `<` and `>` means the `&` the later passes insert is
   * never escaped again: the three passes are one character-by-character
   * escape, so every original `&` becomes exactly `&amp;`.
   */
  lemma {:induction false} HtmlEscIsOnePass(s: string)
    ensures HtmlEsc(s) == EscapeEach(s)
    decreases |s|
  {
    if s != [] {
      HtmlEscIsOnePass(s[1..]);
      assert s == [s[0]] + s[1..];
      HtmlEscAppend([s[0]], s[1..]);
      HtmlEscChar(s[0]);
    } else {
      assert HtmlEsc([]) == [];
    }
  }

  /** Reads HTML text back, left to right: `&amp;`, `&lt;` and `&gt;` give their characters. */
  function UnescapeHtml(s: string): string
    decreases |s|
  {
    if StartsWith(s, "&amp;") then ['&'] + UnescapeHtml(s[5..])
    else if StartsWith(s, "&lt;") then ['<'] + UnescapeHtml(s[4..])
    else if StartsWith(s, "&gt;") then ['>'] + UnescapeHtml(s[4..])
    else if s == [] then []
    else [s[0]] + UnescapeHtml(s[1..])
  }

  /** Escaping loses nothing: the text can be read back from its HTML form. */
  lemma {:induction false} UnescapeHtmlEsc(s: string)
    ensures UnescapeHtml(HtmlEsc(s)) == s
  {
    HtmlEscIsOnePass(s);
    UnescapeEscapeEach(s);
  }

  lemma {:induction false} UnescapeEscapeEach(s: string)
    ensures UnescapeHtml(EscapeEach(s)) == s
    decreases |s|
  {
    if s != [] {
      UnescapeEscapeEach(s[1..]);
      UnescapeEscapeChar(s[0], EscapeEach(s[1..]));
      assert s == [s[0]] + s[1..];
    }
  }

  /** One escaped character, whatever follows it, reads back as that character. */
  lemma UnescapeEscapeChar(c: char, rest: string)
    ensures UnescapeHtml(EscapeChar(c) + rest) == [c] + UnescapeHtml(rest)
  {
    var e := EscapeChar(c) + rest;
    assert e[|EscapeChar(c)|..] == rest;
    if c == '&' {
      assert StartsWith(e, "&amp;");
    } else if c == '<' {
      assert e[1] == 'l';
      assert StartsWith(e, "&lt;");
    } else if c == '>' {
      assert e[1] == 'g';
      assert !StartsWith(e, "&amp;") && !StartsWith(e, "&lt;");
      assert StartsWith(e, "&gt;");
    } else {
      assert e[0] == c;
      assert !StartsWith(e, "&amp;") && !StartsWith(e, "&lt;") && !StartsWith(e, "&gt;");
    }
  }

  // ---------------------------------------------------------------------------
  // kind_of
  // ---------------------------------------------------------------------------

  /** A node's drawing style: shape name, fill colour and stroke colour. */
  datatype Style = Style(shape: string, fill: string, stroke: string)

  const StartStyle := Style("stadium", "#e6ffe6", "#2e7d32")
  const EndStyle := Style("stadium", "#eeeeee", "#424242")
  const DecisionStyle := Style("diamond", "#fff9c4", "#f9a825")
  const DataStyle := Style("cylinder", "#e3f2fd", "#1565c0")
  const ErrorStyle := Style("rect", "#ffebee", "#c62828")
  const ProcessStyle := Style("rect", "#ffffff", "#333333")

  /** The rules, each on the id and the lower-cased label. */
  predicate IsEnd(id: string, l: string) {
    StartsWith(id, "end") || Contains(l, "done") || Contains(l, "success") || Contains(l, "fail")
  }

  predicate IsDecision(l: string) {
    Contains(l, "? ") || EndsWith(l, "?") || Contains(l, "?\"")
  }

  predicate IsData(l: string) {
    Contains(l, "data") || Contains(l, "store") || Contains(l, "queue") || Contains(l, "persist")
  }

  predicate IsError(l: string) {
    Contains(l, "error") || Contains(l, "dead letter")
  }

  /**
   * `kind_of`: the id `start` wins outright; otherwise the first rule that
   * matches decides, in the order end, decision, data, error, and a plain
   * process box is the default.
   */
  function KindOf(caption: string, id: string): (st: Style)
    ensures st.shape in {"rect", "stadium", "diamond", "cylinder"}
    ensures id == "start" ==> st == StartStyle
    ensures var l := ToAsciiLower(caption);
      && (st == EndStyle <==> id != "start" && IsEnd(id, l))
      && (st == DecisionStyle <==> id != "start" && !IsEnd(id, l) && IsDecision(l))
      && (st == DataStyle <==> id != "start" && !IsEnd(id, l) && !IsDecision(l) && IsData(l))
      && (st == ErrorStyle <==> id != "start" && !IsEnd(id, l) && !IsDecision(l) && !IsData(l) && IsError(l))
      && (st == ProcessStyle <==> id != "start" && !IsEnd(id, l) && !IsDecision(l) && !IsData(l) && !IsError(l))
  {
    var l := ToAsciiLower(caption);
    if id == "start" then StartStyle
    else if IsEnd(id, l) then EndStyle
    else if IsDecision(l) then DecisionStyle
    else if IsData(l) then DataStyle
    else if IsError(l) then ErrorStyle
    else ProcessStyle
  }

  /** Only the lower-cased label matters: a label and its lower-case form get the same style. */
  lemma KindOfIgnoresCase(caption: string, id: string)
    ensures KindOf(ToAsciiLower(caption), id) == KindOf(caption, id)
  {
    ToAsciiLowerIdempotent(caption);
  }
}
