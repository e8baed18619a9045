# Graphrite front end, in Dafny

This project models the front end of Graphrite, a small language for flow
diagrams, together with the pure render helpers of its command-line tool.
The model has these parts:

- **Lexer** (`lexer.dfy`). `Lexer::tokenize` splits its input into
  newline-inclusive lines and scans each line byte by byte. It emits these
  tokens:
  - identifiers and the `direction` keyword;
  - string literals with `\"` and `\\` escapes;
  - `-->` and `-.->` arrows;
  - `[`, `]` and `|`;
  - `%%` comments;
  - Newline tokens, and one final Eof token.

  The functions `SplitLines`, `ScanStep`, `ScanFrom`, `ScanLine` and `Tokens`
  specify the scan. The methods `Tokenize`, `TokenizeLine`, `ScanToken`,
  `ScanString` and `ScanWord` are the source's index loops, each proved equal
  to its function. The lemmas then state what a token list promises:
  - where each token stands in the text;
  - source order;
  - one Eof, which comes last;
  - which lines emit a Newline.
- **Parser** (`parser.dfy`). The class `Parser` holds the token list `toks`
  and the cursor `idx` that `Bump` moves. Each of its methods is proved to
  compute one of the index-level reference functions:
  - `LeadingComments`;
  - `DirectionStep`;
  - `BodyStep`;
  - `BodyFrom`;
  - `ParseTokens`.

  Lemmas about these functions state:
  - when a parse succeeds;
  - which diagnostics a failed parse reports;
  - where the title comes from;
  - that nodes and edges keep source order.
- **AST and diagnostics** (`ast.dfy`, `errors.dfy`). These are the records of
  `ast.rs` and `error.rs`, together with the serialised names of the two
  enumerations.
- **Render helpers** (`render.dfy`, `layout.dfy`). These model:
  - `render_dot`, as a string-building method proved equal to `Dot`;
  - `htmlesc`;
  - `kind_of`;
  - the integer layer assignment of `layered_positions`. It is a queue
    algorithm over maps: `BuildGraph` and `InitialQueue` (together `Graph`),
    `AssignLayers` (together with `Graph`, `LayerMap`) and `Buckets`,
    composed by `Layers`. When some node has no counted edge coming in, the
    queue starts with exactly those nodes and the loop is Kahn's algorithm.
    In that case each processed node is processed exactly once and keeps
    its layer afterwards, so every counted edge from a processed node goes
    at least one layer deeper, and every predecessor of a processed node is
    processed. If the counted edges have no cycle, every node is processed.
    In every case a node has a layer exactly when it is processed or has a
    processed predecessor. That layer is the largest of 0 and one more than
    the layer each processed predecessor was processed at, and an
    in-degree-0 node ends at layer 0.
- **Support** (`wrappers.dfy`, `text.dfy`). These hold `Option` and `Result`,
  plus the ASCII string operations the source calls from the Rust standard
  library (`trim_start`, `trim`, `trim_start_matches`, `contains`,
  `to_ascii_lowercase`, `replace`).

The input text is a `string` in which every character stands for one byte.

## Model

| member | source | states |
|---|---|---|
| Text.TrimStart | crates/graphrite-core/src/parser.rs:29 | the result is a suffix of the input; everything removed is whitespace; the result does not start with whitespace |
| Text.Trim | crates/graphrite-core/src/parser.rs:30 | the result is the slice of the input that starts after its leading whitespace; everything removed before and after it is whitespace; the result neither starts nor ends with whitespace |
| Text.TrimStartMatches | crates/graphrite-core/src/parser.rs:30 | the result is a suffix of the input and no longer starts with the prefix |
| Text.TrimStartMatchesStrips | crates/graphrite-core/src/parser.rs:30 | only whole copies of the prefix are removed: the input is n copies of the prefix followed by the result |
| Text.Contains | crates/graphrite-cli/src/main.rs:26 | true exactly when the pattern occurs at some index of the text |
| Text.ToAsciiLower | crates/graphrite-cli/src/main.rs:26 | the result has the same length, with each character lower-cased on its own |
| Text.ToAsciiLowerIdempotent | crates/graphrite-cli/src/main.rs:26 | lower-casing twice gives the same result as lower-casing once |
| Text.ReplaceChar | crates/graphrite-cli/src/main.rs:72 | the replaced character is gone unless the replacement contains it; any character in neither is kept exactly when it was in the input |
| Ast.DirectionName | crates/graphrite-core/src/ast.rs:20-25 | a direction serialises as "LR" or "TD" |
| Ast.DirectionFromName | crates/graphrite-core/src/ast.rs:20-25 | only "LR" and "TD" name a direction, and that direction's name is the input |
| Ast.DirectionNameRoundTrip | crates/graphrite-core/src/ast.rs:20-25 | reading a direction's name gives the direction back |
| Ast.EdgeKindName | crates/graphrite-core/src/ast.rs:40-45 | an edge kind serialises in lower case, as "flow" or "conditional" |
| Ast.EdgeKindFromName | crates/graphrite-core/src/ast.rs:40-45 | only "flow" and "conditional" name an edge kind, and that kind's name is the input |
| Ast.EdgeKindNameRoundTrip | crates/graphrite-core/src/ast.rs:40-45 | reading an edge kind's name gives the kind back |
| Lexer.SplitLines | crates/graphrite-core/src/lexer.rs:25 | every piece is non-empty and has no `\n` except as its last character; every piece but the last ends in `\n` |
| Lexer.JoinSplitLines | crates/graphrite-core/src/lexer.rs:25 | concatenating the pieces gives back the input |
| Lexer.SplitLinesJoin | crates/graphrite-core/src/lexer.rs:25 | splitting a concatenation of well-formed lines gives back those lines |
| Lexer.WordEnd | crates/graphrite-core/src/lexer.rs:75-79 | the identifier run is maximal: all its characters are letters, digits or `_`, and the next one is not |
| Lexer.StringBody | crates/graphrite-core/src/lexer.rs:47-58 | the literal stops at a `"` or at the end of the line |
| Lexer.StringBodyStopsAtUnescapedQuote | crates/graphrite-core/src/lexer.rs:46-58 | the literal ends at the first unescaped quote: every `"` it takes in has an odd run of backslashes before it, and the `"` it stops at has an even run |
| Lexer.StringBodyKeepsLoneBackslash | crates/graphrite-core/src/lexer.rs:51-56 | a backslash not followed by `"` or `\` is kept as written, and decoding goes on right after it |
| Lexer.TrimEndNewlines | crates/graphrite-core/src/lexer.rs:37 | the result is a prefix of the input, everything removed is `\n`, and the result does not end in `\n` |
| Lexer.ScanStep | crates/graphrite-core/src/lexer.rs:29-87 | each round of the scan loop strictly advances and stays within the line |
| Lexer.SkipsExactlyNonTokens | crates/graphrite-core/src/lexer.rs:32-86 | a byte emits nothing exactly when no token starts there, and then the scan moves on by one byte |
| Lexer.StepMatches | crates/graphrite-core/src/lexer.rs:32-86 | each token emitted stands for the text at its column: the punctuation, arrow, comment, literal or maximal word; `direction` is the keyword and any other word an identifier |
| Lexer.StringBodyOfEscaped | crates/graphrite-core/src/lexer.rs:45-60 | decoding a literal written with `\"` and `\\` escapes gives back the text, and the literal ends at the closing quote |
| Lexer.UnterminatedStringKeepsNewline | crates/graphrite-core/src/lexer.rs:49-60 | a literal left open on a line ending in `\n` takes that `\n` into its text |
| Lexer.ScanFromSound | crates/graphrite-core/src/lexer.rs:29-88 | the scanned tokens lie on their line, match the text at their column, and have strictly increasing columns |
| Lexer.ScanLineSound | crates/graphrite-core/src/lexer.rs:25-90 | a line's tokens are located in it, and columns increase except at the synthetic col-1 Newline |
| Lexer.ScanFromLast | crates/graphrite-core/src/lexer.rs:34-60 | on a line ending in `\n`, the last token is the Newline at that `\n`, a comment, or a literal left open that took the `\n` |
| Lexer.LineNewline | crates/graphrite-core/src/lexer.rs:89 | no Newline comes before a line's last token; a line without `\n` ends with the synthetic Newline at col 1 |
| Lexer.ScanLinesSound | crates/graphrite-core/src/lexer.rs:25-91 | line numbers stay within range; tokens are located on their line and come in source order |
| Lexer.TokensLocated | crates/graphrite-core/src/lexer.rs:22-94 | no token before the last is Eof, and each lies on an existing line and is located in it |
| Lexer.TokensInOrder | crates/graphrite-core/src/lexer.rs:22-94 | line numbers never decrease, and within a line columns increase except at the synthetic Newline |
| Lexer.TokensSound | crates/graphrite-core/src/lexer.rs:22-94 | the list is non-empty and ends with Eof at line (number of lines + 1), col 1; no other Eof appears; every other token is located in its line, in source order |
| Lexer.TokensTerminated | crates/graphrite-core/src/lexer.rs:92 | the lexer's output ends with its only Eof |
| Lexer.Tokenize | crates/graphrite-core/src/lexer.rs:22-94 | the nested loops compute Tokens(input): one Eof, last |
| Lexer.TokenizeLine | crates/graphrite-core/src/lexer.rs:26-89 | the per-line loop gives that line's scan plus the synthetic Newline |
| Lexer.ScanToken | crates/graphrite-core/src/lexer.rs:30-87 | each arm of the byte `match` is one step of the reference scan |
| Lexer.ScanString | crates/graphrite-core/src/lexer.rs:47-58 | the string loop's text and stop index are those of the reference decoding |
| Lexer.ScanWord | crates/graphrite-core/src/lexer.rs:75-79 | the identifier loop stops at the end of the maximal word |
| Parser.BumpIndex | crates/graphrite-core/src/parser.rs:18 | the cursor stays in bounds: it moves one step unless it is on Eof |
| Parser.SkipNewline | crates/graphrite-core/src/parser.rs:20 | it moves exactly when it is on a Newline token |
| Parser.LineEnd | crates/graphrite-core/src/parser.rs:79 | it stops at the first Newline or Eof at or after the start |
| Parser.DiagramTitle | crates/graphrite-core/src/parser.rs:29-30 | a comment sets a title exactly when its whitespace-trimmed text starts with `Diagram:`; the title is trimmed |
| Parser.DiagramTitleContent | crates/graphrite-core/src/parser.rs:29-30 | the trimmed comment is one or more back-to-back `Diagram:` followed by a rest that does not start with another, and the title is that rest, trimmed |
| Parser.LeadingComments | crates/graphrite-core/src/parser.rs:28-35 | the comment loop ends on the first non-comment token, within bounds |
| Parser.DirectionStep | crates/graphrite-core/src/parser.rs:36-46 | a direction is set exactly when `direction NAME` is present; at most one E0001, either "Missing" or "Invalid" |
| Parser.ArrowKind | crates/graphrite-core/src/parser.rs:70 | `-->` gives Flow, `-.->` gives Conditional, and any other token gives no edge |
| Parser.NodeDecl | crates/graphrite-core/src/parser.rs:61-66 | one node, with the quoted label or ""; the diagnostics are exactly E0003 if the label is not a string, then E0010 if `]` is missing, each at most once; the statement resumes after the `]`, or where it was missing; no diagnostic exactly when the declaration is `id["label"]`; no edge |
| Parser.BodyStep | crates/graphrite-core/src/parser.rs:49-96 | each statement strictly advances the cursor within bounds; only a declaration reports diagnostics, and it is NodeDecl; a node exactly at `id[`, with its id and caption; an edge exactly at `id ARROW id`, with those ids and that kind, resuming at the end of the line; other identifiers and arrows skip to the end of the line, a comment skips its newline, and any other token moves on by one |
| Parser.BodyFrom | crates/graphrite-core/src/parser.rs:47-120 | the body reports only E0003 and E0010 |
| Parser.BodyDiagnosticsInOrder | crates/graphrite-core/src/parser.rs:47-120 | the body's diagnostics are those of the node declarations the body loop meets, declaration by declaration in source order, each as NodeDecl states them |
| Parser.BodyDiagnostics | crates/graphrite-core/src/parser.rs:47-120 | the body reports nothing exactly when every node declaration the body loop meets is `id["label"]` |
| Parser.ParseAccepts | crates/graphrite-core/src/parser.rs:22-123 | a token list parses exactly when its direction names LR or TD and every node declaration in the body is `id["label"]` |
| Parser.ParseTokens | crates/graphrite-core/src/parser.rs:22-123 | Ok exactly when the direction pair is valid and the body reported nothing; on Ok, version "1", the leading comments' metadata, and the body's nodes and edges |
| Parser.ParseDirection | crates/graphrite-core/src/parser.rs:36-40 | on Ok, the document's direction is the one named on the `direction` line: LR for `LR`, TD for `TD` |
| Parser.ParseErrors | crates/graphrite-core/src/parser.rs:36-121 | a failed parse reports at least one diagnostic, only E0001, E0003 and E0010; "Missing direction" exactly when the pair is absent; "Invalid direction" exactly when the name is neither LR nor TD; the body's diagnostics come last, in order |
| Parser.LastTitleWins | crates/graphrite-core/src/parser.rs:28-35 | with no title the metadata is unchanged; otherwise the last title wins |
| Parser.LeadingCommentsApplyTitles | crates/graphrite-core/src/parser.rs:28-35 | the comment loop applies each leading comment's title in order |
| Parser.TitleFromLastDiagramComment | crates/graphrite-core/src/parser.rs:28-35 | the title comes from the last leading `Diagram:` comment; with none, the metadata is left as it was |
| Parser.NodesInSourceOrder | crates/graphrite-core/src/parser.rs:61-66 | the k-th node is the one the k-th `id[` the loop meets declares, with its id, the quoted label or "" as caption, and no span; positions increase |
| Parser.EdgesInSourceOrder | crates/graphrite-core/src/parser.rs:69-79 | the k-th edge comes from the k-th `id ARROW id` the loop meets, with those ids and the arrow's kind |
| Parser.UnquotedLabelExample | crates/graphrite-core/src/parser.rs:64-65 | `a[unquoted]` fails with exactly E0003 then E0010 |
| Parser.UndeclaredEndpointsExample | crates/graphrite-core/src/parser.rs:69-79 | an edge between undeclared ids is accepted: there is no reference check |
| Parser.Parser.constructor | crates/graphrite-core/src/parser.rs:13 | the parser starts at index 0 on the given tokens |
| Parser.Parser.Peek | crates/graphrite-core/src/parser.rs:17 | the current token is in the list, and it is Eof exactly at the last index |
| Parser.Parser.Bump | crates/graphrite-core/src/parser.rs:18 | the cursor moves as BumpIndex says and never passes Eof |
| Parser.Parser.ExpectNewline | crates/graphrite-core/src/parser.rs:20 | the cursor moves as SkipNewline says |
| Parser.Parser.SkipLine | crates/graphrite-core/src/parser.rs:79 | the skip-to-line-end loop leaves the cursor at LineEnd |
| Parser.Parser.Statement | crates/graphrite-core/src/parser.rs:49-96 | one round of the body loop: the new cursor and what was found are BodyStep's |
| Parser.Parser.Declaration | crates/graphrite-core/src/parser.rs:61-66 | the node-declaration branch moves the cursor and reports what NodeDecl says |
| Parser.Parser.EdgeOrSkip | crates/graphrite-core/src/parser.rs:67-88 | the edge branch, or the skip to the line's end when no edge is there, is one BodyStep |
| Parser.Parser.Comments | crates/graphrite-core/src/parser.rs:28-35 | the leading-comment loop computes LeadingComments |
| Parser.Parser.DirectionLineAt | crates/graphrite-core/src/parser.rs:36-46 | the direction match computes DirectionStep |
| Parser.Parser.Body | crates/graphrite-core/src/parser.rs:47-120 | the body loop terminates and computes BodyFrom |
| Parser.Parser.Document | crates/graphrite-core/src/parser.rs:22-123 | `document` computes ParseTokens on the parser's tokens |
| Parser.Parser.Parse | crates/graphrite-core/src/parser.rs:11-15 | `parse` is the lexer followed by `document` |
| Render.EscapeQuotes | crates/graphrite-cli/src/main.rs:24 | every `"` in the escaped label is preceded by a backslash |
| Render.UnescapeEscapeQuotes | crates/graphrite-cli/src/main.rs:24 | the quote escaping loses nothing: undoing it gives the label back |
| Render.Arrow | crates/graphrite-cli/src/main.rs:24 | both edge kinds print as `->` |
| Render.DotLines | crates/graphrite-cli/src/main.rs:24 | a header, one line per node, one line per edge, and a footer |
| Render.DotFrame | crates/graphrite-cli/src/main.rs:24 | for every document, the output starts with `digraph G{` and ends with `}` |
| Render.RenderDot | crates/graphrite-cli/src/main.rs:24 | the string-building loops produce Dot(doc) |
| Render.DotLayout | crates/graphrite-cli/src/main.rs:24 | when no label or id contains `\n`, the output's lines are exactly the header, the node lines in order, the edge lines in order and the footer |
| Render.HtmlEsc | crates/graphrite-cli/src/main.rs:72 | the output contains no `<` and no `>` |
| Render.HtmlEscIsOnePass | crates/graphrite-cli/src/main.rs:72 | the three chained replacements equal a single pass escaping each character on its own, so each `&` becomes exactly `&amp;` |
| Render.UnescapeHtmlEsc | crates/graphrite-cli/src/main.rs:72 | decoding the three entities gives back the original text |
| Render.KindOf | crates/graphrite-cli/src/main.rs:26 | id `start` always gives the start style; otherwise the first matching rule decides, in the order end, decision, data, error, process; the shape is one of four |
| Render.KindOfIgnoresCase | crates/graphrite-cli/src/main.rs:26 | only the lower-cased label matters |
| Layout.Insert | crates/graphrite-cli/src/main.rs:33-34 | inserting into a sorted key list keeps it sorted and adds exactly the new key |
| Layout.SortedIds | crates/graphrite-cli/src/main.rs:33-34 | the map keys come in ascending order and are exactly the declared ids |
| Layout.SortedDistinct | crates/graphrite-cli/src/main.rs:33-34 | sorted key lists have no duplicates |
| Layout.LessTransitive | crates/graphrite-cli/src/main.rs:33 | the string key order is transitive |
| Layout.SuccessorsAreCounted | crates/graphrite-cli/src/main.rs:35 | an adjacency entry comes from an edge whose two endpoints are declared, and it counts toward its target's in-degree |
| Layout.DeclareNodes | crates/graphrite-cli/src/main.rs:34 | one entry per declared id, each with no successor and a count of 0 |
| Layout.CountEdges | crates/graphrite-cli/src/main.rs:35 | each edge whose endpoints are both declared adds its target to its source's successors and one to its target's count |
| Layout.BuildGraph | crates/graphrite-cli/src/main.rs:34-35 | the keys are the declared ids; the successors and in-degrees count only edges whose two endpoints are declared |
| Layout.ZeroIds | crates/graphrite-cli/src/main.rs:37 | exactly the in-degree-0 ids, in key order |
| Layout.InitialQueue | crates/graphrite-cli/src/main.rs:37-38 | the in-degree-0 ids in id order; if there are none, the first declared node; if there are no nodes, nothing |
| Layout.SumOverDecrement | crates/graphrite-cli/src/main.rs:40 | decrementing one positive in-degree lowers the total by one |
| Layout.Relax | crates/graphrite-cli/src/main.rs:40 | a successor's layer is raised to at least layer(u)+1 and no layer drops; an in-degree is decremented only when positive; a node is enqueued exactly when its count reaches 0; the termination measure does not grow; the new state is RelaxOne of the old |
| Layout.Visit | crates/graphrite-cli/src/main.rs:40 | the inner loop's counts, layers and queue are RelaxAll of the old ones over u's successors; every successor has layer at least layer(u)+1; no layer drops; everything already queued stays queued |
| Layout.RelaxAllCounts | crates/graphrite-cli/src/main.rs:40 | over a successor list, each count drops by the number of edges into it, never below 0; the old queue stays in front, and exactly the nodes whose count falls from positive to 0 are queued after it, once each |
| Layout.RelaxAllLayers | crates/graphrite-cli/src/main.rs:40 | over a successor list, every successor ends at the larger of its old layer and layer(u)+1; every other layer is unchanged |
| Layout.AssignLayers | crates/graphrite-cli/src/main.rs:39-42 | the queue loop terminates; every id first queued is processed; each processed node keeps at least the layer it had when taken from the queue (0 if it had none), and its successors end at least one layer above that; when the queue starts with exactly the in-degree-0 nodes, each processed node ends at exactly that layer, every successor of a processed node ends at least one layer above it, every unprocessed node has an unprocessed predecessor, and every predecessor of a processed node is processed; in every case exactly the processed nodes and their successors have a layer, each 0 or one more than a processed predecessor's processing layer |
| Layout.EdgesIntoProcess | crates/graphrite-cli/src/main.rs:40 | processing a node removes exactly its outgoing edges from the count of edges coming from unprocessed nodes, which is never smaller than that number |
| Layout.InDegreeEdgesInto | crates/graphrite-cli/src/main.rs:34-35 | before any node is processed, the count of edges coming from unprocessed nodes is the in-degree |
| Layout.KahnStep | crates/graphrite-cli/src/main.rs:40-41 | one round of the queue loop keeps Kahn's bookkeeping: counters count the edges from unprocessed nodes; the queue holds unprocessed nodes of counter 0, each once; every other unprocessed node has a positive counter; processed nodes keep the layer they were processed at |
| Layout.ExactStep | crates/graphrite-cli/src/main.rs:39-41 | one round of the queue loop, in any queue order, keeps the layer map exact: the nodes with a layer are the processed ones and their successors, and each layer is 0 or one more than the layer a processed predecessor was processed at |
| Layout.ExactKeys | crates/graphrite-cli/src/main.rs:40-41 | processing a node gives a layer to it and its successors and to no other node |
| Layout.ExactValues | crates/graphrite-cli/src/main.rs:40-41 | after processing `u` at `lu`, a raised successor sits at exactly `lu + 1` and every other layer keeps a processed predecessor as witness |
| Layout.KahnClosed | crates/graphrite-cli/src/main.rs:40-41 | a processed node's counter is 0, so every node with a counted edge into it is processed |
| Layout.ExactInDoc | crates/graphrite-cli/src/main.rs:39-42 | the exact layer map in terms of the document's counted edges; a processed in-degree-0 node is at layer 0 |
| Layout.SourcesStart | crates/graphrite-cli/src/main.rs:36-38 | when the queue is the in-degree-0 ids, it holds each of them once and the counters count edges |
| Layout.Graph | crates/graphrite-cli/src/main.rs:32-38 | the adjacency, in-degrees and first queue of the declared nodes; when some node has in-degree 0, the queue holds exactly those nodes, each once |
| Layout.OneBucketPerNode | crates/graphrite-cli/src/main.rs:44 | every declared node is in the bucket of its layer, where layer 0 is the default, and in no other bucket |
| Layout.BucketMembers | crates/graphrite-cli/src/main.rs:44 | a bucket holds exactly the declared ids of that layer |
| Layout.Buckets | crates/graphrite-cli/src/main.rs:43-44 | one bucket per layer in use, holding that layer's ids in declaration order |
| Layout.TopologicalHasSource | crates/graphrite-cli/src/main.rs:37-38 | a graph whose counted edges have no cycle, given as an order they all go forward in, has a node of in-degree 0 |
| Layout.ProcessedAt | crates/graphrite-cli/src/main.rs:39-42 | if every unprocessed node has an unprocessed predecessor, no node of a graph without a cycle is unprocessed |
| Layout.SourcesEnd | crates/graphrite-cli/src/main.rs:39-42 | after the loop started from the sources, each unprocessed declared node has an unprocessed declared predecessor, and in a graph without a cycle none is left |
| Layout.LayerMap | crates/graphrite-cli/src/main.rs:32-42 | layers only for declared ids; every in-degree-0 node is processed, and at least one node when there are any; each successor of a processed node is at least one layer above the layer its source was processed at; when some node has in-degree 0: each processed node keeps exactly its processing layer, every counted edge from a processed node goes at least one layer deeper, an unprocessed node waits on an unprocessed one, and every predecessor of a processed node is processed; in a graph without a cycle every declared node is processed; in every case each in-degree-0 node is at layer 0, exactly the processed nodes and those with a processed predecessor have a layer, and each layer is 0 or one more than a processed predecessor's processing layer, so with the lower bound it is the largest of these |
| Layout.Layers | crates/graphrite-cli/src/main.rs:30-44 | LayerMap's statement of the layer map, then the buckets, each node in exactly the bucket of its layer |

## Left out

- Input and output of the command-line tool: argument parsing, `read_input`, `print_pretty`, JSON printing and the `main` dispatch with its exit codes (crates/graphrite-cli/src/main.rs:1-22, 74).
- SVG rendering. `render_svg`, `render_shape` and the f32 coordinates of `layered_positions` (crates/graphrite-cli/src/main.rs:28, 45-70) are floating-point drawing code. Only the integer layer map and its buckets are modelled.
- serde and thiserror derives, apart from the serialised names of Direction and EdgeKind. The display of `GraphriteError::Message` is its text; the model keeps the record and does not model formatting.
- Non-ASCII input. The lexer casts each byte to `char`, so multi-byte UTF-8 sequences are not modelled: every character of a model `string` stands for one byte. `trim` and `trim_start` are modelled as ASCII-whitespace trimming.
- Spans. The parser sets every span to `None`, and so does the model. The lexer's line and column numbers are modelled.
- Checks the code does not perform: snake_case ids (E0100), line length (E0300), dangling references and orphans (E0201-E0203), and source spans in diagnostics. parser.rs has none of them, so the model has none. The project's documentation and some tests expect them; the code does not produce them.
- Unreachable branches of `document`. The `None` lookahead at parser.rs:86-88 cannot happen, because Eof is always last. The arms at 91-92 are already handled at 49-51. The identifier test at 99-116 cannot match inside the catch-all arm. The model's BodyStep leaves them out.
- Parser.UnquotedLabelExample, Parser.UndeclaredEndpointsExample: stated on token lists rather than on source text, so that the proofs stay small.
- Layout.RelaxAllCounts: states which nodes join the queue and how often, as a multiset. It does not state their order, which is the order in which their counts reach 0.
- Layout.Layers: fixes each layer relative to the processed nodes: the largest of 0 and one more than each processed predecessor's processing layer. When some node has in-degree 0, every predecessor of a processed node is processed, so a processed node's layer is the length of the longest counted path to it from such a node, whatever the queue order; the model does not define the longest path as a separate function. A node that is neither processed nor has a processed predecessor has no layer and falls into bucket 0 through the default.
- Layout.LayerMap: when no node has in-degree 0, the queue starts with the first declared node, which has incoming edges. A node can then be processed more than once. For that case the layers are stated relative to each node's last processing layer: each successor ends at least one layer above it, and each layer is the largest of 0 and these values plus one. A processed node's own final layer is stated only to be at least its last processing layer.
- Layout.AssignLayers: outside the case where the queue starts with exactly the in-degree-0 nodes, the bound relative to a node's layer is stated for the layer it had when taken from the queue, as Visit states it for one visit. Its final layer can be higher.
- Layout.AssignLayers: the loop body is split into the methods Visit and Relax. The map updates are the same as in the source.
- Layout.BuildGraph: its two loops are the methods DeclareNodes and CountEdges. Parser.Parser.Statement likewise hands its identifier case to Declaration and EdgeOrSkip. The steps are the same as in the source.
- Documentation versus code. The code keeps the last leading `Diagram:` comment as the title, and the model follows the code. Likewise a comment line, or a line whose string literal is left open, emits no Newline token; the model follows the code.
