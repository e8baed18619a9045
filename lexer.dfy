/**
 * The byte-scanning lexer (crates/graphrite-core/src/lexer.rs).
 *
 * The input is split into newline-inclusive lines, and each line is scanned
 * left to right. The scan is specified by the functions SplitLines, ScanFrom,
 * ScanLine and Tokens; the method Tokenize is the source's loop, proved to
 * compute Tokens. The lemmas after it state what the token list promises.
 * Every character of the input stands for one byte (ASCII text).
 */
module Lexer {
  import opened Wrappers
  import opened Text

  datatype TokenKind =
    | DirectionKw
    | Identifier(name: string)
    | StringLit(text: string)
    | ArrowFlow
    | ArrowCond
    | LBracket
    | RBracket
    | Pipe
    | Comment(text: string)
    | Newline
    | Eof

  /** A token with its 1-based line and column. */
  datatype Token = Token(kind: TokenKind, line: nat, col: nat)

  // ---------------------------------------------------------------------------
  // Lines: `str::split_inclusive('\n')`
  // ---------------------------------------------------------------------------

  /** The index of the first `\n` of `s`, or `|s|` when there is none. */
  function NewlineIndex(s: string): (k: nat)
    ensures k <= |s|
    ensures forall m :: 0 <= m < k ==> s[m] != '\n'
    ensures k < |s| ==> s[k] == '\n'
  {
    if s == [] || s[0] == '\n' then 0 else 1 + NewlineIndex(s[1..])
  }

  /**
   * A piece of split_inclusive: non-empty, with no `\n` except possibly its
   * last character, which is `\n` unless it is the final piece.
   */
  predicate IsLine(l: string, final: bool) {
    && l != []
    && (forall m :: 0 <= m < |l| - 1 ==> l[m] != '\n')
    && (!final ==> l[|l| - 1] == '\n')
  }

  predicate AreLines(lines: seq<string>) {
    forall k :: 0 <= k < |lines| ==> IsLine(lines[k], k == |lines| - 1)
  }

  function SplitLines(s: string): (lines: seq<string>)
    ensures AreLines(lines)
    decreases |s|
  {
    if s == [] then []
    else
      var k := NewlineIndex(s);
      if k == |s| then [s]
      else
        var rest := SplitLines(s[k + 1..]);
        assert forall m :: 0 <= m < |rest| ==> ([s[..k + 1]] + rest)[m + 1] == rest[m];
        [s[..k + 1]] + rest
  }

  function Join(lines: seq<string>): string {
    if lines == [] then [] else lines[0] + Join(lines[1..])
  }

  /** Splitting loses nothing: the lines put back together are the input. */
  lemma {:induction false} JoinSplitLines(s: string)
    ensures Join(SplitLines(s)) == s
    decreases |s|
  {
    if s != [] {
      var k := NewlineIndex(s);
      if k < |s| {
        JoinSplitLines(s[k + 1..]);
        assert s == s[..k + 1] + s[k + 1..];
      }
    }
  }

  /** Splitting well-formed lines put back together gives the same lines. */
  lemma {:induction false} SplitLinesJoin(lines: seq<string>)
    requires AreLines(lines)
    ensures SplitLines(Join(lines)) == lines
  {
    if lines != [] {
      var l, s := lines[0], Join(lines);
      assert AreLines(lines[1..]) by {
        forall k | 0 <= k < |lines[1..]|
          ensures IsLine(lines[1..][k], k == |lines[1..]| - 1)
        {
          assert lines[1..][k] == lines[k + 1];
        }
      }
      SplitLinesJoin(lines[1..]);
      assert s == l + Join(lines[1..]);
      var k := NewlineIndex(s);
      if |lines| == 1 {
        assert Join(lines[1..]) == [];
        assert s == l;
        if l[|l| - 1] == '\n' {
          assert k == |l| - 1;
          assert s[k + 1..] == [];
        } else {
          assert k == |s|;
        }
      } else {
        assert s[..|l|] == l;
        assert k == |l| - 1;
        assert s[k + 1..] == Join(lines[1..]);
        assert s[..k + 1] == l;
      }
    }
  }

  // ---------------------------------------------------------------------------
  // Scanning one line
  // ---------------------------------------------------------------------------

  /** The end of the run of identifier characters that starts at `j`. */
  function WordEnd(line: string, j: nat): (r: nat)
    requires j <= |line|
    ensures j <= r <= |line|
    ensures forall k :: j <= k < r ==> IsWordChar(line[k])
    ensures r == |line| || !IsWordChar(line[r])
    decreases |line| - j
  {
    if j < |line| && IsWordChar(line[j]) then WordEnd(line, j + 1) else j
  }

  /** What the string sub-scanner produces: the decoded text and where it stopped. */
  datatype Lit = Lit(text: string, stop: nat)

  /**
   * Decodes a string literal's body from index `j`: `\"` gives `"`, `\\`
   * gives `\`, any other character (a lone backslash included) is kept. The
   * scan stops at the first unescaped `"` or at the end of the line.
   */
  function StringBody(line: string, j: nat): (r: Lit)
    requires j <= |line|
    ensures j <= r.stop <= |line|
    ensures r.stop < |line| ==> line[r.stop] == '"'
    decreases |line| - j
  {
    if j == |line| || line[j] == '"' then Lit([], j)
    else if line[j] == '\\' && j + 1 < |line| && (line[j + 1] == '"' || line[j + 1] == '\\') then
      var rest := StringBody(line, j + 2);
      Lit([line[j + 1]] + rest.text, rest.stop)
    else
      var rest := StringBody(line, j + 1);
      Lit([line[j]] + rest.text, rest.stop)
  }

  /** How many backslashes stand right before index `k`, counting no further back than `j`. */
  function BackslashRun(line: string, j: nat, k: nat): (n: nat)
    requires j <= k <= |line|
    ensures n <= k - j
    decreases k
  {
    if k > j && line[k - 1] == '\\' then 1 + BackslashRun(line, j, k - 1) else 0
  }

  /** A run before `k` that does not reach back to `q` is the whole run; one that does goes on before `q`. */
  lemma {:induction false} RunSplit(line: string, p: nat, q: nat, k: nat)
    requires p <= q <= k <= |line|
    ensures BackslashRun(line, q, k) < k - q ==> BackslashRun(line, p, k) == BackslashRun(line, q, k)
    ensures BackslashRun(line, q, k) == k - q ==> BackslashRun(line, p, k) == (k - q) + BackslashRun(line, p, q)
    decreases k
  {
    if k > q && line[k - 1] == '\\' {
      RunSplit(line, p, q, k - 1);
    }
  }

  /** A run that reaches back to `q` starts with a backslash at `q`. */
  lemma {:induction false} RunReaches(line: string, q: nat, k: nat)
    requires q < k <= |line| && BackslashRun(line, q, k) == k - q
    ensures line[q] == '\\'
    decreases k
  {
    if k - 1 > q {
      RunReaches(line, q, k - 1);
    }
  }

  /**
   * The literal ends at the first unescaped quote: every `"` the body takes in
   * has an odd run of backslashes before it, and the `"` it stops at (if any)
   * has an even one.
   */
  lemma {:induction false} StringBodyStopsAtUnescapedQuote(line: string, j: nat)
    requires j <= |line|
    ensures var r := StringBody(line, j);
      && (forall k :: j <= k < r.stop && line[k] == '"' ==> BackslashRun(line, j, k) % 2 == 1)
      && (r.stop < |line| ==> BackslashRun(line, j, r.stop) % 2 == 0)
    decreases |line| - j
  {
    var r := StringBody(line, j);
    if j == |line| || line[j] == '"' {
    } else if line[j] == '\\' && j + 1 < |line| && (line[j + 1] == '"' || line[j + 1] == '\\') {
      StringBodyStopsAtUnescapedQuote(line, j + 2);
      assert r.stop == StringBody(line, j + 2).stop;
      EscapePairParity(line, j, r.stop);
    } else {
      StringBodyStopsAtUnescapedQuote(line, j + 1);
      assert r.stop == StringBody(line, j + 1).stop;
      PlainCharParity(line, j, r.stop);
    }
  }

  /** The parities after an escape pair at `j` hold from `j` too: the pair adds an even run, or none. */
  lemma EscapePairParity(line: string, j: nat, stop: nat)
    requires j + 2 <= stop <= |line| && line[j] == '\\' && (line[j + 1] == '"' || line[j + 1] == '\\')
    requires forall k :: j + 2 <= k < stop && line[k] == '"' ==> BackslashRun(line, j + 2, k) % 2 == 1
    requires stop < |line| ==> line[stop] == '"' && BackslashRun(line, j + 2, stop) % 2 == 0
    ensures forall k :: j <= k < stop && line[k] == '"' ==> BackslashRun(line, j, k) % 2 == 1
    ensures stop < |line| ==> BackslashRun(line, j, stop) % 2 == 0
  {
    assert BackslashRun(line, j, j + 1) == 1;
    assert BackslashRun(line, j, j + 2) % 2 == 0;
    forall k | j + 2 <= k <= stop && k < |line| && line[k] == '"'
      ensures BackslashRun(line, j, k) % 2 == BackslashRun(line, j + 2, k) % 2
    {
      RunSplit(line, j, j + 2, k);
    }
    ParityShift(line, j, j + 2, stop);
  }

  /**
   * The parities after a plain character at `j` hold from `j` too: a lone
   * backslash there is never followed by a run of backslashes or a quote.
   */
  lemma PlainCharParity(line: string, j: nat, stop: nat)
    requires j + 1 <= stop <= |line| && line[j] != '"'
    requires line[j] == '\\' ==> j + 1 == |line| || (line[j + 1] != '"' && line[j + 1] != '\\')
    requires forall k :: j + 1 <= k < stop && line[k] == '"' ==> BackslashRun(line, j + 1, k) % 2 == 1
    requires stop < |line| ==> line[stop] == '"' && BackslashRun(line, j + 1, stop) % 2 == 0
    ensures forall k :: j <= k < stop && line[k] == '"' ==> BackslashRun(line, j, k) % 2 == 1
    ensures stop < |line| ==> BackslashRun(line, j, stop) % 2 == 0
  {
    forall k | j + 1 <= k <= stop && k < |line| && line[k] == '"'
      ensures BackslashRun(line, j, k) % 2 == BackslashRun(line, j + 1, k) % 2
    {
      RunSplit(line, j, j + 1, k);
      if BackslashRun(line, j + 1, k) == k - (j + 1) && line[j] == '\\' && k > j + 1 {
        RunReaches(line, j + 1, k);
      }
    }
    ParityShift(line, j, j + 1, stop);
  }

  /** Parities of runs counted from `q` carry over to runs counted from `j` when they agree at every quote. */
  lemma ParityShift(line: string, j: nat, q: nat, stop: nat)
    requires j <= q <= stop <= |line|
    requires forall k :: j <= k < q && line[k] == '"' ==> BackslashRun(line, j, k) % 2 == 1
    requires forall k :: q <= k <= stop && k < |line| && line[k] == '"' ==>
      BackslashRun(line, j, k) % 2 == BackslashRun(line, q, k) % 2
    requires forall k :: q <= k < stop && line[k] == '"' ==> BackslashRun(line, q, k) % 2 == 1
    requires stop < |line| ==> line[stop] == '"' && BackslashRun(line, q, stop) % 2 == 0
    ensures forall k :: j <= k < stop && line[k] == '"' ==> BackslashRun(line, j, k) % 2 == 1
    ensures stop < |line| ==> BackslashRun(line, j, stop) % 2 == 0
  {
  }

  /**
   * A backslash that is not followed by `"` or `\` (or ends the line) is kept
   * as written, and decoding goes on right after it.
   */
  lemma StringBodyKeepsLoneBackslash(line: string, j: nat)
    requires j < |line| && line[j] == '\\'
    requires j + 1 == |line| || (line[j + 1] != '"' && line[j + 1] != '\\')
    ensures StringBody(line, j) == Lit(['\\'] + StringBody(line, j + 1).text, StringBody(line, j + 1).stop)
  {
  }

  /** `trim_end_matches('\n')`: drops every trailing `\n`. */
  function TrimEndNewlines(s: string): (r: string)
    ensures |r| <= |s| && r == s[..|r|]
    ensures forall k :: |r| <= k < |s| ==> s[k] == '\n'
    ensures r == [] || r[|r| - 1] != '\n'
  {
    if s != [] && s[|s| - 1] == '\n' then TrimEndNewlines(s[..|s| - 1]) else s
  }

  /** A scanned word is the `direction` keyword or an identifier. */
  function WordKind(word: string): TokenKind {
    if word == "direction" then DirectionKw else Identifier(word)
  }

  /** One round of the scan loop at index `i`: the token it emits, if any, and the next index. */
  datatype Step = Step(kind: Option<TokenKind>, next: nat)

  function ScanStep(line: string, i: nat): (st: Step)
    requires i < |line|
    ensures i < st.next <= |line|
  {
    var c := line[i];
    if c == ' ' || c == '\t' then Step(None, i + 1)
    else if c == '\n' then Step(Some(Newline), i + 1)
    else if c == '%' && i + 1 < |line| && line[i + 1] == '%' then
      Step(Some(Comment(TrimEndNewlines(line[i + 2..]))), |line|)
    else if c == '[' then Step(Some(LBracket), i + 1)
    else if c == ']' then Step(Some(RBracket), i + 1)
    else if c == '|' then Step(Some(Pipe), i + 1)
    else if c == '"' then
      var lit := StringBody(line, i + 1);
      Step(Some(StringLit(lit.text)), if lit.stop < |line| then lit.stop + 1 else |line|)
    else if c == '-' then
      if i + 2 < |line| && line[i + 1] == '-' && line[i + 2] == '>' then Step(Some(ArrowFlow), i + 3)
      else if i + 3 < |line| && line[i + 1] == '.' && line[i + 2] == '-' && line[i + 3] == '>' then
        Step(Some(ArrowCond), i + 4)
      else Step(None, i + 1)
    else if IsAsciiAlphabetic(c) then
      var j := WordEnd(line, i + 1);
      Step(Some(WordKind(line[i..j])), j)
    else Step(None, i + 1)
  }

  /** The tokens scanned from index `i` of a line to its end, on line `ln`. */
  function ScanFrom(line: string, i: nat, ln: nat): seq<Token>
    requires i <= |line|
    decreases |line| - i
  {
    if i == |line| then []
    else
      var st := ScanStep(line, i);
      Emitted(st, ln, i + 1) + ScanFrom(line, st.next, ln)
  }

  lemma ScanFromUnfold(line: string, i: nat, ln: nat)
    requires i < |line|
    ensures ScanFrom(line, i, ln) == Emitted(ScanStep(line, i), ln, i + 1) + ScanFrom(line, ScanStep(line, i).next, ln)
  {
  }

  /** The token a step emits at column `col`, if any. */
  function Emitted(st: Step, ln: nat, col: nat): seq<Token> {
    if st.kind.Some? then [Token(st.kind.value, ln, col)] else []
  }

  /** A line's tokens: the scan, then a synthetic col-1 Newline if the line has no `\n`. */
  function ScanLine(line: string, ln: nat): seq<Token> {
    ScanFrom(line, 0, ln) + if EndsWith(line, "\n") then [] else [Token(Newline, ln, 1)]
  }

  /** The tokens of consecutive lines, the first of them numbered `first`. */
  function ScanLines(lines: seq<string>, first: nat): seq<Token> {
    if lines == [] then []
    else ScanLines(lines[..|lines| - 1], first) + ScanLine(lines[|lines| - 1], first + |lines| - 1)
  }

  /** The whole token list: every line's tokens, then one Eof after the last line. */
  function Tokens(input: string): seq<Token> {
    var lines := SplitLines(input);
    ScanLines(lines, 1) + [Token(Eof, |lines| + 1, 1)]
  }

  /** What the parser relies on: the list ends with an Eof token, and no other token is Eof. */
  predicate Terminated(toks: seq<Token>) {
    toks != [] && toks[|toks| - 1].kind == Eof && forall k :: 0 <= k < |toks| - 1 ==> toks[k].kind != Eof
  }

  /**
   * A character at index `i` that begins a token: `\n`, a bracket, `|`, a
   * quote, an ASCII letter, `%%`, `-->` or `-.->`.
   */
  predicate StartsToken(line: string, i: nat)
    requires i < |line|
  {
    var c := line[i];
    || c in "\n[]|\""
    || IsAsciiAlphabetic(c)
    || StartsWith(line[i..], "%%")
    || StartsWith(line[i..], "-->")
    || StartsWith(line[i..], "-.->")
  }

  /**
   * A step emits nothing exactly when no token begins at `i` (spaces, tabs,
   * digits, `_`, a lone `-` or `%`, any other byte), and then it moves on by one.
   */
  lemma SkipsExactlyNonTokens(line: string, i: nat)
    requires i < |line|
    ensures ScanStep(line, i).kind.None? <==> !StartsToken(line, i)
    ensures ScanStep(line, i).kind.None? ==> ScanStep(line, i).next == i + 1
  {
    if i + 2 <= |line| { assert line[i..][..2] == line[i..i + 2]; }
    if i + 3 <= |line| { assert line[i..][..3] == line[i..i + 3]; }
    if i + 4 <= |line| { assert line[i..][..4] == line[i..i + 4]; }
  }

  /** Writes `s` as a literal body: `"` as `\"`, `\` as `\\`, all else as is. */
  function EscapeLiteral(s: string): (r: string)
    ensures |r| >= |s|
  {
    if s == [] then []
    else (if s[0] == '"' || s[0] == '\\' then ['\\', s[0]] else [s[0]]) + EscapeLiteral(s[1..])
  }

  /**
   * Decoding inverts escaping: the body of `"` + EscapeLiteral(s) + `"` reads
   * back as `s`, and the scan stops at the closing quote.
   */
  lemma {:induction false} StringBodyOfEscaped(pre: string, s: string, rest: string)
    ensures var line := pre + EscapeLiteral(s) + ['"'] + rest;
      StringBody(line, |pre|) == Lit(s, |pre| + |EscapeLiteral(s)|)
    decreases |s|
  {
    var line := pre + EscapeLiteral(s) + ['"'] + rest;
    if s != [] {
      var c := s[0];
      var head := if c == '"' || c == '\\' then ['\\', c] else [c];
      assert EscapeLiteral(s) == head + EscapeLiteral(s[1..]);
      assert line == (pre + head) + EscapeLiteral(s[1..]) + ['"'] + rest;
      StringBodyOfEscaped(pre + head, s[1..], rest);
      assert line[|pre|] == head[0];
      if |head| == 2 {
        assert line[|pre| + 1] == c;
      }
      assert s == [c] + s[1..];
    } else {
      assert line[|pre|] == '"';
    }
  }

  // ---------------------------------------------------------------------------
  // What a scanned token says about the text at its column
  // ---------------------------------------------------------------------------

  /**
   * `w` is a whole word at index `p`: it starts with an ASCII letter, has only
   * identifier characters, and is not followed by another one.
   */
  predicate IsWordAt(line: string, p: nat, w: string) {
    && w != [] && IsAsciiAlphabetic(w[0])
    && p + |w| <= |line| && line[p..p + |w|] == w
    && (forall k :: 0 <= k < |w| ==> IsWordChar(w[k]))
    && (p + |w| == |line| || !IsWordChar(line[p + |w|]))
  }

  /** The text of `line` at token `t`'s column is what the token stands for. */
  predicate Matches(line: string, t: Token) {
    && 1 <= t.col <= |line|
    && var p := t.col - 1;
    match t.kind
    case Newline => line[p] == '\n'
    case LBracket => line[p] == '['
    case RBracket => line[p] == ']'
    case Pipe => line[p] == '|'
    case StringLit(text) => line[p] == '"' && text == StringBody(line, p + 1).text
    case ArrowFlow => p + 3 <= |line| && line[p..p + 3] == "-->"
    case ArrowCond => p + 4 <= |line| && line[p..p + 4] == "-.->"
    case Comment(text) =>
      p + 2 <= |line| && line[p..p + 2] == "%%" && text == TrimEndNewlines(line[p + 2..])
    case DirectionKw => IsWordAt(line, p, "direction")
    case Identifier(name) => name != "direction" && IsWordAt(line, p, name)
    case Eof => false
  }

  /** Columns strictly increase along `toks`. */
  predicate ColumnsIncrease(toks: seq<Token>) {
    forall a, b :: 0 <= a < b < |toks| ==> toks[a].col < toks[b].col
  }

  /** A stretch of identifier characters, cut out of the line, has only identifier characters. */
  lemma WordCharsSlice(line: string, a: nat, b: nat)
    requires a <= b <= |line|
    requires forall k :: a <= k < b ==> IsWordChar(line[k])
    ensures forall k :: 0 <= k < b - a ==> IsWordChar(line[a..b][k])
  {
    forall k | 0 <= k < b - a ensures IsWordChar(line[a..b][k]) {
      assert line[a..b][k] == line[a + k];
    }
  }

  /** A maximal run of identifier characters from an ASCII letter at `i` is a whole word. */
  lemma WholeWord(line: string, i: nat, j: nat)
    requires i < j <= |line| && IsAsciiAlphabetic(line[i])
    requires forall k :: i <= k < j ==> IsWordChar(line[k])
    requires j == |line| || !IsWordChar(line[j])
    ensures IsWordAt(line, i, line[i..j])
  {
    var w := line[i..j];
    WordCharsSlice(line, i, j);
    assert w[0] == line[i];
    assert line[i..i + |w|] == w;
  }

  /** A word scanned from an ASCII letter at `i` is the whole word there. */
  lemma WordMatches(line: string, i: nat, ln: nat)
    requires i < |line| && IsAsciiAlphabetic(line[i])
    ensures Matches(line, Token(WordKind(line[i..WordEnd(line, i + 1)]), ln, i + 1))
  {
    var j := WordEnd(line, i + 1);
    var w := line[i..j];
    WholeWord(line, i, j);
    if w == "direction" {
      assert WordKind(w) == DirectionKw;
    } else {
      assert WordKind(w) == Identifier(w);
    }
  }

  /** The single-character tokens and the arrows stand for the text at their column. */
  lemma PunctuationMatches(line: string, i: nat, ln: nat)
    requires i < |line| && ScanStep(line, i).kind.Some?
    requires line[i] in "\n[]|-"
    ensures Matches(line, Token(ScanStep(line, i).kind.value, ln, i + 1))
  {
    if line[i] == '-' {
      if i + 2 < |line| && line[i + 1] == '-' && line[i + 2] == '>' {
        assert line[i..i + 3] == "-->";
      } else {
        assert line[i..i + 4] == "-.->";
      }
    }
  }

  /** A token that a step emits stands for the text at its column. */
  lemma StepMatches(line: string, i: nat, ln: nat)
    requires i < |line| && ScanStep(line, i).kind.Some?
    ensures Matches(line, Token(ScanStep(line, i).kind.value, ln, i + 1))
  {
    var c := line[i];
    if c in "\n[]|-" {
      PunctuationMatches(line, i, ln);
    } else if c == '%' && i + 1 < |line| && line[i + 1] == '%' {
      assert line[i..i + 2] == "%%";
    } else if c != '"' {
      WordMatches(line, i, ln);
    }
  }

  /**
   * Every token scanned from index `i` lies on line `ln`, at a column after `i`
   * within the line, stands for the text there, and columns strictly increase.
   */
  lemma {:induction false} ScanFromSound(line: string, i: nat, ln: nat)
    requires i <= |line|
    ensures forall t :: t in ScanFrom(line, i, ln) ==> t.line == ln && i < t.col && Matches(line, t)
    ensures ColumnsIncrease(ScanFrom(line, i, ln))
    decreases |line| - i
  {
    if i < |line| {
      var st := ScanStep(line, i);
      ScanFromUnfold(line, i, ln);
      ScanFromSound(line, st.next, ln);
      if st.kind.Some? {
        StepMatches(line, i, ln);
      }
    }
  }

  /** The col-1 Newline that closes a final line without `\n`. */
  predicate IsSynthetic(t: Token) {
    t.kind == Newline && t.col == 1
  }

  /** A token of a line either stands for text there or is its synthetic Newline. */
  predicate Located(line: string, t: Token) {
    Matches(line, t) || (IsSynthetic(t) && !EndsWith(line, "\n"))
  }

  /** Columns strictly increase along `toks`, except at a synthetic Newline. */
  predicate ColumnsIncreaseInLine(toks: seq<Token>) {
    forall a, b :: 0 <= a < b < |toks| ==> toks[a].col < toks[b].col || IsSynthetic(toks[b])
  }

  /** Every token of `toks` lies on line `ln` and is located in `line`. */
  ghost predicate LineLocated(line: string, ln: nat, toks: seq<Token>) {
    forall t :: t in toks ==> t.line == ln && Located(line, t)
  }

  /** Every token of a line lies on it, is located in it, and columns increase. */
  lemma ScanLineSound(line: string, ln: nat)
    ensures LineLocated(line, ln, ScanLine(line, ln))
    ensures ColumnsIncreaseInLine(ScanLine(line, ln))
  {
    ScanFromSound(line, 0, ln);
  }

  /** A literal left open on a line ending in `\n` takes that `\n` into its text. */
  lemma {:induction false} UnterminatedStringKeepsNewline(line: string, j: nat)
    requires j < |line| && line[|line| - 1] == '\n'
    requires StringBody(line, j).stop == |line|
    ensures EndsWith(StringBody(line, j).text, "\n")
    decreases |line| - j
  {
    var r := StringBody(line, j);
    if line[j] == '\\' && j + 1 < |line| && (line[j + 1] == '"' || line[j + 1] == '\\') {
      UnterminatedStringKeepsNewline(line, j + 2);
    } else if j + 1 < |line| {
      UnterminatedStringKeepsNewline(line, j + 1);
    }
  }

  /** The token kinds that consume a line's `\n` so that no Newline is emitted for it. */
  predicate SwallowsNewline(k: TokenKind) {
    k.Comment? || (k.StringLit? && EndsWith(k.text, "\n"))
  }

  /**
   * On a line whose only `\n` ends it, the scan from any index before the end
   * emits something, and its last token is the Newline for that `\n`, a
   * comment, or a string literal left open that took the `\n`.
   */
  lemma {:induction false} ScanFromLast(line: string, i: nat, ln: nat)
    requires IsLine(line, false) && i < |line|
    ensures var toks := ScanFrom(line, i, ln);
      toks != [] && (toks[|toks| - 1] == Token(Newline, ln, |line|) || SwallowsNewline(toks[|toks| - 1].kind))
    decreases |line| - i
  {
    var st := ScanStep(line, i);
    ScanFromUnfold(line, i, ln);
    if st.next < |line| {
      ScanFromLast(line, st.next, ln);
    } else if line[i] == '"' {
      UnterminatedStringKeepsNewline(line, i + 1);
    }
  }

  /** The facts about a line's scan that its Newline tokens depend on. */
  lemma ScanFromShape(line: string, i: nat, ln: nat)
    requires i <= |line|
    ensures forall t :: t in ScanFrom(line, i, ln) ==>
      i < t.col <= |line| && (t.kind == Newline ==> line[t.col - 1] == '\n')
    ensures ColumnsIncrease(ScanFrom(line, i, ln))
  {
    ScanFromSound(line, i, ln);
  }

  /**
   * Each line yields at most one Newline token, always its last token. A line
   * ending in `\n` yields it at that column unless a comment or an open string
   * literal consumed the `\n`; a final line without `\n` yields the synthetic
   * col-1 Newline.
   */
  lemma LineNewline(line: string, final: bool, ln: nat)
    requires IsLine(line, final)
    ensures var toks := ScanLine(line, ln);
      && toks != []
      && (forall k :: 0 <= k < |toks| - 1 ==> toks[k].kind != Newline)
      && (EndsWith(line, "\n") ==>
            toks[|toks| - 1] == Token(Newline, ln, |line|) || SwallowsNewline(toks[|toks| - 1].kind))
      && (!EndsWith(line, "\n") ==> toks[|toks| - 1] == Token(Newline, ln, 1))
  {
    var scanned := ScanFrom(line, 0, ln);
    ScanFromShape(line, 0, ln);
    if EndsWith(line, "\n") {
      assert IsLine(line, false);
      ScanFromLast(line, 0, ln);
      assert ScanLine(line, ln) == scanned;
      forall k | 0 <= k < |scanned| - 1 ensures scanned[k].kind != Newline {
        assert scanned[k] in scanned && scanned[k + 1] in scanned;
      }
    } else {
      forall k | 0 <= k < |scanned| ensures scanned[k].kind != Newline {
        assert scanned[k] in scanned;
      }
    }
  }

  /** Line numbers never decrease; within a line columns increase, but for a synthetic Newline. */
  predicate InSourceOrder(toks: seq<Token>) {
    forall a, b :: 0 <= a < b < |toks| ==>
      toks[a].line < toks[b].line
      || (toks[a].line == toks[b].line && (toks[a].col < toks[b].col || IsSynthetic(toks[b])))
  }

  /** Adding the last line's tokens keeps every token located in its own line. */
  lemma AppendLineLocated(prefix: seq<string>, last: string, first: nat, p: seq<Token>, l: seq<Token>)
    requires LinesLocated(prefix, first, p)
    requires LineLocated(last, first + |prefix|, l)
    ensures LinesLocated(prefix + [last], first, p + l)
  {
    var lines := prefix + [last];
    forall t | t in p + l
      ensures first <= t.line < first + |lines| && Located(lines[t.line - first], t)
    {
      if t in p {
        assert prefix[t.line - first] == lines[t.line - first];
      }
    }
  }

  /** Adding a later line's tokens, in order within that line, keeps the list in source order. */
  lemma AppendLineInOrder(p: seq<Token>, l: seq<Token>, ln: nat)
    requires InSourceOrder(p) && (forall t :: t in p ==> t.line < ln)
    requires (forall t :: t in l ==> t.line == ln) && ColumnsIncreaseInLine(l)
    ensures InSourceOrder(p + l)
  {
    var toks := p + l;
    forall a, b | 0 <= a < b < |toks|
      ensures toks[a].line < toks[b].line
        || (toks[a].line == toks[b].line && (toks[a].col < toks[b].col || IsSynthetic(toks[b])))
    {
      if b < |p| {
        assert toks[a] == p[a] && toks[b] == p[b];
      } else if a < |p| {
        assert toks[a] == p[a] && p[a] in p;
        assert toks[b] == l[b - |p|] && l[b - |p|] in l;
      } else {
        assert toks[a] == l[a - |p|] && toks[b] == l[b - |p|];
      }
    }
  }

  /** Every token of `toks` lies on one of `lines`, numbered from `first`, and is located in it. */
  ghost predicate LinesLocated(lines: seq<string>, first: nat, toks: seq<Token>) {
    forall t :: t in toks ==> first <= t.line < first + |lines| && Located(lines[t.line - first], t)
  }

  /** Adding the last line's tokens to those of the lines before it keeps both properties. */
  lemma AppendLine(prefix: seq<string>, last: string, first: nat, p: seq<Token>, l: seq<Token>)
    requires LinesLocated(prefix, first, p) && InSourceOrder(p)
    requires LineLocated(last, first + |prefix|, l) && ColumnsIncreaseInLine(l)
    ensures LinesLocated(prefix + [last], first, p + l) && InSourceOrder(p + l)
  {
    AppendLineLocated(prefix, last, first, p, l);
    AppendLineInOrder(p, l, first + |prefix|);
  }

  /** The tokens of lines numbered from `first` lie on those lines, located and in order. */
  lemma {:induction false} ScanLinesSound(lines: seq<string>, first: nat)
    ensures LinesLocated(lines, first, ScanLines(lines, first))
    ensures InSourceOrder(ScanLines(lines, first))
  {
    if lines != [] {
      var n := |lines|;
      var prefix, last := lines[..n - 1], lines[n - 1];
      var p, l := ScanLines(prefix, first), ScanLine(last, first + |prefix|);
      assert p + l == ScanLines(lines, first);
      assert lines == prefix + [last];
      ScanLinesSound(prefix, first);
      ScanLineSound(last, first + |prefix|);
      AppendLine(prefix, last, first, p, l);
    }
  }

  /** Every token before the Eof is one of the scanned tokens, located in its line. */
  lemma TokensLocated(input: string)
    ensures var toks, lines := Tokens(input), SplitLines(input);
      forall k :: 0 <= k < |toks| - 1 ==>
        toks[k].kind != Eof && 1 <= toks[k].line <= |lines| && Located(lines[toks[k].line - 1], toks[k])
  {
    var toks, lines := Tokens(input), SplitLines(input);
    var scanned := ScanLines(lines, 1);
    ScanLinesSound(lines, 1);
    forall k | 0 <= k < |toks| - 1
      ensures toks[k].kind != Eof && 1 <= toks[k].line <= |lines| && Located(lines[toks[k].line - 1], toks[k])
    {
      assert toks[k] == scanned[k] && scanned[k] in scanned;
    }
  }

  /** Appending the Eof, on the line after the last, keeps the tokens in source order. */
  lemma TokensInOrder(input: string)
    ensures InSourceOrder(Tokens(input))
  {
    var toks, lines := Tokens(input), SplitLines(input);
    var scanned := ScanLines(lines, 1);
    ScanLinesSound(lines, 1);
    assert forall t :: t in scanned ==> t.line <= |lines|;
    forall a, b | 0 <= a < b < |toks|
      ensures toks[a].line < toks[b].line
        || (toks[a].line == toks[b].line && (toks[a].col < toks[b].col || IsSynthetic(toks[b])))
    {
      assert toks[a] == scanned[a] && scanned[a] in scanned;
      if b < |scanned| {
        assert toks[b] == scanned[b];
      }
    }
  }

  /**
   * The whole token list: never empty, it ends with the one Eof token, on the
   * line after the last and at col 1; every other token is located in its
   * line of the input, and the list is in source order.
   */
  lemma TokensSound(input: string)
    ensures var toks, lines := Tokens(input), SplitLines(input);
      && toks != []
      && toks[|toks| - 1] == Token(Eof, |lines| + 1, 1)
      && (forall k :: 0 <= k < |toks| - 1 ==>
            toks[k].kind != Eof && 1 <= toks[k].line <= |lines| && Located(lines[toks[k].line - 1], toks[k]))
      && InSourceOrder(toks)
  {
    TokensLocated(input);
    TokensInOrder(input);
  }

  /** The lexer's output is what the parser needs: Eof last and nowhere else. */
  lemma TokensTerminated(input: string)
    ensures Terminated(Tokens(input))
  {
    TokensSound(input);
  }

  // ---------------------------------------------------------------------------
  // Lexer::tokenize
  // ---------------------------------------------------------------------------

  method Tokenize(input: string) returns (toks: seq<Token>)
    ensures toks == Tokens(input)
    ensures toks != [] && toks[|toks| - 1] == Token(Eof, |SplitLines(input)| + 1, 1)
    ensures forall k :: 0 <= k < |toks| - 1 ==> toks[k].kind != Eof
  {
    toks := [];
    var lineNo := 1;
    var lines := SplitLines(input);
    for n := 0 to |lines|
      invariant lineNo == n + 1
      invariant toks == ScanLines(lines[..n], 1)
    {
      var lineToks := TokenizeLine(lines[n], lineNo);
      ScanLinesSnoc(lines, n);
      toks := toks + lineToks;
      lineNo := lineNo + 1;
    }
    assert lines[..|lines|] == lines;
    toks := toks + [Token(Eof, lineNo, 1)];
    TokensTerminated(input);
  }

  /** Scanning one more line appends its tokens, numbered after the lines before it. */
  lemma ScanLinesSnoc(lines: seq<string>, n: nat)
    requires n < |lines|
    ensures ScanLines(lines[..n + 1], 1) == ScanLines(lines[..n], 1) + ScanLine(lines[n], n + 1)
  {
    assert lines[..n + 1][..n] == lines[..n];
  }

  /** The per-line loop of `tokenize`: scans one line with index `i`. */
  method TokenizeLine(line: string, lineNo: nat) returns (toks: seq<Token>)
    ensures toks == ScanLine(line, lineNo)
  {
    toks := [];
    var len := |line|;
    var i := 0;
    while i < len
      invariant i <= len
      invariant toks + ScanFrom(line, i, lineNo) == ScanFrom(line, 0, lineNo)
    {
      var kind, next := ScanToken(line, i);
      ScanFromPushed(line, i, lineNo, toks);
      if kind.Some? {
        toks := toks + [Token(kind.value, lineNo, i + 1)];
      }
      i := next;
    }
    if !EndsWith(line, "\n") {
      toks := toks + [Token(Newline, lineNo, 1)];
    }
  }

  /** Pushing a step's token, if any, moves it from the rest of the scan onto what was pushed. */
  lemma ScanFromPushed(line: string, i: nat, ln: nat, toks: seq<Token>)
    requires i < |line| && toks + ScanFrom(line, i, ln) == ScanFrom(line, 0, ln)
    ensures var st := ScanStep(line, i);
      (if st.kind.Some? then toks + [Token(st.kind.value, ln, i + 1)] else toks) + ScanFrom(line, st.next, ln)
        == ScanFrom(line, 0, ln)
  {
    var st := ScanStep(line, i);
    ScanFromUnfold(line, i, ln);
    assert toks + (Emitted(st, ln, i + 1) + ScanFrom(line, st.next, ln))
      == (toks + Emitted(st, ln, i + 1)) + ScanFrom(line, st.next, ln);
  }

  /**
   * One arm of the per-byte `match` in `tokenize`: the token it pushes, if
   * any, and the index it moves to.
   */
  method ScanToken(line: string, i: nat) returns (kind: Option<TokenKind>, next: nat)
    requires i < |line|
    ensures Step(kind, next) == ScanStep(line, i)
  {
    var len := |line|;
    var c := line[i];
    if c == ' ' || c == '\t' {
      kind, next := None, i + 1;
    } else if c == '\n' {
      kind, next := Some(Newline), i + 1;
    } else if c == '%' && i + 1 < len && line[i + 1] == '%' {
      var text := TrimEndNewlines(line[i + 2..]);
      kind, next := Some(Comment(text)), len;
    } else if c == '[' {
      kind, next := Some(LBracket), i + 1;
    } else if c == ']' {
      kind, next := Some(RBracket), i + 1;
    } else if c == '|' {
      kind, next := Some(Pipe), i + 1;
    } else if c == '"' {
      var s, j := ScanString(line, i + 1);
      kind, next := Some(StringLit(s)), if j < len then j + 1 else len;
    } else if c == '-' {
      if i + 2 < len && line[i + 1] == '-' && line[i + 2] == '>' {
        kind, next := Some(ArrowFlow), i + 3;
      } else if i + 3 < len && line[i + 1] == '.' && line[i + 2] == '-' && line[i + 3] == '>' {
        kind, next := Some(ArrowCond), i + 4;
      } else {
        kind, next := None, i + 1;
      }
    } else if IsAsciiAlphabetic(c) {
      var j := ScanWord(line, i + 1);
      var word := line[i..j];
      if word == "direction" {
        kind := Some(DirectionKw);
      } else {
        kind := Some(Identifier(word));
      }
      next := j;
    } else {
      kind, next := None, i + 1;
    }
  }

  /** Moving one decoded character from the rest of a literal onto its decoded prefix. */
  lemma DecodedPrefix(s: string, c: char, rest: string, whole: string)
    requires s + ([c] + rest) == whole
    ensures (s + [c]) + rest == whole
  {
    assert (s + [c]) + rest == s + ([c] + rest);
  }

  /** The string-literal loop: decodes from `start` up to the closing quote or the line's end. */
  method ScanString(line: string, start: nat) returns (s: string, j: nat)
    requires start <= |line|
    ensures Lit(s, j) == StringBody(line, start)
  {
    var len := |line|;
    j := start;
    s := "";
    while j < len
      invariant start <= j <= len
      invariant s + StringBody(line, j).text == StringBody(line, start).text
      invariant StringBody(line, j).stop == StringBody(line, start).stop
    {
      var ch := line[j];
      if ch == '"' {
        break;
      }
      if ch == '\\' && j + 1 < len {
        var nxt := line[j + 1];
        if nxt == '"' || nxt == '\\' {
          DecodedPrefix(s, nxt, StringBody(line, j + 2).text, StringBody(line, start).text);
          s := s + [nxt];
          j := j + 2;
          continue;
        }
      }
      DecodedPrefix(s, ch, StringBody(line, j + 1).text, StringBody(line, start).text);
      s := s + [ch];
      j := j + 1;
    }
  }

  /** The identifier loop: advances over letters, digits and `_` from `start`. */
  method ScanWord(line: string, start: nat) returns (j: nat)
    requires start <= |line|
    ensures j == WordEnd(line, start)
  {
    var len := |line|;
    j := start;
    while j < len
      invariant start <= j <= len
      invariant WordEnd(line, j) == WordEnd(line, start)
    {
      if IsWordChar(line[j]) {
        j := j + 1;
      } else {
        break;
      }
    }
  }
}
