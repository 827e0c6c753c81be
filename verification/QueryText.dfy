// Queries as texts: the lexer and the parser together.
module QueryText {
  import opened Lexer
  import opened Lexemes
  import opened Spelling
  import opened Parser
  import opened Grammar

  function SentenceOf(text: string): Parsed<Sentence> {
    match AllTokens(text)
    case LexFailure => Err(Malformed)
    case Tokens(ts) => SentenceAt(ts)
  }

  method ParseGraphSql(text: string) returns (r: Parsed<Sentence>)
    requires '\0' !in text
    ensures r == SentenceOf(text)
  {
    var all := Tokenize(text);
    if all.LexFailure? { return Err(Malformed); }
    var queue := new TokenQueue(all.tokens);
    r := queue.GetSentence();
  }

  // ---------------------------------------------------------------------------
  // Sentences that can be written as texts.
  // ---------------------------------------------------------------------------

  ghost predicate Each(ts: seq<Token>, f: Token -> bool) {
    forall i | 0 <= i < |ts| :: f(ts[i])
  }

  /** All brackets, operators, commas and keywords have the property `f`. */
  ghost predicate AllMarks(f: Token -> bool) {
    f(SELECT) && f(RETURN) && forall k {:trigger MarkToken(k)} | MarkToken(k) != EOF_TOKEN :: f(MarkToken(k))
  }

  ghost predicate EachProperty(ps: seq<Property>, f: Token -> bool) {
    forall i | 0 <= i < |ps| :: f(Token(Identifier, ps[i].name)) && f(ValueToken(ps[i].value))
  }

  ghost predicate EachInside(id: string, ps: seq<Property>, f: Token -> bool) {
    (id == "" || f(Token(Identifier, id))) && EachProperty(ps, f)
  }

  /** All names and values of the sentence, as tokens, have the property `f`. */
  ghost predicate EachPart(s: Sentence, f: Token -> bool) {
    && (forall i | 0 <= i < |s.nodes| :: EachInside(s.nodes[i].id, s.nodes[i].properties, f))
    && (forall i | 0 <= i < |s.edges| :: EachInside(s.edges[i].id, s.edges[i].properties, f))
    && (forall i | 0 <= i < |s.returnNames| :: f(Token(Identifier, s.returnNames[i])))
  }

  lemma ThenEach(t: Token, r: seq<Token>, f: Token -> bool)
    ensures Each(Then(t, r), f) <==> f(t) && Each(r, f)
  {
    var ts := Then(t, r);
    if Each(ts, f) {
      forall i | 0 <= i < |r| ensures f(r[i]) { assert ts[i + 1] == r[i]; }
    }
  }

  lemma PropertyEach(p: Property, r: seq<Token>, f: Token -> bool)
    requires AllMarks(f)
    ensures Each(PropertyTokens(p, r), f) <==> f(Token(Identifier, p.name)) && f(ValueToken(p.value)) && Each(r, f)
  {
    var op, value := MarkToken(OperatorKind(p.relationship)), ValueToken(p.value);
    ThenEach(value, r, f);
    ThenEach(op, Then(value, r), f);
    ThenEach(Token(Identifier, p.name), Then(op, Then(value, r)), f);
  }

  lemma FirstProperty(ps: seq<Property>, f: Token -> bool)
    requires ps != []
    ensures EachProperty(ps, f) <==>
      f(Token(Identifier, ps[0].name)) && f(ValueToken(ps[0].value)) && EachProperty(ps[1..], f)
  {
    assert ps == [ps[0]] + ps[1..];
  }

  lemma {:induction false} PropertiesEach(ps: seq<Property>, r: seq<Token>, f: Token -> bool)
    requires AllMarks(f)
    ensures Each(PropertiesTokens(ps, r), f) <==> EachProperty(ps, f) && Each(r, f)
  {
    if ps != [] {
      PropertiesEach(ps[1..], r, f);
      PropertyEach(ps[0], PropertiesTokens(ps[1..], r), f);
      FirstProperty(ps, f);
    }
  }

  lemma InsideEach(id: string, ps: seq<Property>, r: seq<Token>, f: Token -> bool)
    requires AllMarks(f)
    ensures Each(InsideTokens(id, ps, r), f) <==> EachInside(id, ps, f) && Each(r, f)
  {
    PropertiesEach(ps, r, f);
    ThenEach(Token(Identifier, id), PropertiesTokens(ps, r), f);
  }

  lemma NodeEach(n: Node, r: seq<Token>, f: Token -> bool)
    requires AllMarks(f)
    ensures Each(NodeTokens(n, r), f) <==> EachInside(n.id, n.properties, f) && Each(r, f)
  {
    var close := Then(MarkToken(RightParen), r);
    ThenEach(MarkToken(RightParen), r, f);
    InsideEach(n.id, n.properties, close, f);
    ThenEach(MarkToken(LeftParen), InsideTokens(n.id, n.properties, close), f);
  }

  lemma ArrowEach(right: bool, r: seq<Token>, f: Token -> bool)
    requires AllMarks(f)
    ensures Each(Then(MarkToken(Dash), ArrowTokens(right, r)), f) <==> Each(r, f)
  {
    ThenEach(MarkToken(Greater), r, f);
    ThenEach(MarkToken(Dash), ArrowTokens(right, r), f);
  }

  lemma BodyEach(e: Edge, style: Style, r: seq<Token>, f: Token -> bool)
    requires AllMarks(f) && Allowed(e, style)
    ensures Each(BodyTokens(e, style, r), f) <==> EachInside(e.id, e.properties, f) && Each(r, f)
  {
    ArrowEach(e.direction == Next, r, f);
    if style == Bracketed {
      var arrow := Then(MarkToken(Dash), ArrowTokens(e.direction == Next, r));
      var close := Then(MarkToken(RightBracket), arrow);
      ThenEach(MarkToken(RightBracket), arrow, f);
      InsideEach(e.id, e.properties, close, f);
      ThenEach(MarkToken(LeftBracket), InsideTokens(e.id, e.properties, close), f);
    }
  }

  lemma EdgeEach(e: Edge, style: Style, r: seq<Token>, f: Token -> bool)
    requires AllMarks(f) && Allowed(e, style)
    ensures Each(EdgeTokens(e, style, r), f) <==> EachInside(e.id, e.properties, f) && Each(r, f)
  {
    var body := BodyTokens(e, style, r);
    BodyEach(e, style, r, f);
    ThenEach(MarkToken(Dash), body, f);
    ThenEach(MarkToken(Smaller), Then(MarkToken(Dash), body), f);
  }

  ghost predicate EachTail(edges: seq<Edge>, nodes: seq<Node>, f: Token -> bool) {
    && (forall i | 0 <= i < |nodes| :: EachInside(nodes[i].id, nodes[i].properties, f))
    && (forall i | 0 <= i < |edges| :: EachInside(edges[i].id, edges[i].properties, f))
  }

  lemma EachTailFirst(edges: seq<Edge>, nodes: seq<Node>, f: Token -> bool)
    requires edges != [] && nodes != []
    ensures EachTail(edges, nodes, f) <==>
      && EachInside(edges[0].id, edges[0].properties, f) && EachInside(nodes[0].id, nodes[0].properties, f)
      && EachTail(edges[1..], nodes[1..], f)
  {
    assert edges == [edges[0]] + edges[1..] && nodes == [nodes[0]] + nodes[1..];
  }

  lemma {:induction false} TailEach(edges: seq<Edge>, styles: seq<Style>, nodes: seq<Node>, r: seq<Token>, f: Token -> bool)
    requires AllMarks(f) && |edges| == |styles| == |nodes| && AllAllowed(edges, styles)
    ensures Each(TailTokens(edges, styles, nodes, r), f) <==> EachTail(edges, nodes, f) && Each(r, f)
  {
    if edges != [] {
      var rest := TailTokens(edges[1..], styles[1..], nodes[1..], r);
      TailEach(edges[1..], styles[1..], nodes[1..], r, f);
      NodeEach(nodes[0], rest, f);
      EdgeEach(edges[0], styles[0], NodeTokens(nodes[0], rest), f);
      EachTailFirst(edges, nodes, f);
    }
  }

  lemma {:induction false} NamesEach(names: seq<string>, f: Token -> bool)
    requires AllMarks(f)
    ensures Each(NamesTokens(names), f) <==> forall i | 0 <= i < |names| :: f(Token(Identifier, names[i]))
  {
    if names != [] {
      var rest := NamesTokens(names[1..]);
      NamesEach(names[1..], f);
      ThenEach(Token(Identifier, names[0]), rest, f);
      ThenEach(MarkToken(Comma), Then(Token(Identifier, names[0]), rest), f);
      assert names == [names[0]] + names[1..];
    }
  }

  lemma ReturnEach(names: seq<string>, f: Token -> bool)
    requires AllMarks(f) && names != []
    ensures Each(ReturnTokens(names), f) <==> forall i | 0 <= i < |names| :: f(Token(Identifier, names[i]))
  {
    var rest := NamesTokens(names[1..]);
    NamesEach(names[1..], f);
    ThenEach(Token(Identifier, names[0]), rest, f);
    ThenEach(RETURN, Then(Token(Identifier, names[0]), rest), f);
    assert names == [names[0]] + names[1..];
  }

  lemma EachTailNode(edges: seq<Edge>, nodes: seq<Node>, f: Token -> bool)
    requires nodes != []
    ensures EachTail(edges, nodes, f) <==> EachInside(nodes[0].id, nodes[0].properties, f) && EachTail(edges, nodes[1..], f)
  {
    assert nodes == [nodes[0]] + nodes[1..];
  }

  lemma PathEach(s: Sentence, styles: seq<Style>, r: seq<Token>, f: Token -> bool)
    requires AllMarks(f) && |s.nodes| == |s.edges| + 1 && AllAllowed(s.edges, styles)
    ensures Each(NodeTokens(s.nodes[0], TailTokens(s.edges, styles, s.nodes[1..], r)), f)
      <==> EachTail(s.edges, s.nodes, f) && Each(r, f)
  {
    TailEach(s.edges, styles, s.nodes[1..], r, f);
    NodeEach(s.nodes[0], TailTokens(s.edges, styles, s.nodes[1..], r), f);
    EachTailNode(s.edges, s.nodes, f);
  }

  /** The tokens of a sentence have a property if and only if its names and values have it. */
  lemma SentenceEach(s: Sentence, styles: seq<Style>, f: Token -> bool)
    requires AllMarks(f) && WellFormed(s) && AllAllowed(s.edges, styles)
    ensures Each(SentenceTokens(s, styles), f) <==> EachPart(s, f)
  {
    var ret := ReturnTokens(s.returnNames);
    ReturnEach(s.returnNames, f);
    PathEach(s, styles, ret, f);
    ThenEach(SELECT, NodeTokens(s.nodes[0], TailTokens(s.edges, styles, s.nodes[1..], ret)), f);
  }

  /** All names are words that are no keywords, all values numbers or closed strings. */
  ghost predicate Writable(s: Sentence) {
    EachPart(s, Canonical)
  }

  lemma MarksCanonical()
    ensures AllMarks(Canonical)
  {
  }

  /** The tokens of a sentence can be written down if and only if its names and values can. */
  lemma SentenceCanonical(s: Sentence, styles: seq<Style>)
    requires WellFormed(s) && AllAllowed(s.edges, styles)
    ensures AllCanonical(SentenceTokens(s, styles)) <==> Writable(s)
  {
    MarksCanonical();
    SentenceEach(s, styles, Canonical);
    assert AllCanonical(SentenceTokens(s, styles)) <==> Each(SentenceTokens(s, styles), Canonical);
  }

  /** A text of the sentence. */
  function Text(s: Sentence, styles: seq<Style>): string
    requires |s.nodes| == |s.edges| + 1 && |styles| == |s.edges| && s.returnNames != []
  {
    SpellAll(SentenceTokens(s, styles))
  }

  /** Every well-formed sentence that can be written down is read back from its texts. */
  lemma TextReads(s: Sentence, styles: seq<Style>)
    requires WellFormed(s) && Writable(s) && AllAllowed(s.edges, styles)
    ensures SentenceOf(Text(s, styles)) == Ok(s, [])
  {
    SentenceCanonical(s, styles);
    SpellingLexes(SentenceTokens(s, styles));
    SentenceReads(s, styles);
  }

  function AllBracketed(s: Sentence): (r: seq<Style>)
    ensures AllAllowed(s.edges, r)
  {
    seq(|s.edges|, _ => Bracketed)
  }

  // ---------------------------------------------------------------------------
  // Texts that are accepted.
  // ---------------------------------------------------------------------------

  lemma LexedPlain(t: Token)
    requires Canonical(t) || Broken(t)
    ensures Plain(t)
  {
    if t.kind == Number { NumberNotQuoted(t.raw); }
  }

  lemma NumberNotQuoted(raw: string)
    requires IsNumber(raw)
    ensures raw == "" || raw[0] != '"'
  {
    if raw != "" && !IsSign(raw[0]) {
      assert Span(raw, IsSign) == "" && After(raw, "") == raw;
      assert IsDigitOrDot(raw[0]);
    }
  }

  /** The tokens that end with `r` have the last token of `r`. */
  predicate EndsLike(ts: seq<Token>, r: seq<Token>) {
    r != [] ==> ts != [] && ts[|ts| - 1] == r[|r| - 1]
  }

  lemma ThenEnds(t: Token, m: seq<Token>, r: seq<Token>)
    requires EndsLike(m, r)
    ensures EndsLike(Then(t, m), r)
  {
    if m != [] { assert Then(t, m)[|m|] == Then(t, m)[1..][|m| - 1]; }
  }

  lemma {:induction false} InsideEnds(id: string, ps: seq<Property>, m: seq<Token>, r: seq<Token>)
    requires EndsLike(m, r)
    ensures EndsLike(InsideTokens(id, ps, m), r)
    decreases |ps|
  {
    if ps != [] {
      var rest := PropertiesTokens(ps[1..], m);
      InsideEnds("", ps[1..], m, r);
      var value, op := ValueToken(ps[0].value), MarkToken(OperatorKind(ps[0].relationship));
      ThenEnds(value, rest, r);
      ThenEnds(op, Then(value, rest), r);
      ThenEnds(Token(Identifier, ps[0].name), Then(op, Then(value, rest)), r);
    }
    if id != "" { ThenEnds(Token(Identifier, id), PropertiesTokens(ps, m), r); }
  }

  lemma NodeEnds(n: Node, r: seq<Token>)
    ensures EndsLike(NodeTokens(n, r), r)
  {
    var close := Then(MarkToken(RightParen), r);
    ThenEnds(MarkToken(RightParen), r, r);
    InsideEnds(n.id, n.properties, close, r);
    ThenEnds(MarkToken(LeftParen), InsideTokens(n.id, n.properties, close), r);
  }

  lemma BodyEnds(e: Edge, style: Style, r: seq<Token>)
    ensures EndsLike(BodyTokens(e, style, r), r)
  {
    ArrowEnds(e.direction == Next, r);
    if style == Bracketed {
      var arrow := Then(MarkToken(Dash), ArrowTokens(e.direction == Next, r));
      var close := Then(MarkToken(RightBracket), arrow);
      ThenEnds(MarkToken(RightBracket), arrow, r);
      InsideEnds(e.id, e.properties, close, r);
      ThenEnds(MarkToken(LeftBracket), InsideTokens(e.id, e.properties, close), r);
    }
  }

  lemma ArrowEnds(right: bool, r: seq<Token>)
    ensures EndsLike(Then(MarkToken(Dash), ArrowTokens(right, r)), r)
  {
    ThenEnds(MarkToken(Greater), r, r);
    ThenEnds(MarkToken(Dash), ArrowTokens(right, r), r);
  }

  lemma EdgeEnds(e: Edge, style: Style, r: seq<Token>)
    ensures EndsLike(EdgeTokens(e, style, r), r)
  {
    var body := BodyTokens(e, style, r);
    BodyEnds(e, style, r);
    ThenEnds(MarkToken(Dash), body, r);
    ThenEnds(MarkToken(Smaller), Then(MarkToken(Dash), body), r);
  }

  lemma {:induction false} TailEnds(edges: seq<Edge>, styles: seq<Style>, nodes: seq<Node>, r: seq<Token>)
    requires |edges| == |styles| == |nodes|
    ensures EndsLike(TailTokens(edges, styles, nodes, r), r)
  {
    if edges != [] {
      var rest := TailTokens(edges[1..], styles[1..], nodes[1..], r);
      TailEnds(edges[1..], styles[1..], nodes[1..], r);
      NodeEnds(nodes[0], rest);
      EdgeEnds(edges[0], styles[0], NodeTokens(nodes[0], rest));
    }
  }

  lemma {:induction false} NamesEnd(names: seq<string>)
    ensures var ts := NamesTokens(names); ts != [] ==> ts[|ts| - 1].kind == Identifier
  {
    if names != [] { NamesEnd(names[1..]); }
  }

  /** The last token of a sentence is a name. */
  lemma SentenceEnds(s: Sentence, styles: seq<Style>)
    requires |s.nodes| == |s.edges| + 1 && |styles| == |s.edges| && s.returnNames != []
    ensures var ts := SentenceTokens(s, styles); ts != [] && ts[|ts| - 1].kind == Identifier
  {
    var ret := ReturnTokens(s.returnNames);
    NamesEnd(s.returnNames[1..]);
    TailEnds(s.edges, styles, s.nodes[1..], ret);
    NodeEnds(s.nodes[0], TailTokens(s.edges, styles, s.nodes[1..], ret));
  }

  lemma InitAndLast(ts: seq<Token>, i: nat)
    requires i < |ts| && CanonicalBarLast(ts)
    ensures Canonical(ts[i]) || Broken(ts[i])
  {
    if i < |ts| - 1 { assert ts[..|ts| - 1][i] == ts[i]; }
  }

  lemma TextPlain(text: string)
    requires AllTokens(text).Tokens?
    ensures AllPlain(AllTokens(text).tokens)
  {
    var ts := AllTokens(text).tokens;
    TextIsCanonical(text);
    forall i | 0 <= i < |ts| ensures Plain(ts[i]) {
      InitAndLast(ts, i);
      LexedPlain(ts[i]);
    }
  }

  /** An accepted text is a text of a well-formed sentence that can be written down. */
  lemma AcceptedText(text: string) returns (styles: seq<Style>)
    requires SentenceOf(text).Ok?
    ensures var s := SentenceOf(text).value;
      && WellFormed(s) && Writable(s) && AllAllowed(s.edges, styles)
      && AllTokens(text) == Tokens(SentenceTokens(s, styles)) && SentenceOf(text).rest == []
  {
    var ts := AllTokens(text).tokens;
    var s := SentenceOf(text).value;
    TextPlain(text);
    styles := SentenceFound(ts);
    SentenceEnds(s, styles);
    TextIsCanonical(text);
    SentenceCanonical(s, styles);
  }

  /** Parsing, writing down and parsing again gives the same sentence. */
  lemma ParseWriteParse(text: string)
    requires SentenceOf(text).Ok?
    ensures var s := SentenceOf(text).value;
      WellFormed(s) && Writable(s) && SentenceOf(Text(s, AllBracketed(s))) == SentenceOf(text)
  {
    var styles := AcceptedText(text);
    TextReads(SentenceOf(text).value, AllBracketed(SentenceOf(text).value));
  }

  // ---------------------------------------------------------------------------
  // All texts of a sentence.
  // ---------------------------------------------------------------------------

  /** `text` writes the sentence `s` down: its tokens in one of the allowed styles, each in
      one of its texts, with blanks as one likes where nothing runs together. */
  ghost predicate IsTextOf(s: Sentence, styles: seq<Style>, text: string) {
    && WellFormed(s) && Writable(s) && AllAllowed(s.edges, styles)
    && WritesAll(SentenceTokens(s, styles), text)
  }

  /** A text is accepted as a sentence if and only if it is a text of this sentence, which is
      well-formed and can be written down. */
  lemma TextExact(text: string, s: Sentence)
    ensures SentenceOf(text) == Ok(s, []) <==> exists styles {:trigger IsTextOf(s, styles, text)} :: IsTextOf(s, styles, text)
  {
    if SentenceOf(text) == Ok(s, []) {
      var styles := AcceptedText(text);
      SentenceCanonical(s, styles);
      TokensExact(SentenceTokens(s, styles), text);
      assert IsTextOf(s, styles, text);
    }
    if styles :| IsTextOf(s, styles, text) {
      SentenceCanonical(s, styles);
      TokensExact(SentenceTokens(s, styles), text);
      SentenceReads(s, styles);
    }
  }

  lemma EitherCaseSpells(w: string, lower: string, upper: string)
    requires (lower == "select" && upper == "SELECT") || (lower == "return" && upper == "RETURN")
    requires InEitherCase(w, lower, upper)
    ensures Spells(Token(Keyword, lower), w)
  {
    KeywordInAnyCase(w);
    forall i | 0 <= i < |w| ensures IsAlpha(w[i]) { assert w[i] == lower[i] || w[i] == upper[i]; }
  }

  lemma NameWritten(n: Token, rest: string, ts: seq<Token>)
    requires n.kind == Identifier && Spells(n, n.raw) && Ends(n, rest) && WritesAll(ts, rest)
    ensures WritesAll([n] + ts, n.raw + rest) && WritesAll([n] + ts, " " + (n.raw + rest))
  {
    WritesNext(n, n.raw, rest, ts);
    WritesBehindBlank(n, n.raw, rest, ts);
  }

  lemma LastName(n: Token)
    requires n.kind == Identifier && Spells(n, n.raw)
    ensures WritesAll([n], " " + n.raw)
  {
    assert Ended("", "");
    assert n.raw + "" == n.raw && [n] + [] == [n];
    NameWritten(n, "", []);
  }

  lemma BracketWritten(k: Kind, x: string, rest: string, ts: seq<Token>)
    requires ((k == LeftParen && x == "(") || (k == RightParen && x == ")")) && WritesAll(ts, rest)
    ensures WritesAll([MarkToken(k)] + ts, x + rest) && WritesAll([MarkToken(k)] + ts, " " + (x + rest))
  {
    WritesNext(MarkToken(k), x, rest, ts);
    WritesBehindBlank(MarkToken(k), x, rest, ts);
  }

  function AllNodes(a: string): Sentence {
    Sentence([Node(a, [])], [], [a])
  }

  lemma AllNodesTokens(a: string)
    requires a != ""
    ensures var n := Token(Identifier, a);
      SentenceTokens(AllNodes(a), []) == [SELECT] + ([MarkToken(LeftParen)] + ([n] + ([MarkToken(RightParen)] + ([RETURN] + [n]))))
  {
    assert TailTokens([], [], [], ReturnTokens([a])) == ReturnTokens([a]);
  }

  lemma AllNodesWritable(a: string)
    requires IsWord(a) && WordToken(a) == Token(Identifier, a) && a[0] != ':'
    ensures WellFormed(AllNodes(a)) && Writable(AllNodes(a)) && AllAllowed(AllNodes(a).edges, [])
  {
  }

  lemma TextForms(sel: string, a: string, end: string)
    ensures sel + (" " + ("(" + (a + (")" + (" " + end))))) == sel + (" (" + (a + (") " + end)))
  {
    assert ")" + (" " + end) == ") " + end;
    assert " " + ("(" + (a + (") " + end))) == " (" + (a + (") " + end));
  }

  lemma ReturnWritten(ret: string, n: Token)
    requires InEitherCase(ret, "return", "RETURN") && n.kind == Identifier && Spells(n, n.raw)
    ensures WritesAll([RETURN] + [n], " " + (ret + (" " + n.raw)))
  {
    LastName(n);
    EitherCaseSpells(ret, "return", "RETURN");
    WritesBehindBlank(RETURN, ret, " " + n.raw, [n]);
  }

  lemma NodeWritten(n: Token, rest: string, ts: seq<Token>)
    requires n.kind == Identifier && Spells(n, n.raw) && WritesAll(ts, rest)
    ensures WritesAll([MarkToken(LeftParen)] + ([n] + ([MarkToken(RightParen)] + ts)), " " + ("(" + (n.raw + (")" + rest))))
  {
    var close, closes := ")" + rest, [MarkToken(RightParen)] + ts;
    BracketWritten(RightParen, ")", rest, ts);
    NodeOpened(n, close, closes);
  }

  lemma NodeOpened(n: Token, close: string, closes: seq<Token>)
    requires n.kind == Identifier && Spells(n, n.raw) && Ends(n, close) && WritesAll(closes, close)
    ensures WritesAll([MarkToken(LeftParen)] + ([n] + closes), " " + ("(" + (n.raw + close)))
  {
    NameWritten(n, close, closes);
    BracketWritten(LeftParen, "(", n.raw + close, [n] + closes);
  }

  lemma SelectWritten(sel: string, node: string, ts: seq<Token>)
    requires InEitherCase(sel, "select", "SELECT") && WritesAll(ts, " " + node)
    ensures WritesAll([SELECT] + ts, sel + (" " + node))
  {
    EitherCaseSpells(sel, "select", "SELECT");
    WritesNext(SELECT, sel, " " + node, ts);
  }

  lemma AllNodesWritten(sel: string, ret: string, a: string)
    requires InEitherCase(sel, "select", "SELECT") && InEitherCase(ret, "return", "RETURN")
    requires IsWord(a) && WordToken(a) == Token(Identifier, a)
    ensures var n := Token(Identifier, a);
      WritesAll([SELECT] + ([MarkToken(LeftParen)] + ([n] + ([MarkToken(RightParen)] + ([RETURN] + [n])))),
                sel + (" (" + (a + (") " + (ret + (" " + a))))))
  {
    var n, end := Token(Identifier, a), ret + (" " + a);
    ReturnWritten(ret, n);
    NodeWritten(n, " " + end, [RETURN] + [n]);
    SelectWritten(sel, "(" + (a + (")" + (" " + end))), [MarkToken(LeftParen)] + ([n] + ([MarkToken(RightParen)] + ([RETURN] + [n]))));
    TextForms(sel, a, end);
  }

  /** The query for all nodes, which the index construction runs: its keywords may be
      written in any case of letters, and no blanks stand inside the brackets. */
  lemma AllNodesQuery(sel: string, ret: string, a: string)
    requires InEitherCase(sel, "select", "SELECT") && InEitherCase(ret, "return", "RETURN")
    requires IsWord(a) && WordToken(a) == Token(Identifier, a) && a[0] != ':'
    ensures SentenceOf(sel + (" (" + (a + (") " + (ret + (" " + a)))))) == Ok(AllNodes(a), [])
  {
    var text := sel + (" (" + (a + (") " + (ret + (" " + a)))));
    AllNodesTokens(a);
    AllNodesWritable(a);
    AllNodesWritten(sel, ret, a);
    assert IsTextOf(AllNodes(a), [], text);
    TextExact(text, AllNodes(a));
  }
}
