// Queries that break off: the parser reads the front of an empty queue on exactly those
// token lists that end where it does not look whether a token follows (graphdsl.cpp).
module CutOff {
  import opened Lexer
  import opened Parser
  import opened Grammar
  import opened Lexemes
  import opened Spelling
  import T = QueryText

  /** A single name with nothing behind it, where the parser looks at the token behind it. */
  predicate LoneName(ts: seq<Token>) {
    |ts| == 1 && ts[0].kind == Identifier && !(ts[0].raw != "" && ts[0].raw[0] == ':')
  }

  predicate CutInside(ts: seq<Token>) {
    ts == [] || LoneName(ts)
  }

  /** A node is missing, or ends behind its bracket or behind the name in it. */
  predicate CutNode(ts: seq<Token>) {
    ts == [] || (ts[0].kind == LeftParen && CutInside(ts[1..]))
  }

  /** An edge ends behind its bracket or behind the name in it. */
  predicate CutEdge(ts: seq<Token>) {
    var dash := if Starts(ts, Smaller) then ts[1..] else ts;
    Starts(dash, Dash) && Starts(dash[1..], LeftBracket) && CutInside(dash[2..])
  }

  /** A complete edge and a node that is cut off. */
  predicate CutPair(ts: seq<Token>, e: Edge, style: Style, r: seq<Token>) {
    ts == EdgeTokens(e, style, r) && Allowed(e, style) && IsId(e.id) && EndsEdge(e, style, r) && CutNode(r)
  }

  /** The ways in which a query can break off behind a node. */
  ghost predicate BrokenOff(ts: seq<Token>) {
    ts == [RETURN] || CutEdge(ts) || exists e, style, r {:trigger CutPair(ts, e, style, r)} :: CutPair(ts, e, style, r)
  }

  /** A proper beginning of a query, up to a node, with `r` behind it. */
  predicate Begins(ts: seq<Token>, n: Node, edges: seq<Edge>, styles: seq<Style>, nodes: seq<Node>, r: seq<Token>) {
    && IsId(n.id) && Readable(edges, styles, nodes)
    && ts == Then(SELECT, NodeTokens(n, TailTokens(edges, styles, nodes, r)))
  }

  ghost predicate BrokenBehind(ts: seq<Token>, n: Node, edges: seq<Edge>, styles: seq<Style>, nodes: seq<Node>, r: seq<Token>) {
    Begins(ts, n, edges, styles, nodes, r) && BrokenOff(r)
  }

  ghost predicate CutQuery(ts: seq<Token>) {
    || ts == []
    || (ts[0] == SELECT && CutNode(ts[1..]))
    || exists n, edges, styles, nodes, r {:trigger BrokenBehind(ts, n, edges, styles, nodes, r)} ::
         BrokenBehind(ts, n, edges, styles, nodes, r)
  }

  /** A list of properties goes wrong with the general exception only. */
  lemma {:induction false} PropertiesMalformed(end: Kind, ts: seq<Token>)
    ensures PropertiesAt(end, ts).Err? ==> PropertiesAt(end, ts) == Err(Malformed)
    decreases |ts|
  {
    if ts != [] && ts[0].kind != end && PropertyAt(ts).Ok? {
      PropertiesMalformed(end, PropertyAt(ts).rest);
    }
  }

  lemma InsideUndefined(end: Kind, ts: seq<Token>)
    requires end in {RightParen, RightBracket}
    ensures InsideAt(end, ts) == Err(Undefined) <==> CutInside(ts)
  {
    if IdAt(ts).Ok? { PropertiesMalformed(end, IdAt(ts).rest); }
  }

  lemma NodeUndefined(ts: seq<Token>)
    ensures NodeAt(ts) == Err(Undefined) <==> CutNode(ts)
  {
    if ts != [] { InsideUndefined(RightParen, ts[1..]); }
  }

  lemma BodyUndefined(ts: seq<Token>)
    ensures BodyAt(ts) == Err(Undefined) <==> Starts(ts, LeftBracket) && CutInside(ts[1..])
  {
    if ts != [] { InsideUndefined(RightBracket, ts[1..]); }
  }

  lemma EdgeUndefined(ts: seq<Token>)
    ensures EdgeAt(ts) == Err(Undefined) <==> CutEdge(ts)
  {
    var dash := if Starts(ts, Smaller) then ts[1..] else ts;
    if Starts(dash, Dash) {
      BodyUndefined(dash[1..]);
      if |dash| > 1 { assert dash[1..][1..] == dash[2..]; }
    }
  }

  /** What stands behind an edge that is followed by no or by a cut-off node. */
  lemma EdgeEnds(ts: seq<Token>) returns (style: Style)
    requires AllPlain(ts) && EdgeAt(ts).Ok? && CutNode(EdgeAt(ts).rest)
    ensures CutPair(ts, EdgeAt(ts).value, style, EdgeAt(ts).rest)
  {
    style := EdgeFound(ts);
    EdgeReads(EdgeAt(ts).value, style, EdgeAt(ts).rest);
  }

  /** The parser reads the front of an empty queue behind the pairs that it has read. */
  predicate StopsUndefined(nodes: seq<Node>, edges: seq<Edge>, r: seq<Token>) {
    TailAt(r) == Err(Undefined) || (TailAt(r) == Ok(([], []), r) && ReturnAt(nodes, edges, r) == Err(Undefined))
  }

  lemma StopBreaks(nodes: seq<Node>, edges: seq<Edge>, r: seq<Token>)
    requires AllPlain(r) && NoPair(r) && StopsUndefined(nodes, edges, r)
    ensures BrokenOff(r)
  {
    EdgeUndefined(r);
    if EdgeAt(r).Ok? {
      NodeUndefined(EdgeAt(r).rest);
      var style := EdgeEnds(r);
    } else if |r| > 1 {
      NamesMalformed(nodes, edges, r[2..]);
    }
  }

  lemma BrokenStops(nodes: seq<Node>, edges: seq<Edge>, r: seq<Token>)
    requires BrokenOff(r)
    ensures NoPair(r) && StopsUndefined(nodes, edges, r)
  {
    EdgeUndefined(r);
    BrokenReads(r);
  }

  lemma BrokenReads(ts: seq<Token>)
    ensures forall e, style, r {:trigger CutPair(ts, e, style, r)} :: CutPair(ts, e, style, r) ==>
      EdgeAt(ts) == Ok(e, r) && NodeAt(r) == Err(Undefined)
  {
    forall e, style, r {:trigger CutPair(ts, e, style, r)} | CutPair(ts, e, style, r)
      ensures EdgeAt(ts) == Ok(e, r) && NodeAt(r) == Err(Undefined)
    {
      EdgeReads(e, style, r);
      NodeUndefined(r);
    }
  }

  lemma {:induction false} NamesMalformed(nodes: seq<Node>, edges: seq<Edge>, ts: seq<Token>)
    ensures NamesAt(nodes, edges, ts).Err? ==> NamesAt(nodes, edges, ts) == Err(Malformed)
    decreases |ts|
  {
    if |ts| > 1 { NamesMalformed(nodes, edges, ts[2..]); }
  }

  /** The parser reads the front of an empty queue exactly on the token lists that break off:
      on the empty one, on those that end before or in a node, in an edge, or behind the word
      `return`.  Every other list is parsed or rejected with an exception. */
  lemma UndefinedExact(ts: seq<Token>)
    requires AllPlain(ts)
    ensures SentenceAt(ts) == Err(Undefined) <==> CutQuery(ts)
  {
    if ts != [] && ts[0] == SELECT {
      NodeUndefined(ts[1..]);
      if NodeAt(ts[1..]).Ok? {
        BehindNode(ts);
      } else {
        NoBeginning(ts);
      }
    } else if ts != [] {
      NoBeginning(ts);
    }
  }

  lemma NoBeginning(ts: seq<Token>)
    requires ts != [] && (ts[0] != SELECT || NodeAt(ts[1..]).Err?)
    ensures forall n, edges, styles, nodes, r {:trigger BrokenBehind(ts, n, edges, styles, nodes, r)} ::
      !BrokenBehind(ts, n, edges, styles, nodes, r)
  {
    forall n, edges, styles, nodes, r | BrokenBehind(ts, n, edges, styles, nodes, r)
      ensures false
    {
      NodeReads(n, TailTokens(edges, styles, nodes, r));
    }
  }

  lemma BehindNode(ts: seq<Token>)
    requires AllPlain(ts) && ts != [] && ts[0] == SELECT && NodeAt(ts[1..]).Ok?
    ensures SentenceAt(ts) == Err(Undefined) <==> CutQuery(ts)
  {
    var n := NodeAt(ts[1..]);
    NodeFound(ts[1..]);
    NodeUndefined(ts[1..]);
    var edges, styles, nodes, r := TailSplit(n.rest);
    assert Begins(ts, n.value, edges, styles, nodes, r) by { Again(ts); }
    BeginningReads(ts, n.value, edges, styles, nodes, r);
    if SentenceAt(ts) == Err(Undefined) {
      StopBreaks([n.value] + nodes, edges, r);
      assert BrokenBehind(ts, n.value, edges, styles, nodes, r);
    }
    forall n', edges', styles', nodes', r' | BrokenBehind(ts, n', edges', styles', nodes', r')
      ensures SentenceAt(ts) == Err(Undefined)
    {
      BrokenStops([n'] + nodes', edges', r');
      BeginningReads(ts, n', edges', styles', nodes', r');
    }
  }

  lemma BeginningReads(ts: seq<Token>, n: Node, edges: seq<Edge>, styles: seq<Style>, nodes: seq<Node>, r: seq<Token>)
    requires Begins(ts, n, edges, styles, nodes, r) && NoPair(r)
    ensures SentenceAt(ts) == Err(Undefined) <==> StopsUndefined([n] + nodes, edges, r)
  {
    NodeReads(n, TailTokens(edges, styles, nodes, r));
    TailReads(edges, styles, nodes, r);
    assert edges + [] == edges && nodes + [] == nodes;
  }

  // ---------------------------------------------------------------------------
  // Texts.
  // ---------------------------------------------------------------------------

  ghost predicate CutText(text: string) {
    AllTokens(text).Tokens? && CutQuery(AllTokens(text).tokens)
  }

  /** Every text is parsed or rejected with an exception, except those that break off. */
  lemma TextUndefined(text: string)
    ensures T.SentenceOf(text) == Err(Undefined) <==> CutText(text)
  {
    if AllTokens(text).Tokens? {
      T.TextPlain(text);
      UndefinedExact(AllTokens(text).tokens);
    }
  }

  /** The empty query is one of them. */
  lemma EmptyText()
    ensures T.SentenceOf("") == Err(Undefined)
  {
    assert SkipWhite("") == "";
    assert TokenAt("") == Lexed(EOF_TOKEN, "");
  }

  lemma WrittenCut(ts: seq<Token>)
    requires AllCanonical(ts) && CutQuery(ts)
    ensures T.SentenceOf(SpellAll(ts)) == Err(Undefined)
  {
    SpellingLexes(ts);
    TextUndefined(SpellAll(ts));
  }

  /** So are texts that end behind `select`, an opening bracket, and a name in a node. */
  lemma CutInFirstNode(ts: seq<Token>)
    requires ts in {[], [MarkToken(LeftParen)], [MarkToken(LeftParen), Token(Identifier, "a")]}
    ensures T.SentenceOf(SpellAll(Then(SELECT, ts))) == Err(Undefined)
  {
    assert IsWord("a") && WordToken("a") == Token(Identifier, "a");
    WrittenCut(Then(SELECT, ts));
  }

  /** And texts that end behind a complete edge, an opening bracket of an edge, and `return`. */
  lemma CutBehindNode(ts: seq<Token>)
    requires ts in {[MarkToken(Dash), MarkToken(Dash)], [MarkToken(Dash), MarkToken(LeftBracket)], [RETURN]}
    ensures T.SentenceOf(SpellAll(AfterNode(ts))) == Err(Undefined)
  {
    assert AllCanonical(AfterNode(ts));
    AfterNodeCut(ts);
    WrittenCut(AfterNode(ts));
  }

  /** A query that begins with an empty node. */
  function AfterNode(r: seq<Token>): seq<Token> {
    Then(SELECT, NodeTokens(Node("", []), r))
  }

  lemma AfterNodeCut(ts: seq<Token>)
    requires ts in {[MarkToken(Dash), MarkToken(Dash)], [MarkToken(Dash), MarkToken(LeftBracket)], [RETURN]}
    ensures CutQuery(AfterNode(ts))
  {
    var e := Edge("", Bidirection, []);
    if ts == [MarkToken(Dash), MarkToken(Dash)] {
      assert EdgeTokens(e, Double, []) == ts;
      assert CutPair(ts, e, Double, []);
    }
    assert TailTokens([], [], [], ts) == ts;
    assert BrokenBehind(AfterNode(ts), Node("", []), [], [], [], ts);
  }
}
