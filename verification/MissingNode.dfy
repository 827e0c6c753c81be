// The exceptions of the parser by their class: a missing node has one of its own, which
// handlers for the general exception do not catch (graphdsl.cpp).
module MissingNode {
  import opened Lexer
  import opened Lexemes
  import opened Parser
  import opened Grammar
  import opened CutOff
  import T = QueryText

  /** There is a token, and it opens no node. */
  predicate OpensNothing(ts: seq<Token>) {
    ts != [] && ts[0].kind != LeftParen
  }

  lemma InsideErrors(end: Kind, ts: seq<Token>)
    ensures InsideAt(end, ts).Err? ==> InsideAt(end, ts).error in {Malformed, Undefined}
  {
    if IdAt(ts).Ok? { PropertiesMalformed(end, IdAt(ts).rest); }
  }

  /** A node is missing if and only if a token other than an opening bracket stands there. */
  lemma NodeMissing(ts: seq<Token>)
    ensures NodeAt(ts) == Err(NodeNotFound) <==> OpensNothing(ts)
    ensures NodeAt(ts) != Err(EdgeNotFound)
  {
    if ts != [] { InsideErrors(RightParen, ts[1..]); }
  }

  /** An edge is missing, which ends the path, if and only if a token other than a dash and
      the arrow head to the left stands there. */
  lemma EdgeMissing(ts: seq<Token>)
    ensures EdgeAt(ts) == Err(EdgeNotFound) <==> ts != [] && ts[0].kind != Dash && ts[0].kind != Smaller
    ensures EdgeAt(ts) != Err(NodeNotFound)
  {
    var dash := if Starts(ts, Smaller) then ts[1..] else ts;
    if Starts(dash, Dash) && |dash| > 1 { InsideErrors(RightBracket, dash[1..][1..]); }
  }

  /** A complete edge and no node behind it. */
  predicate LosesNode(ts: seq<Token>, e: Edge, style: Style, r: seq<Token>) {
    ts == EdgeTokens(e, style, r) && Allowed(e, style) && IsId(e.id) && EndsEdge(e, style, r) && OpensNothing(r)
  }

  ghost predicate EdgeAlone(ts: seq<Token>) {
    exists e, style, r {:trigger LosesNode(ts, e, style, r)} :: LosesNode(ts, e, style, r)
  }

  ghost predicate AloneBehind(ts: seq<Token>, n: Node, edges: seq<Edge>, styles: seq<Style>, nodes: seq<Node>, r: seq<Token>) {
    Begins(ts, n, edges, styles, nodes, r) && EdgeAlone(r)
  }

  /** A query in which, behind `select` or behind a proper beginning and a complete edge,
      stands a token other than an opening bracket. */
  ghost predicate NodelessQuery(ts: seq<Token>) {
    || (ts != [] && ts[0] == SELECT && OpensNothing(ts[1..]))
    || exists n, edges, styles, nodes, r {:trigger AloneBehind(ts, n, edges, styles, nodes, r)} ::
         AloneBehind(ts, n, edges, styles, nodes, r)
  }

  lemma AloneFound(ts: seq<Token>)
    requires AllPlain(ts) && EdgeAt(ts).Ok? && NodeAt(EdgeAt(ts).rest) == Err(NodeNotFound)
    ensures EdgeAlone(ts)
  {
    var e, r := EdgeAt(ts).value, EdgeAt(ts).rest;
    var style := EdgeFound(ts);
    EdgeReads(e, style, r);
    NodeMissing(r);
    assert LosesNode(ts, e, style, r);
  }

  lemma AloneReads(ts: seq<Token>)
    requires EdgeAlone(ts)
    ensures EdgeAt(ts).Ok? && NodeAt(EdgeAt(ts).rest) == Err(NodeNotFound)
  {
    var e, style, r :| LosesNode(ts, e, style, r);
    EdgeReads(e, style, r);
    NodeMissing(r);
  }

  /** The parser finds no node behind the pairs that it has read. */
  lemma TailMissing(r: seq<Token>)
    requires NoPair(r)
    ensures TailAt(r) == Err(NodeNotFound) <==> EdgeAt(r).Ok? && NodeAt(EdgeAt(r).rest) == Err(NodeNotFound)
    ensures TailAt(r) != Err(EdgeNotFound)
    ensures TailAt(r).Ok? ==> TailAt(r) == Ok(([], []), r)
  {
    EdgeMissing(r);
    if EdgeAt(r).Ok? { NodeMissing(EdgeAt(r).rest); }
  }

  lemma ReturnErrors(nodes: seq<Node>, edges: seq<Edge>, ts: seq<Token>)
    ensures ReturnAt(nodes, edges, ts).Err? ==> ReturnAt(nodes, edges, ts).error in {Malformed, Undefined}
  {
    if |ts| > 1 { NamesMalformed(nodes, edges, ts[2..]); }
  }

  lemma BeginningMissing(ts: seq<Token>, n: Node, edges: seq<Edge>, styles: seq<Style>, nodes: seq<Node>, r: seq<Token>)
    requires Begins(ts, n, edges, styles, nodes, r) && NoPair(r)
    ensures SentenceAt(ts) == Err(NodeNotFound) <==> EdgeAt(r).Ok? && NodeAt(EdgeAt(r).rest) == Err(NodeNotFound)
    ensures SentenceAt(ts) != Err(EdgeNotFound)
  {
    NodeReads(n, TailTokens(edges, styles, nodes, r));
    TailReads(edges, styles, nodes, r);
    TailMissing(r);
    ReturnErrors([n] + (nodes + []), edges + [], r);
  }

  lemma AloneMissing(ts: seq<Token>, n: Node, edges: seq<Edge>, styles: seq<Style>, nodes: seq<Node>, r: seq<Token>)
    requires AloneBehind(ts, n, edges, styles, nodes, r)
    ensures ts[0] == SELECT && NodeAt(ts[1..]).Ok? && SentenceAt(ts) == Err(NodeNotFound)
  {
    AloneReads(r);
    NodeReads(n, TailTokens(edges, styles, nodes, r));
    BeginningMissing(ts, n, edges, styles, nodes, r);
  }

  lemma NodelessMissing(ts: seq<Token>)
    requires NodelessQuery(ts)
    ensures SentenceAt(ts) == Err(NodeNotFound)
  {
    if ts != [] && ts[0] == SELECT && OpensNothing(ts[1..]) {
      NodeMissing(ts[1..]);
    } else {
      var n, edges, styles, nodes, r :| AloneBehind(ts, n, edges, styles, nodes, r);
      AloneMissing(ts, n, edges, styles, nodes, r);
    }
  }

  lemma MissingBehind(ts: seq<Token>)
    requires AllPlain(ts) && ts != [] && ts[0] == SELECT && NodeAt(ts[1..]).Ok?
    ensures SentenceAt(ts) != Err(EdgeNotFound)
    ensures SentenceAt(ts) == Err(NodeNotFound) ==> NodelessQuery(ts)
  {
    var n := NodeAt(ts[1..]);
    NodeFound(ts[1..]);
    var edges, styles, nodes, r := TailSplit(n.rest);
    assert Begins(ts, n.value, edges, styles, nodes, r) by { Again(ts); }
    BeginningMissing(ts, n.value, edges, styles, nodes, r);
    if SentenceAt(ts) == Err(NodeNotFound) {
      AloneFound(r);
      assert AloneBehind(ts, n.value, edges, styles, nodes, r);
    }
  }

  /** The parser reports a missing node on exactly these token lists; that an edge is missing
      it never reports. */
  lemma MissingExact(ts: seq<Token>)
    requires AllPlain(ts)
    ensures SentenceAt(ts) == Err(NodeNotFound) <==> NodelessQuery(ts)
    ensures SentenceAt(ts) != Err(EdgeNotFound)
  {
    if NodelessQuery(ts) { NodelessMissing(ts); }
    if ts != [] && ts[0] == SELECT {
      NodeMissing(ts[1..]);
      if NodeAt(ts[1..]).Ok? { MissingBehind(ts); }
    }
  }

  // ---------------------------------------------------------------------------
  // Texts.
  // ---------------------------------------------------------------------------

  ghost predicate NodelessText(text: string) {
    AllTokens(text).Tokens? && NodelessQuery(AllTokens(text).tokens)
  }

  lemma TextMissing(text: string)
    ensures T.SentenceOf(text) == Err(NodeNotFound) <==> NodelessText(text)
    ensures T.SentenceOf(text) != Err(EdgeNotFound)
  {
    if AllTokens(text).Tokens? {
      T.TextPlain(text);
      MissingExact(AllTokens(text).tokens);
    }
  }

  lemma OneOfFour(r: Parsed<Sentence>)
    requires r != Err(EdgeNotFound)
    ensures r == Err(Malformed) <==> r.Err? && r != Err(Undefined) && r != Err(NodeNotFound)
  {
    if r.Err? {
      assert r == Err(r.error);
      match r.error
      case NodeNotFound =>
      case EdgeNotFound =>
      case Malformed =>
      case Undefined =>
    }
  }

  /** The exception that a text is rejected with: its own class for a missing node, and the
      general one in all other cases, unless the text breaks off. */
  lemma TextErrors(text: string)
    ensures T.SentenceOf(text) == Err(Malformed) <==> T.SentenceOf(text).Err? && !CutText(text) && !NodelessText(text)
  {
    TextUndefined(text);
    TextMissing(text);
    OneOfFour(T.SentenceOf(text));
  }

  /** A name without its brackets is a missing node. */
  lemma NameWithoutBrackets(a: string)
    requires IsWord(a) && WordToken(a) == Token(Identifier, a)
    ensures T.SentenceOf("select" + (" " + (a + (" " + ("return" + (" " + a)))))) == Err(NodeNotFound)
  {
    BareNameWritten("select", "return", a);
    SelectName(Token(Identifier, a), [RETURN] + [Token(Identifier, a)], "select" + (" " + (a + (" " + ("return" + (" " + a))))));
  }

  lemma BareNameWritten(sel: string, ret: string, a: string)
    requires sel == "select" && ret == "return" && IsWord(a) && WordToken(a) == Token(Identifier, a)
    ensures var n := Token(Identifier, a);
      WritesAll([SELECT] + ([n] + ([RETURN] + [n])), sel + (" " + (a + (" " + (ret + (" " + a))))))
  {
    var n, end := Token(Identifier, a), " " + (ret + (" " + a));
    T.ReturnWritten(ret, n);
    T.NameWritten(n, end, [RETURN] + [n]);
    T.SelectWritten(sel, a + end, [n] + ([RETURN] + [n]));
  }

  lemma SelectName(n: Token, ts: seq<Token>, text: string)
    requires n.kind == Identifier && WritesAll([SELECT] + ([n] + ts), text) && AllCanonical([SELECT] + ([n] + ts))
    ensures T.SentenceOf(text) == Err(NodeNotFound)
  {
    TokensExact([SELECT] + ([n] + ts), text);
    NodeMissing([n] + ts);
    assert ([SELECT] + ([n] + ts))[1..] == [n] + ts;
  }
}
