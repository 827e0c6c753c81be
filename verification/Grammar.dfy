// The query language by its sentences: which token lists stand for a sentence, and that
// the parser accepts these and no others.
module Grammar {
  import opened Lexer
  import opened Lexemes
  import opened Parser

  // ---------------------------------------------------------------------------
  // The tokens of a sentence.
  // ---------------------------------------------------------------------------

  /** An edge without id and properties may have its brackets left out, and if it has no
      arrow head to the right also its second dash. */
  datatype Style = Short | Double | Bracketed

  function MarkToken(k: Kind): Token {
    match k
    case Dash => Token(Dash, "-")
    case LeftBracket => Token(LeftBracket, "[")
    case RightBracket => Token(RightBracket, "]")
    case Smaller => Token(Smaller, "<")
    case Greater => Token(Greater, ">")
    case Equal => Token(Equal, "=")
    case LeftParen => Token(LeftParen, "(")
    case RightParen => Token(RightParen, ")")
    case Comma => Token(Comma, ",")
    case _ => EOF_TOKEN
  }

  function OperatorKind(r: Relationship): Kind {
    match r
    case RelSmaller => Smaller
    case RelGreater => Greater
    case RelEqual => Equal
  }

  /** A value with a quote in front is a string, any other a number. */
  function ValueToken(value: string): Token {
    if value != "" && value[0] == '"' then Token(String, value) else Token(Number, value)
  }

  /** `t` in front of `r`.  All the functions below put tokens in front of others. */
  function Then(t: Token, r: seq<Token>): (ts: seq<Token>)
    ensures ts != [] && ts[0] == t && ts[1..] == r
  {
    [t] + r
  }

  function PropertyTokens(p: Property, r: seq<Token>): seq<Token> {
    Then(Token(Identifier, p.name), Then(MarkToken(OperatorKind(p.relationship)), Then(ValueToken(p.value), r)))
  }

  function PropertiesTokens(ps: seq<Property>, r: seq<Token>): seq<Token> {
    if ps == [] then r else PropertyTokens(ps[0], PropertiesTokens(ps[1..], r))
  }

  function InsideTokens(id: string, ps: seq<Property>, r: seq<Token>): seq<Token> {
    if id == "" then PropertiesTokens(ps, r) else Then(Token(Identifier, id), PropertiesTokens(ps, r))
  }

  function NodeTokens(n: Node, r: seq<Token>): seq<Token> {
    Then(MarkToken(LeftParen), InsideTokens(n.id, n.properties, Then(MarkToken(RightParen), r)))
  }

  function ArrowTokens(right: bool, r: seq<Token>): seq<Token> {
    if right then Then(MarkToken(Greater), r) else r
  }

  function BodyTokens(e: Edge, style: Style, r: seq<Token>): seq<Token> {
    match style
    case Short => r
    case Double => Then(MarkToken(Dash), ArrowTokens(e.direction == Next, r))
    case Bracketed =>
      Then(MarkToken(LeftBracket), InsideTokens(e.id, e.properties,
        Then(MarkToken(RightBracket), Then(MarkToken(Dash), ArrowTokens(e.direction == Next, r)))))
  }

  function EdgeTokens(e: Edge, style: Style, r: seq<Token>): seq<Token> {
    var dash := Then(MarkToken(Dash), BodyTokens(e, style, r));
    if e.direction == Prev then Then(MarkToken(Smaller), dash) else dash
  }

  predicate Allowed(e: Edge, style: Style) {
    && (style != Bracketed ==> e.id == "" && e.properties == [])
    && (style == Short ==> e.direction != Next)
  }

  predicate AllAllowed(edges: seq<Edge>, styles: seq<Style>) {
    |styles| == |edges| && forall i | 0 <= i < |edges| :: Allowed(edges[i], styles[i])
  }

  function TailTokens(edges: seq<Edge>, styles: seq<Style>, nodes: seq<Node>, r: seq<Token>): seq<Token>
    requires |edges| == |styles| == |nodes|
  {
    if edges == [] then r
    else EdgeTokens(edges[0], styles[0], NodeTokens(nodes[0], TailTokens(edges[1..], styles[1..], nodes[1..], r)))
  }

  function NamesTokens(names: seq<string>): seq<Token> {
    if names == [] then []
    else Then(MarkToken(Comma), Then(Token(Identifier, names[0]), NamesTokens(names[1..])))
  }

  /** An id is a name that does not begin with a colon, or missing. */
  predicate IsId(id: string) {
    id == "" || id[0] != ':'
  }

  /** A path of nodes and edges, and returned names of which all but the first have to be ids. */
  ghost predicate WellFormed(s: Sentence) {
    && |s.nodes| == |s.edges| + 1 && s.returnNames != []
    && (forall i | 0 <= i < |s.nodes| :: IsId(s.nodes[i].id)) && (forall i | 0 <= i < |s.edges| :: IsId(s.edges[i].id))
    && (forall i | 0 < i < |s.returnNames| :: IsValidIdentifier(s.nodes, s.edges, s.returnNames[i]))
  }

  function ReturnTokens(names: seq<string>): seq<Token>
    requires names != []
  {
    Then(RETURN, Then(Token(Identifier, names[0]), NamesTokens(names[1..])))
  }

  /** The tokens of a sentence, with the given styles of its edges. */
  function SentenceTokens(s: Sentence, styles: seq<Style>): seq<Token>
    requires |s.nodes| == |s.edges| + 1 && |styles| == |s.edges| && s.returnNames != []
  {
    Then(SELECT, NodeTokens(s.nodes[0], TailTokens(s.edges, styles, s.nodes[1..], ReturnTokens(s.returnNames))))
  }

  // ---------------------------------------------------------------------------
  // The tokens of a sentence are accepted, and stand for it.
  // ---------------------------------------------------------------------------

  lemma PropertyReads(p: Property, r: seq<Token>)
    ensures PropertyAt(PropertyTokens(p, r)) == Ok(p, r)
  {
    var op := Then(MarkToken(OperatorKind(p.relationship)), Then(ValueToken(p.value), r));
    var ts := PropertyTokens(p, r);
    assert ts[1..] == op && op[1..][1..] == r;
    assert ts[1] == op[0] && ts[2] == op[1..][0] && ts[3..] == op[1..][1..];
  }

  lemma {:induction false} PropertiesRead(end: Kind, ps: seq<Property>, r: seq<Token>)
    requires end != Identifier && Starts(r, end)
    ensures PropertiesAt(end, PropertiesTokens(ps, r)) == Ok(ps, r[1..])
  {
    if ps != [] {
      PropertiesRead(end, ps[1..], r);
      PropertyReads(ps[0], PropertiesTokens(ps[1..], r));
      assert [ps[0]] + ps[1..] == ps;
    }
  }

  /** What follows an id is no logical operator, and what follows a property's name is one. */
  lemma PropertiesStart(ps: seq<Property>, r: seq<Token>)
    requires r != [] && !IsLogicalOp(r[0])
    ensures var ts := PropertiesTokens(ps, r);
      && ts != [] && !IsLogicalOp(ts[0])
      && (ps != [] ==> |ts| > 1 && ts[0].kind == Identifier && IsLogicalOp(ts[1]))
  {
    if ps != [] {
      var ts := PropertiesTokens(ps, r);
      assert ts[1] == ts[1..][0];
    }
  }

  lemma InsideReads(end: Kind, id: string, ps: seq<Property>, r: seq<Token>)
    requires IsId(id) && end in {RightParen, RightBracket} && Starts(r, end)
    ensures InsideAt(end, InsideTokens(id, ps, r)) == Ok((id, ps), r[1..])
  {
    PropertiesStart(ps, r);
    PropertiesRead(end, ps, r);
    var ts := InsideTokens(id, ps, r);
    if id != "" { assert ts[1] == ts[1..][0]; }
  }

  lemma NodeReads(n: Node, r: seq<Token>)
    requires IsId(n.id)
    ensures NodeAt(NodeTokens(n, r)) == Ok(n, r)
  {
    InsideReads(RightParen, n.id, n.properties, Then(MarkToken(RightParen), r));
  }

  /** The tokens `r`, directly behind an edge, are not read as a part of it. */
  predicate EndsEdge(e: Edge, style: Style, r: seq<Token>) {
    if style == Short then r != [] && r[0].kind != Dash && r[0].kind != LeftBracket
    else e.direction == Next || !Starts(r, Greater)
  }

  lemma ArrowReads(right: bool, r: seq<Token>)
    ensures ArrowAt(Then(MarkToken(Dash), ArrowTokens(right, r))) == Ok(right, r) <==> right || !Starts(r, Greater)
  {
    var ts := Then(MarkToken(Dash), ArrowTokens(right, r));
    if right { assert ts[2..] == ts[1..][1..]; }
  }

  lemma BracketReads(e: Edge, r: seq<Token>)
    requires IsId(e.id)
    ensures BodyAt(BodyTokens(e, Bracketed, r)) == Ok(((e.id, e.properties), e.direction == Next), r) <==> EndsEdge(e, Bracketed, r)
  {
    var arrow := Then(MarkToken(Dash), ArrowTokens(e.direction == Next, r));
    ArrowReads(e.direction == Next, r);
    InsideReads(RightBracket, e.id, e.properties, Then(MarkToken(RightBracket), arrow));
  }

  lemma BodyReads(e: Edge, style: Style, r: seq<Token>)
    requires Allowed(e, style) && IsId(e.id)
    ensures BodyAt(BodyTokens(e, style, r)) == Ok(((e.id, e.properties), e.direction == Next), r) <==> EndsEdge(e, style, r)
  {
    match style {
      case Short => ShortReads(e, r);
      case Double => ArrowReads(e.direction == Next, r);
      case Bracketed => BracketReads(e, r);
    }
  }

  lemma ShortReads(e: Edge, r: seq<Token>)
    requires Allowed(e, Short)
    ensures BodyAt(r) == Ok(((e.id, e.properties), e.direction == Next), r) <==> EndsEdge(e, Short, r)
  {
  }

  /** An edge in any of its styles is read as this edge, with everything behind it left over,
      if and only if what stands behind it is not read as a part of it. */
  lemma EdgeReads(e: Edge, style: Style, r: seq<Token>)
    requires Allowed(e, style) && IsId(e.id)
    ensures EdgeAt(EdgeTokens(e, style, r)) == Ok(e, r) <==> EndsEdge(e, style, r)
  {
    BodyReads(e, style, r);
    EdgeFromBody(e, BodyTokens(e, style, r), r);
  }

  lemma EdgeFromBody(e: Edge, body: seq<Token>, r: seq<Token>)
    ensures var dash := Then(MarkToken(Dash), body);
      EdgeAt(if e.direction == Prev then Then(MarkToken(Smaller), dash) else dash) == Ok(e, r) <==>
      BodyAt(body) == Ok(((e.id, e.properties), e.direction == Next), r)
  {
  }

  lemma PairReads(e: Edge, style: Style, n: Node, more: seq<Token>, ts: seq<Token>)
    requires Allowed(e, style) && IsId(e.id) && IsId(n.id) && ts == EdgeTokens(e, style, NodeTokens(n, more))
    ensures EdgeAt(ts) == Ok(e, NodeTokens(n, more)) && NodeAt(NodeTokens(n, more)) == Ok(n, more)
  {
    NodeReads(n, more);
    EdgeReads(e, style, NodeTokens(n, more));
  }

  /** A list of edges and nodes as the parser can have read it. */
  predicate Readable(edges: seq<Edge>, styles: seq<Style>, nodes: seq<Node>) {
    && |edges| == |styles| == |nodes| && AllAllowed(edges, styles)
    && (forall i | 0 <= i < |nodes| :: IsId(nodes[i].id)) && (forall i | 0 <= i < |edges| :: IsId(edges[i].id))
  }

  lemma ReadableRest(edges: seq<Edge>, styles: seq<Style>, nodes: seq<Node>)
    requires Readable(edges, styles, nodes) && edges != []
    ensures Readable(edges[1..], styles[1..], nodes[1..])
  {
  }

  lemma ReadableMore(e: Edge, style: Style, n: Node, edges: seq<Edge>, styles: seq<Style>, nodes: seq<Node>)
    requires Readable(edges, styles, nodes) && Allowed(e, style) && IsId(e.id) && IsId(n.id)
    ensures Readable([e] + edges, [style] + styles, [n] + nodes)
  {
  }

  lemma WithTailStep(edges: seq<Edge>, nodes: seq<Node>, r: Parsed<(seq<Edge>, seq<Node>)>)
    requires edges != [] && nodes != []
    ensures Before(edges[0], nodes[0], WithTail(edges[1..], nodes[1..], r)) == WithTail(edges, nodes, r)
  {
    if r.Ok? {
      assert [edges[0]] + (edges[1..] + r.value.0) == edges + r.value.0;
      assert [nodes[0]] + (nodes[1..] + r.value.1) == nodes + r.value.1;
    }
  }

  /** Edges and nodes are read from the front of any list, and the parser goes on behind them. */
  lemma {:induction false} TailReads(edges: seq<Edge>, styles: seq<Style>, nodes: seq<Node>, r: seq<Token>)
    requires Readable(edges, styles, nodes)
    ensures TailAt(TailTokens(edges, styles, nodes, r)) == WithTail(edges, nodes, TailAt(r))
  {
    if edges == [] {
      WithTailNone(edges, nodes, TailAt(r));
    } else {
      ReadableRest(edges, styles, nodes);
      TailReads(edges[1..], styles[1..], nodes[1..], r);
      PairReads(edges[0], styles[0], nodes[0], TailTokens(edges[1..], styles[1..], nodes[1..], r),
                TailTokens(edges, styles, nodes, r));
      WithTailStep(edges, nodes, TailAt(r));
    }
  }

  lemma WithTailNone(edges: seq<Edge>, nodes: seq<Node>, r: Parsed<(seq<Edge>, seq<Node>)>)
    requires edges == [] && nodes == []
    ensures WithTail(edges, nodes, r) == r
  {
    if r.Ok? { assert edges + r.value.0 == r.value.0 && nodes + r.value.1 == r.value.1; }
  }

  lemma {:induction false} NamesRead(nodes: seq<Node>, edges: seq<Edge>, names: seq<string>)
    requires forall i | 0 <= i < |names| :: IsValidIdentifier(nodes, edges, names[i])
    ensures NamesAt(nodes, edges, NamesTokens(names)) == Ok(names, [])
  {
    if names != [] {
      NamesRead(nodes, edges, names[1..]);
      var ts := NamesTokens(names);
      assert ts[1] == ts[1..][0] && ts[2..] == ts[1..][1..];
      assert [names[0]] + names[1..] == names;
    }
  }

  lemma ReturnReads(nodes: seq<Node>, edges: seq<Edge>, names: seq<string>)
    requires names != [] && forall i | 0 < i < |names| :: IsValidIdentifier(nodes, edges, names[i])
    ensures ReturnAt(nodes, edges, ReturnTokens(names)) == Ok(names, [])
  {
    NamesRead(nodes, edges, names[1..]);
    var ts := ReturnTokens(names);
    assert ts[1] == ts[1..][0] && ts[2..] == ts[1..][1..];
    assert [names[0]] + names[1..] == names;
  }

  /** Every well-formed sentence, however its edges are written, is parsed to itself. */
  lemma SentenceReads(s: Sentence, styles: seq<Style>)
    requires WellFormed(s) && AllAllowed(s.edges, styles)
    ensures SentenceAt(SentenceTokens(s, styles)) == Ok(s, [])
  {
    var ret := ReturnTokens(s.returnNames);
    var tail := TailTokens(s.edges, styles, s.nodes[1..], ret);
    PathReads(s, styles, ret, tail);
    ReturnReads(s.nodes, s.edges, s.returnNames);
    SentenceFromParts(s, NodeTokens(s.nodes[0], tail), tail, ret);
  }

  lemma PathReads(s: Sentence, styles: seq<Style>, r: seq<Token>, tail: seq<Token>)
    requires WellFormed(s) && AllAllowed(s.edges, styles) && Starts(r, Keyword)
    requires tail == TailTokens(s.edges, styles, s.nodes[1..], r)
    ensures NodeAt(NodeTokens(s.nodes[0], tail)) == Ok(s.nodes[0], tail)
    ensures TailAt(tail) == Ok((s.edges, s.nodes[1..]), r)
  {
    NodeReads(s.nodes[0], tail);
    TailReads(s.edges, styles, s.nodes[1..], r);
    assert s.edges + [] == s.edges && s.nodes[1..] + [] == s.nodes[1..];
  }

  lemma SentenceFromParts(s: Sentence, path: seq<Token>, tail: seq<Token>, ret: seq<Token>)
    requires s.nodes != [] && NodeAt(path) == Ok(s.nodes[0], tail)
    requires TailAt(tail) == Ok((s.edges, s.nodes[1..]), ret)
    requires ReturnAt(s.nodes, s.edges, ret) == Ok(s.returnNames, [])
    ensures SentenceAt(Then(SELECT, path)) == Ok(s, [])
  {
    assert [s.nodes[0]] + s.nodes[1..] == s.nodes;
  }

  // ---------------------------------------------------------------------------
  // Nothing else is accepted.
  // ---------------------------------------------------------------------------

  /** A token whose text goes with its kind, as with all that the lexer makes. */
  predicate Plain(t: Token) {
    match t.kind
    case Identifier => t.raw != ""
    case Keyword => true
    case String => t.raw != "" && t.raw[0] == '"'
    case Number => t.raw == "" || t.raw[0] != '"'
    case _ => t == MarkToken(t.kind)
  }

  predicate AllPlain(ts: seq<Token>) {
    forall i | 0 <= i < |ts| :: Plain(ts[i])
  }

  lemma Again(ts: seq<Token>)
    requires ts != []
    ensures ts == Then(ts[0], ts[1..])
  {
  }

  lemma PropertyFound(ts: seq<Token>)
    requires AllPlain(ts) && PropertyAt(ts).Ok?
    ensures var r := PropertyAt(ts); ts == PropertyTokens(r.value, r.rest) && AllPlain(r.rest)
  {
    Again(ts);
    Again(ts[1..]);
    Again(ts[1..][1..]);
    assert ts[1] == ts[1..][0] && ts[2] == ts[1..][1..][0] && ts[3..] == ts[1..][1..][1..];
  }

  lemma {:induction false} PropertiesFound(end: Kind, ts: seq<Token>)
    requires end in {RightParen, RightBracket} && AllPlain(ts) && PropertiesAt(end, ts).Ok?
    ensures var r := PropertiesAt(end, ts);
      ts == PropertiesTokens(r.value, Then(MarkToken(end), r.rest)) && AllPlain(r.rest)
    decreases |ts|
  {
    if ts[0].kind == end {
      Again(ts);
    } else {
      var p := PropertyAt(ts);
      PropertyFound(ts);
      PropertiesFound(end, p.rest);
      var r := PropertiesAt(end, p.rest);
      assert ([p.value] + r.value)[1..] == r.value;
    }
  }

  lemma InsideFound(end: Kind, ts: seq<Token>)
    requires end in {RightParen, RightBracket} && AllPlain(ts) && InsideAt(end, ts).Ok?
    ensures var r := InsideAt(end, ts);
      && ts == InsideTokens(r.value.0, r.value.1, Then(MarkToken(end), r.rest))
      && IsId(r.value.0) && AllPlain(r.rest)
  {
    Again(ts);
    if ts[0].kind != end { PropertiesFound(end, IdAt(ts).rest); }
  }

  lemma NodeFound(ts: seq<Token>)
    requires AllPlain(ts) && NodeAt(ts).Ok?
    ensures var r := NodeAt(ts); ts == NodeTokens(r.value, r.rest) && IsId(r.value.id) && AllPlain(r.rest)
  {
    Again(ts);
    InsideFound(RightParen, ts[1..]);
  }

  lemma ArrowFound(ts: seq<Token>)
    requires AllPlain(ts) && ArrowAt(ts).Ok?
    ensures var r := ArrowAt(ts); ts == Then(MarkToken(Dash), ArrowTokens(r.value, r.rest)) && AllPlain(r.rest)
  {
    Again(ts);
    if ArrowAt(ts).value {
      Again(ts[1..]);
      assert ts[2..] == ts[1..][1..];
    }
  }

  lemma EdgeFound(ts: seq<Token>) returns (style: Style)
    requires AllPlain(ts) && EdgeAt(ts).Ok?
    ensures var r := EdgeAt(ts);
      ts == EdgeTokens(r.value, style, r.rest) && Allowed(r.value, style) && IsId(r.value.id) && AllPlain(r.rest)
  {
    var dash := if ts[0].kind == Smaller then ts[1..] else ts;
    Again(ts);
    Again(dash);
    style := BodyFound(EdgeAt(ts).value, dash[1..]);
  }

  lemma BracketFound(e: Edge, ts: seq<Token>)
    requires AllPlain(ts) && BodyAt(ts).Ok? && BodyAt(ts).value == ((e.id, e.properties), e.direction == Next)
    requires Starts(ts, LeftBracket)
    ensures ts == BodyTokens(e, Bracketed, BodyAt(ts).rest) && IsId(e.id) && AllPlain(BodyAt(ts).rest)
  {
    Again(ts);
    var inside := InsideAt(RightBracket, ts[1..]);
    InsideFound(RightBracket, ts[1..]);
    ArrowFound(inside.rest);
    BracketAgain(e, ts, inside.rest, ArrowAt(inside.rest).rest);
  }

  lemma BracketAgain(e: Edge, ts: seq<Token>, arrow: seq<Token>, r: seq<Token>)
    requires arrow == Then(MarkToken(Dash), ArrowTokens(e.direction == Next, r))
    requires ts == Then(MarkToken(LeftBracket), InsideTokens(e.id, e.properties, Then(MarkToken(RightBracket), arrow)))
    ensures ts == BodyTokens(e, Bracketed, r)
  {
  }

  lemma BodyFound(e: Edge, ts: seq<Token>) returns (style: Style)
    requires AllPlain(ts) && BodyAt(ts).Ok? && BodyAt(ts).value == ((e.id, e.properties), e.direction == Next)
    ensures ts == BodyTokens(e, style, BodyAt(ts).rest) && Allowed(e, style) && IsId(e.id) && AllPlain(BodyAt(ts).rest)
  {
    if ts[0].kind == Dash {
      ArrowFound(ts);
      style := Double;
    } else if ts[0].kind == LeftBracket {
      BracketFound(e, ts);
      style := Bracketed;
    } else {
      style := Short;
    }
  }

  /** Where the parser stops reading pairs of an edge and a node. */
  predicate NoPair(ts: seq<Token>) {
    EdgeAt(ts).Err? || NodeAt(EdgeAt(ts).rest).Err?
  }

  /** Any list begins with all the edges and nodes that are read from it. */
  lemma {:induction false} TailSplit(ts: seq<Token>)
      returns (edges: seq<Edge>, styles: seq<Style>, nodes: seq<Node>, r: seq<Token>)
    requires AllPlain(ts)
    ensures Readable(edges, styles, nodes) && ts == TailTokens(edges, styles, nodes, r) && AllPlain(r) && NoPair(r)
    decreases |ts|
  {
    if NoPair(ts) {
      return [], [], [], ts;
    }
    var e := EdgeAt(ts);
    var style := EdgeFound(ts);
    var n := NodeAt(e.rest);
    NodeFound(e.rest);
    edges, styles, nodes, r := TailSplit(n.rest);
    ReadableMore(e.value, style, n.value, edges, styles, nodes);
    TailTokensStep(e.value, style, n.value, edges, styles, nodes, r);
    edges, styles, nodes := [e.value] + edges, [style] + styles, [n.value] + nodes;
  }

  lemma TailTokensStep(e: Edge, style: Style, n: Node, edges: seq<Edge>, styles: seq<Style>, nodes: seq<Node>, r: seq<Token>)
    requires |edges| == |styles| == |nodes|
    ensures TailTokens([e] + edges, [style] + styles, [n] + nodes, r)
         == EdgeTokens(e, style, NodeTokens(n, TailTokens(edges, styles, nodes, r)))
  {
    assert ([e] + edges)[1..] == edges && ([style] + styles)[1..] == styles && ([n] + nodes)[1..] == nodes;
  }

  lemma TailFound(ts: seq<Token>) returns (styles: seq<Style>)
    requires AllPlain(ts) && TailAt(ts).Ok?
    ensures var r := TailAt(ts); var (edges, nodes) := r.value;
      Readable(edges, styles, nodes) && ts == TailTokens(edges, styles, nodes, r.rest) && AllPlain(r.rest)
  {
    var edges, s, nodes, r := TailSplit(ts);
    TailReads(edges, s, nodes, r);
    assert TailAt(r) == Ok(([], []), r);
    assert edges + [] == edges && nodes + [] == nodes;
    styles := s;
  }

  lemma {:induction false} NamesFound(nodes: seq<Node>, edges: seq<Edge>, ts: seq<Token>)
    requires AllPlain(ts) && NamesAt(nodes, edges, ts).Ok?
    ensures var r := NamesAt(nodes, edges, ts);
      ts == NamesTokens(r.value) && r.rest == [] && forall i | 0 <= i < |r.value| :: IsValidIdentifier(nodes, edges, r.value[i])
    decreases |ts|
  {
    if ts != [] {
      NamesFound(nodes, edges, ts[2..]);
      Again(ts);
      Again(ts[1..]);
      assert ts[1] == ts[1..][0] && ts[2..] == ts[1..][1..];
      var names := NamesAt(nodes, edges, ts[2..]).value;
      assert ([ts[1].raw] + names)[1..] == names;
    }
  }

  lemma ReturnFound(nodes: seq<Node>, edges: seq<Edge>, ts: seq<Token>)
    requires AllPlain(ts) && ReturnAt(nodes, edges, ts).Ok?
    ensures var r := ReturnAt(nodes, edges, ts);
      && r.value != [] && ts == ReturnTokens(r.value) && r.rest == []
      && forall i | 0 < i < |r.value| :: IsValidIdentifier(nodes, edges, r.value[i])
  {
    NamesFound(nodes, edges, ts[2..]);
    Again(ts);
    Again(ts[1..]);
    assert ts[1] == ts[1..][0] && ts[2..] == ts[1..][1..];
    var names := NamesAt(nodes, edges, ts[2..]).value;
    assert ([ts[1].raw] + names)[1..] == names;
  }

  /** What is accepted is a well-formed sentence, written down in one of its styles. */
  lemma SentenceFound(ts: seq<Token>) returns (styles: seq<Style>)
    requires AllPlain(ts) && SentenceAt(ts).Ok?
    ensures var s := SentenceAt(ts).value;
      && WellFormed(s) && AllAllowed(s.edges, styles) && ts == SentenceTokens(s, styles) && SentenceAt(ts).rest == []
  {
    var n := NodeAt(ts[1..]);
    Again(ts);
    NodeFound(ts[1..]);
    styles := TailFound(n.rest);
    var (edges, nodes) := TailAt(n.rest).value;
    ReturnFound([n.value] + nodes, edges, TailAt(n.rest).rest);
    assert ([n.value] + nodes)[1..] == nodes;
  }

  ghost predicate WrittenAs(ts: seq<Token>, s: Sentence, styles: seq<Style>) {
    WellFormed(s) && AllAllowed(s.edges, styles) && ts == SentenceTokens(s, styles)
  }

  /** The parser accepts exactly the token lists of well-formed sentences, and reads each
      as the sentence that it was written for. */
  lemma ParserExact(ts: seq<Token>, s: Sentence)
    requires AllPlain(ts)
    ensures SentenceAt(ts) == Ok(s, []) <==> exists styles :: WrittenAs(ts, s, styles)
  {
    if SentenceAt(ts) == Ok(s, []) {
      var styles := SentenceFound(ts);
      assert WrittenAs(ts, s, styles);
    }
    if exists styles :: WrittenAs(ts, s, styles) {
      var styles :| WrittenAs(ts, s, styles);
      SentenceReads(s, styles);
    }
  }
}
