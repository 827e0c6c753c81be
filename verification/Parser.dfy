// The parser of the query language: recursive descent over a queue of tokens, with one
// token pushed back where a name turns out to be that of a property (graphdsl.cpp).
module Parser {
  import opened Lexer

  datatype Relationship = RelGreater | RelSmaller | RelEqual

  datatype Property = Property(name: string, relationship: Relationship, value: string)

  datatype Node = Node(id: string, properties: seq<Property>)

  datatype Direction = Prev | Next | Bidirection

  datatype Edge = Edge(id: string, direction: Direction, properties: seq<Property>)

  datatype Sentence = Sentence(nodes: seq<Node>, edges: seq<Edge>, returnNames: seq<string>)

  /** The exceptions, and reading the front of an empty queue, which is undefined. */
  datatype Error = NodeNotFound | EdgeNotFound | Malformed | Undefined

  datatype Parsed<T> = Ok(value: T, rest: seq<Token>) | Err(error: Error)

  predicate IsLogicalOp(t: Token) {
    t.kind == Smaller || t.kind == Greater || t.kind == Equal
  }

  predicate IsConstant(t: Token) {
    t.kind == Number || t.kind == String
  }

  function RelationOf(k: Kind): Relationship {
    match k
    case Smaller => RelSmaller
    case Greater => RelGreater
    case _ => RelEqual
  }

  predicate Starts(ts: seq<Token>, k: Kind) {
    ts != [] && ts[0].kind == k
  }

  /** A result with what has been read before it. */
  function WithProperties(ps: seq<Property>, r: Parsed<seq<Property>>): Parsed<seq<Property>> {
    match r
    case Err(e) => Err(e)
    case Ok(qs, rest) => Ok(ps + qs, rest)
  }

  function WithNames(names: seq<string>, r: Parsed<seq<string>>): Parsed<seq<string>> {
    match r
    case Err(e) => Err(e)
    case Ok(more, rest) => Ok(names + more, rest)
  }

  function WithTail(es: seq<Edge>, ns: seq<Node>, r: Parsed<(seq<Edge>, seq<Node>)>): Parsed<(seq<Edge>, seq<Node>)> {
    match r
    case Err(e) => Err(e)
    case Ok((es', ns'), rest) => Ok((es + es', ns + ns'), rest)
  }

  // ---------------------------------------------------------------------------
  // What each parsing procedure makes of the queue.
  // ---------------------------------------------------------------------------

  function PropertyAt(ts: seq<Token>): Parsed<Property> {
    if ts == [] then Err(Undefined)
    else if ts[0].kind != Identifier then Err(Malformed)
    else if |ts| < 2 || !IsLogicalOp(ts[1]) then Err(Malformed)
    else if |ts| < 3 || !IsConstant(ts[2]) then Err(Malformed)
    else Ok(Property(ts[0].raw, RelationOf(ts[1].kind), ts[2].raw), ts[3..])
  }

  /** Properties up to a closing token of kind `end`. */
  function PropertiesAt(end: Kind, ts: seq<Token>): (r: Parsed<seq<Property>>)
    ensures r.Ok? ==> |r.rest| < |ts|
    decreases |ts|
  {
    if ts == [] then Err(Malformed)
    else if ts[0].kind == end then Ok([], ts[1..])
    else
      match PropertyAt(ts)
      case Err(e) => Err(e)
      case Ok(p, rest) =>
        WithProperties([p], PropertiesAt(end, rest))
  }

  /** An identifier is an id unless it begins with a colon or a logical operator follows. */
  function IdAt(ts: seq<Token>): (r: Parsed<string>)
    ensures r.Ok? ==> |r.rest| <= |ts|
  {
    if !Starts(ts, Identifier) then Err(Malformed)
    else if ts[0].raw != "" && ts[0].raw[0] == ':' then Ok("", ts)
    else if |ts| == 1 then Err(Undefined)
    else if IsLogicalOp(ts[1]) then Ok("", ts)
    else Ok(ts[0].raw, ts[1..])
  }

  /** What is between the brackets, and the closing one: an id and properties, or nothing. */
  function InsideAt(end: Kind, ts: seq<Token>): (r: Parsed<(string, seq<Property>)>)
    ensures r.Ok? ==> |r.rest| < |ts|
  {
    if ts == [] then Err(Undefined)
    else if ts[0].kind == end then Ok(("", []), ts[1..])
    else
      match IdAt(ts)
      case Err(e) => Err(e)
      case Ok(id, rest) =>
        match PropertiesAt(end, rest)
        case Err(e) => Err(e)
        case Ok(ps, rest') => Ok((id, ps), rest')
  }

  function NodeAt(ts: seq<Token>): (r: Parsed<Node>)
    ensures r.Ok? ==> |r.rest| < |ts|
  {
    if ts == [] then Err(Undefined)
    else if ts[0].kind != LeftParen then Err(NodeNotFound)
    else
      match InsideAt(RightParen, ts[1..])
      case Err(e) => Err(e)
      case Ok(inside, rest) => Ok(Node(inside.0, inside.1), rest)
  }

  /** A dash and whether an arrow head follows it. */
  function ArrowAt(ts: seq<Token>): (r: Parsed<bool>)
    ensures r.Ok? ==> |r.rest| < |ts|
  {
    if !Starts(ts, Dash) then Err(Malformed)
    else if Starts(ts[1..], Greater) then Ok(true, ts[2..])
    else Ok(false, ts[1..])
  }

  /** The part of an edge after its first dash: id, properties, and the arrow head. */
  function BodyAt(ts: seq<Token>): (r: Parsed<((string, seq<Property>), bool)>)
    ensures r.Ok? ==> |r.rest| <= |ts|
  {
    if ts == [] then Err(Malformed)
    else if ts[0].kind == Dash then
      match ArrowAt(ts)
      case Err(e) => Err(e)
      case Ok(right, rest) => Ok((("", []), right), rest)
    else if ts[0].kind == LeftBracket then
      match InsideAt(RightBracket, ts[1..])
      case Err(e) => Err(e)
      case Ok(inside, rest) =>
        match ArrowAt(rest)
        case Err(e) => Err(e)
        case Ok(right, rest') => Ok((inside, right), rest')
    else Ok((("", []), false), ts)
  }

  function DirectionOf(left: bool, right: bool): Direction {
    if left then Prev else if right then Next else Bidirection
  }

  function EdgeAt(ts: seq<Token>): (r: Parsed<Edge>)
    ensures r.Ok? ==> |r.rest| < |ts|
  {
    if ts == [] then Err(Malformed)
    else if ts[0].kind != Dash && ts[0].kind != Smaller then Err(EdgeNotFound)
    else
      var left := ts[0].kind == Smaller;
      var dash := if left then ts[1..] else ts;
      if !Starts(dash, Dash) then Err(Malformed)
      else
        match BodyAt(dash[1..])
        case Err(e) => Err(e)
        case Ok(((id, ps), right), rest) =>
          if left && right then Err(Malformed) else Ok(Edge(id, DirectionOf(left, right), ps), rest)
  }

  /** Edges, each with the node after it, until no edge follows. */
  function TailAt(ts: seq<Token>): Parsed<(seq<Edge>, seq<Node>)>
    decreases |ts|
  {
    match EdgeAt(ts)
    case Err(e) => if e == EdgeNotFound then Ok(([], []), ts) else Err(e)
    case Ok(edge, rest) =>
      match NodeAt(rest)
      case Err(e) => Err(e)
      case Ok(node, rest') => Before(edge, node, TailAt(rest'))
  }

  function Before(edge: Edge, node: Node, r: Parsed<(seq<Edge>, seq<Node>)>): Parsed<(seq<Edge>, seq<Node>)> {
    match r
    case Err(e) => Err(e)
    case Ok((es, ns), rest) => Ok(([edge] + es, [node] + ns), rest)
  }

  predicate IsValidIdentifier(nodes: seq<Node>, edges: seq<Edge>, name: string) {
    name != "" && ((exists n :: n in nodes && n.id == name) || (exists e :: e in edges && e.id == name))
  }

  /** The names after the first one, each after a comma. */
  function NamesAt(nodes: seq<Node>, edges: seq<Edge>, ts: seq<Token>): Parsed<seq<string>>
    decreases |ts|
  {
    if ts == [] then Ok([], [])
    else if ts[0].kind != Comma || !Starts(ts[1..], Identifier) then Err(Malformed)
    else if !IsValidIdentifier(nodes, edges, ts[1].raw) then Err(Malformed)
    else
      WithNames([ts[1].raw], NamesAt(nodes, edges, ts[2..]))
  }

  const SELECT := Token(Keyword, "select")
  const RETURN := Token(Keyword, "return")

  /** The part after the path: the keyword, the first name, which is not checked, and the others. */
  function ReturnAt(nodes: seq<Node>, edges: seq<Edge>, ts: seq<Token>): Parsed<seq<string>> {
    if ts == [] then Err(Undefined)
    else if ts[0] != RETURN then Err(Malformed)
    else if |ts| == 1 then Err(Undefined)
    else if ts[1].kind != Identifier then Err(Malformed)
    else
      WithNames([ts[1].raw], NamesAt(nodes, edges, ts[2..]))
  }

  function SentenceAt(ts: seq<Token>): Parsed<Sentence> {
    if ts == [] then Err(Undefined)
    else if ts[0] != SELECT then Err(Malformed)
    else
      match NodeAt(ts[1..])
      case Err(e) => Err(e)
      case Ok(node, rest) =>
        match TailAt(rest)
        case Err(e) => Err(e)
        case Ok((edges, nodes), rest') =>
          match ReturnAt([node] + nodes, edges, rest')
          case Err(e) => Err(e)
          case Ok(names, rest'') => Ok(Sentence([node] + nodes, edges, names), rest'')
  }

  // ---------------------------------------------------------------------------
  // The procedures.
  // ---------------------------------------------------------------------------

  class TokenQueue {
    var tokens: seq<Token>

    constructor (tokens: seq<Token>)
      ensures this.tokens == tokens
    {
      this.tokens := tokens;
    }

    predicate IsEmpty()
      reads this
    {
      tokens == []
    }

    function Front(): Token
      requires !IsEmpty()
      reads this
    {
      tokens[0]
    }

    method PopFront()
      requires !IsEmpty()
      modifies this
      ensures tokens == old(tokens)[1..]
    {
      tokens := tokens[1..];
    }

    method PushFront(t: Token)
      modifies this
      ensures tokens == [t] + old(tokens)
    {
      tokens := [t] + tokens;
    }

    method GetProperty() returns (r: Parsed<Property>)
      modifies this
      ensures r == PropertyAt(old(tokens)) && (r.Ok? ==> tokens == r.rest)
    {
      if IsEmpty() { return Err(Undefined); }
      if Front().kind != Identifier { return Err(Malformed); }
      var name := Front().raw;
      PopFront();
      if IsEmpty() || !IsLogicalOp(Front()) { return Err(Malformed); }
      var relationship;
      match Front().kind {
        case Smaller => relationship := RelSmaller;
        case Greater => relationship := RelGreater;
        case _ => relationship := RelEqual;
      }
      PopFront();
      if IsEmpty() || !IsConstant(Front()) { return Err(Malformed); }
      var value := Front().raw;
      PopFront();
      r := Ok(Property(name, relationship, value), tokens);
    }

    method GetPropertyList(end: Kind) returns (r: Parsed<seq<Property>>)
      modifies this
      ensures r == PropertiesAt(end, old(tokens)) && (r.Ok? ==> tokens == r.rest)
    {
      var result: seq<Property> := [];
      WithPropertiesNext([], Property("", RelEqual, ""), PropertiesAt(end, tokens));
      while true
        invariant PropertiesAt(end, old(tokens)) == WithProperties(result, PropertiesAt(end, tokens))
        decreases |tokens|
      {
        if IsEmpty() { return Err(Malformed); }
        if Front().kind == end {
          PopFront();
          assert result + [] == result;
          return Ok(result, tokens);
        }
        var p := GetProperty();
        if p.Err? { return Err(p.error); }
        WithPropertiesNext(result, p.value, PropertiesAt(end, tokens));
        result := result + [p.value];
      }
    }

    method GetId() returns (r: Parsed<string>)
      modifies this
      ensures r == IdAt(old(tokens)) && (r.Ok? ==> tokens == r.rest)
    {
      if IsEmpty() || Front().kind != Identifier { return Err(Malformed); }
      var first := Front();
      PopFront();
      var colon := first.raw != "" && first.raw[0] == ':';
      if !colon && IsEmpty() { return Err(Undefined); }
      if !colon && !IsLogicalOp(Front()) { return Ok(first.raw, tokens); }
      PushFront(first);
      r := Ok("", tokens);
    }

    /** The id and the properties between brackets. */
    method GetInside(end: Kind) returns (r: Parsed<(string, seq<Property>)>)
      modifies this
      ensures r == InsideAt(end, old(tokens)) && (r.Ok? ==> tokens == r.rest)
    {
      if IsEmpty() { return Err(Undefined); }
      if Front().kind == end {
        PopFront();
        return Ok(("", []), tokens);
      }
      var id := GetId();
      if id.Err? { return Err(id.error); }
      var ps := GetPropertyList(end);
      if ps.Err? { return Err(ps.error); }
      r := Ok((id.value, ps.value), tokens);
    }

    method GetNode() returns (r: Parsed<Node>)
      modifies this
      ensures r == NodeAt(old(tokens)) && (r.Ok? ==> tokens == r.rest)
    {
      if IsEmpty() { return Err(Undefined); }
      if Front().kind != LeftParen { return Err(NodeNotFound); }
      PopFront();
      var inside := GetInside(RightParen);
      if inside.Err? { return Err(inside.error); }
      r := Ok(Node(inside.value.0, inside.value.1), tokens);
    }

    method EdgeTrailingDir() returns (r: Parsed<bool>)
      modifies this
      ensures r == ArrowAt(old(tokens)) && (r.Ok? ==> tokens == r.rest)
    {
      if IsEmpty() || Front().kind != Dash { return Err(Malformed); }
      PopFront();
      if IsEmpty() || Front().kind != Greater { return Ok(false, tokens); }
      PopFront();
      r := Ok(true, tokens);
    }

    /** If no edge is found, the queue is as before. */
    method GetEdge() returns (r: Parsed<Edge>)
      modifies this
      ensures r == EdgeAt(old(tokens)) && (r.Ok? ==> tokens == r.rest)
      ensures r == Err(EdgeNotFound) ==> tokens == old(tokens)
    {
      if IsEmpty() { return Err(Malformed); }
      var left := false;
      if Front().kind == Smaller {
        PopFront();
        left := true;
      } else if Front().kind != Dash {
        return Err(EdgeNotFound);
      }
      if IsEmpty() || Front().kind != Dash { return Err(Malformed); }
      PopFront();
      BodyErrors(tokens);
      var body := GetEdgeBody();
      if body.Err? { return Err(body.error); }
      var ((id, ps), right) := body.value;
      if left {
        if right { return Err(Malformed); }
        r := Ok(Edge(id, Prev, ps), tokens);
      } else if right {
        r := Ok(Edge(id, Next, ps), tokens);
      } else {
        r := Ok(Edge(id, Bidirection, ps), tokens);
      }
    }

    method GetEdgeBody() returns (r: Parsed<((string, seq<Property>), bool)>)
      modifies this
      ensures r == BodyAt(old(tokens)) && (r.Ok? ==> tokens == r.rest)
    {
      if IsEmpty() { return Err(Malformed); }
      if Front().kind == Dash {
        var right := EdgeTrailingDir();
        if right.Err? { return Err(right.error); }
        return Ok((("", []), right.value), tokens);
      }
      if Front().kind != LeftBracket { return Ok((("", []), false), tokens); }
      PopFront();
      var inside := GetInside(RightBracket);
      if inside.Err? { return Err(inside.error); }
      var right := EdgeTrailingDir();
      if right.Err? { return Err(right.error); }
      r := Ok((inside.value, right.value), tokens);
    }

    /** The loop over edges and nodes. */
    method GetTail() returns (r: Parsed<(seq<Edge>, seq<Node>)>)
      modifies this
      ensures r == TailAt(old(tokens)) && (r.Ok? ==> tokens == r.rest)
    {
      var edges: seq<Edge>, nodes: seq<Node> := [], [];
      WithTailNone(TailAt(tokens));
      while true
        invariant TailAt(old(tokens)) == WithTail(edges, nodes, TailAt(tokens))
        decreases |tokens|
      {
        TailStep(edges, nodes, tokens);
        var e := GetEdge();
        if e == Err(EdgeNotFound) { return Ok((edges, nodes), tokens); }
        if e.Err? { return Err(e.error); }
        var n := GetNode();
        if n.Err? { return Err(n.error); }
        edges, nodes := edges + [e.value], nodes + [n.value];
      }
    }

    method GetNames(nodes: seq<Node>, edges: seq<Edge>) returns (r: Parsed<seq<string>>)
      modifies this
      ensures r == NamesAt(nodes, edges, old(tokens)) && (r.Ok? ==> tokens == r.rest)
    {
      var names: seq<string> := [];
      WithNamesNext([], "", NamesAt(nodes, edges, tokens));
      while !IsEmpty()
        invariant NamesAt(nodes, edges, old(tokens)) == WithNames(names, NamesAt(nodes, edges, tokens))
        decreases |tokens|
      {
        if Front().kind != Comma { return Err(Malformed); }
        PopFront();
        if IsEmpty() || Front().kind != Identifier { return Err(Malformed); }
        var name := Front().raw;
        PopFront();
        if !IsValidIdentifier(nodes, edges, name) { return Err(Malformed); }
        WithNamesNext(names, name, NamesAt(nodes, edges, tokens));
        names := names + [name];
      }
      assert names + [] == names;
      r := Ok(names, tokens);
    }

    method GetSentence() returns (r: Parsed<Sentence>)
      modifies this
      ensures r == SentenceAt(old(tokens)) && (r.Ok? ==> tokens == r.rest)
    {
      if IsEmpty() { return Err(Undefined); }
      if Front() != SELECT { return Err(Malformed); }
      PopFront();
      var node := GetNode();
      if node.Err? { return Err(node.error); }
      var tail := GetTail();
      if tail.Err? { return Err(tail.error); }
      var nodes, edges := [node.value] + tail.value.1, tail.value.0;
      if IsEmpty() { return Err(Undefined); }
      if Front() != RETURN { return Err(Malformed); }
      PopFront();
      if IsEmpty() { return Err(Undefined); }
      var first := Front();
      if first.kind != Identifier { return Err(Malformed); }
      PopFront();
      var names := GetNames(nodes, edges);
      if names.Err? { return Err(names.error); }
      r := Ok(Sentence(nodes, edges, [first.raw] + names.value), tokens);
    }
  }

  lemma WithTailNone(r: Parsed<(seq<Edge>, seq<Node>)>)
    ensures WithTail([], [], r) == r
  {
    if r.Ok? { assert [] + r.value.0 == r.value.0 && [] + r.value.1 == r.value.1; }
  }

  lemma WithTailNext(es: seq<Edge>, ns: seq<Node>, e: Edge, n: Node, r: Parsed<(seq<Edge>, seq<Node>)>)
    ensures WithTail(es, ns, Before(e, n, r)) == WithTail(es + [e], ns + [n], r)
  {
    if r.Ok? {
      assert es + ([e] + r.value.0) == (es + [e]) + r.value.0;
      assert ns + ([n] + r.value.1) == (ns + [n]) + r.value.1;
    }
  }

  /** One round of the loop over edges and nodes. */
  lemma TailStep(es: seq<Edge>, ns: seq<Node>, ts: seq<Token>)
    ensures WithTail(es, ns, TailAt(ts)) ==
      match EdgeAt(ts)
      case Err(e) => if e == EdgeNotFound then Ok((es, ns), ts) else Err(e)
      case Ok(edge, rest) =>
        match NodeAt(rest)
        case Err(e) => Err(e)
        case Ok(node, rest') => WithTail(es + [edge], ns + [node], TailAt(rest'))
  {
    match EdgeAt(ts)
    case Err(_) => assert es + [] == es && ns + [] == ns;
    case Ok(edge, rest) =>
      match NodeAt(rest)
      case Err(_) =>
      case Ok(node, rest') => WithTailNext(es, ns, edge, node, TailAt(rest'));
  }

  lemma WithPropertiesNext(ps: seq<Property>, p: Property, r: Parsed<seq<Property>>)
    ensures WithProperties(ps, WithProperties([p], r)) == WithProperties(ps + [p], r)
    ensures WithProperties([], r) == r
  {
    if r.Ok? { assert ps + ([p] + r.value) == (ps + [p]) + r.value && [] + r.value == r.value; }
  }

  lemma WithNamesNext(names: seq<string>, name: string, r: Parsed<seq<string>>)
    ensures WithNames(names, WithNames([name], r)) == WithNames(names + [name], r)
    ensures WithNames([], r) == r
  {
    if r.Ok? { assert names + ([name] + r.value) == (names + [name]) + r.value && [] + r.value == r.value; }
  }

  /** A failure inside an edge is not taken for the absence of an edge. */
  lemma BodyErrors(ts: seq<Token>)
    ensures BodyAt(ts) != Err(EdgeNotFound)
  {
    if ts != [] { InsideErrors(RightBracket, ts[1..]); }
  }

  lemma InsideErrors(end: Kind, ts: seq<Token>)
    ensures InsideAt(end, ts) != Err(EdgeNotFound)
  {
    if IdAt(ts).Ok? { PropertiesErrors(end, IdAt(ts).rest); }
  }

  lemma {:induction false} PropertiesErrors(end: Kind, ts: seq<Token>)
    ensures PropertiesAt(end, ts) != Err(EdgeNotFound)
    decreases |ts|
  {
    if PropertyAt(ts).Ok? { PropertiesErrors(end, PropertyAt(ts).rest); }
  }
}
