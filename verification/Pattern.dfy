// From a parsed sentence to the planner: which elements of the pattern are named directly
// (leveldbgraph_deduction.inc).
module Pattern {
  import opened Lexemes
  import P = Parser
  import G = Grammar
  import T = QueryText
  import opened Planner

  datatype Name = NoName | Name(text: string)

  /** Some property asks for one particular id. */
  predicate AcquiredDirectly(ps: seq<P.Property>) {
    exists i :: 0 <= i < |ps| && ps[i].name == "id" && ps[i].relationship == P.RelEqual
  }

  /** The value without its first and last character; the empty value has none. */
  function Strip(value: string): Name {
    if value == "" then NoName else if |value| == 1 then Name("") else Name(value[1..|value| - 1])
  }

  /** The name in the first property called id, whatever its relationship. */
  function GetId(ps: seq<P.Property>): Name {
    if ps == [] then Name("") else if ps[0].name == "id" then Strip(ps[0].value) else GetId(ps[1..])
  }

  /** What a value stands for: a string for its content, a number for itself. */
  function Meant(value: string): string {
    if IsQuoted(value) then value[1..|value| - 1] else value
  }

  lemma {:induction false} FirstId(ps: seq<P.Property>, i: nat)
    requires i < |ps| && ps[i].name == "id" && forall j | 0 <= j < i :: ps[j].name != "id"
    ensures GetId(ps) == Strip(ps[i].value)
  {
    if i > 0 { FirstId(ps[1..], i - 1); }
  }

  /** The engine looks up the element that the query names, in its property `i` that asks for
      one id, if and only if the first property called id, whatever its relationship, is a
      string for the same name, or becomes that name by losing its first and last character. */
  lemma NameLookedUp(ps: seq<P.Property>, first: nat, i: nat)
    requires first <= i < |ps| && ps[first].name == ps[i].name == "id" && ps[i].relationship == P.RelEqual
    requires forall j | 0 <= j < first :: ps[j].name != "id"
    ensures AcquiredDirectly(ps)
    ensures GetId(ps) == Name(Meant(ps[i].value)) <==>
      if IsQuoted(ps[first].value) then Meant(ps[first].value) == Meant(ps[i].value)
      else first < i && Strip(ps[first].value) == Name(Meant(ps[i].value))
  {
    FirstId(ps, first);
  }

  /** With at most one property called id, the engine looks up the element that the query
      names if and only if the name is written as a string. */
  lemma NameIffQuoted(ps: seq<P.Property>, i: nat)
    requires i < |ps| && ps[i].name == "id" && forall j | 0 <= j < |ps| && j != i :: ps[j].name != "id"
    ensures AcquiredDirectly(ps) <==> ps[i].relationship == P.RelEqual
    ensures GetId(ps) == Name(Meant(ps[i].value)) <==> IsQuoted(ps[i].value)
  {
    FirstId(ps, i);
  }

  /** An element without a property called id is not named directly, whatever else is asked
      of it, and there is no name to look up. */
  lemma {:induction false} NamelessNotDirect(ps: seq<P.Property>)
    requires forall i | 0 <= i < |ps| :: ps[i].name != "id"
    ensures !AcquiredDirectly(ps) && GetId(ps) == Name("")
  {
    if ps != [] { NamelessNotDirect(ps[1..]); }
  }

  /** A property that is not an equality on the id makes no difference. */
  lemma OtherProperty(ps: seq<P.Property>, p: P.Property, i: nat)
    requires i <= |ps| && !(p.name == "id" && p.relationship == P.RelEqual)
    ensures AcquiredDirectly(ps[..i] + [p] + ps[i..]) <==> AcquiredDirectly(ps)
  {
    var qs := ps[..i] + [p] + ps[i..];
    if h :| 0 <= h < |ps| && ps[h].name == "id" && ps[h].relationship == P.RelEqual {
      var h' := if h < i then h else h + 1;
      assert qs[h'] == ps[h];
    }
    if h :| 0 <= h < |qs| && qs[h].name == "id" && qs[h].relationship == P.RelEqual {
      var h' := if h < i then h else h - 1;
      assert h != i && ps[h'] == qs[h];
    }
  }

  /** Two properties on the id, of which the first is looked up and the second is meant. */
  lemma WrongName()
    ensures var ps := [P.Property("id", P.RelGreater, "\"a\""), P.Property("id", P.RelEqual, "\"b\"")];
      AcquiredDirectly(ps) && GetId(ps) == Name("a") && Meant(ps[1].value) == "b"
  {
    var ps := [P.Property("id", P.RelGreater, "\"a\""), P.Property("id", P.RelEqual, "\"b\"")];
    assert ps[1].relationship == P.RelEqual;
    assert IsQuoted(ps[0].value) && IsQuoted(ps[1].value);
  }

  /** The positions of the pattern: is the element there named directly? */
  function Directs(s: P.Sentence): (r: seq<bool>)
    requires |s.nodes| == |s.edges| + 1
    ensures |r| == 2 * |s.edges| + 1
  {
    seq(2 * |s.edges| + 1, p requires 0 <= p < 2 * |s.edges| + 1 =>
      AcquiredDirectly(if p % 2 == 0 then s.nodes[p / 2].properties else s.edges[p / 2].properties))
  }

  /** Every accepted query has a plan with one step for each of its elements, each flagged
      exactly for the neighbours visited before it. */
  lemma AcceptedPlanned(text: string)
    requires T.SentenceOf(text).Ok?
    ensures var s := T.SentenceOf(text).value;
      && |s.nodes| == |s.edges| + 1 && |Plan(Directs(s))| == |s.nodes| + |s.edges|
      && Exact(Plan(Directs(s)))
  {
    T.ParseWriteParse(text);
    var s := T.SentenceOf(text).value;
    PlanExact(Directs(s));
    PlanLength(Directs(s));
  }
}
