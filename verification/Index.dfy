// The stored form of a directed graph: node and edge records, and for each node
// the sets of edges that leave and enter it (LevelDbGraph over its database).
module Index {

  type NodeId = string
  type EdgeId = string

  datatype Node = Node(id: NodeId, data: string)
  datatype Edge = Edge(id: EdgeId, from: NodeId, to: NodeId, data: string)

  type Adjacency = map<NodeId, set<EdgeId>>

  datatype Db = Db(nodes: map<NodeId, Node>, edges: map<EdgeId, Edge>, out: Adjacency, into: Adjacency)

  /** A missing index entry counts as the empty set. */
  function Look(m: Adjacency, x: NodeId): set<EdgeId> {
    if x in m then m[x] else {}
  }

  // ---------------------------------------------------------------------------
  // The operations on the stored form.
  // ---------------------------------------------------------------------------

  function SetEdge(db: Db, e: Edge): Db {
    db.(edges := db.edges[e.id := e],
        out := db.out[e.from := Look(db.out, e.from) + {e.id}],
        into := db.into[e.to := Look(db.into, e.to) + {e.id}])
  }

  /** A bundle is stored like its edges one after the other. */
  function SetEdges(db: Db, es: seq<Edge>): Db {
    if es == [] then db else SetEdge(SetEdges(db, es[..|es| - 1]), es[|es| - 1])
  }

  /** Removing an edge takes it out of both indexes; its record stays. */
  function RemoveEdge(db: Db, id: EdgeId): Db {
    if id !in db.edges then db
    else
      var e := db.edges[id];
      db.(out := db.out[e.from := Look(db.out, e.from) - {id}],
          into := db.into[e.to := Look(db.into, e.to) - {id}])
  }

  /** The edges of `s` that have a record saying they leave, or enter, `y`. */
  function From(db: Db, s: set<EdgeId>, y: NodeId): set<EdgeId> {
    set e | e in s && e in db.edges && db.edges[e].from == y
  }

  function To(db: Db, s: set<EdgeId>, y: NodeId): set<EdgeId> {
    set e | e in s && e in db.edges && db.edges[e].to == y
  }

  /** Removing node `x`: its record goes, and its edges leave the index entries of the other
      nodes.  What its own entries hold afterwards does not matter; the edge records stay. */
  ghost predicate NodeRemoved(db: Db, x: NodeId, db': Db) {
    && db'.nodes == db.nodes - {x} && db'.edges == db.edges
    && forall y {:trigger Unlinked(db, x, db', y)} | y != x :: Unlinked(db, x, db', y)
  }

  ghost predicate Unlinked(db: Db, x: NodeId, db': Db, y: NodeId) {
    && Look(db'.out, y) == Look(db.out, y) - From(db, Look(db.into, x), y)
    && Look(db'.into, y) == Look(db.into, y) - To(db, Look(db.out, x), y)
  }

  // ---------------------------------------------------------------------------
  // What the indexes mean.  `live` are the edges set and not removed since,
  // `dead` the nodes that have been removed.
  // ---------------------------------------------------------------------------

  ghost predicate Exact(db: Db, live: set<EdgeId>, dead: set<NodeId>) {
    && dead !! db.nodes.Keys
    && (forall e | e in live :: e in db.edges && db.edges[e].from in db.nodes && db.edges[e].to in db.nodes)
    && (forall x {:trigger OutExact(db, live, x)} | x !in dead :: OutExact(db, live, x))
    && (forall x {:trigger IntoExact(db, live, x)} | x !in dead :: IntoExact(db, live, x))
  }

  ghost predicate OutExact(db: Db, live: set<EdgeId>, x: NodeId) {
    Look(db.out, x) == From(db, live, x)
  }

  ghost predicate IntoExact(db: Db, live: set<EdgeId>, x: NodeId) {
    Look(db.into, x) == To(db, live, x)
  }

  ghost predicate SameEnds(db: Db, live: set<EdgeId>, e: Edge) {
    e.id in live && e.id in db.edges ==> db.edges[e.id].from == e.from && db.edges[e.id].to == e.to
  }

  lemma SetEdgeKeeps(db: Db, live: set<EdgeId>, e: Edge, x: NodeId)
    requires SameEnds(db, live, e) && OutExact(db, live, x) && IntoExact(db, live, x)
    requires forall d | d in live :: d in db.edges
    ensures OutExact(SetEdge(db, e), live + {e.id}, x) && IntoExact(SetEdge(db, e), live + {e.id}, x)
  {
    var db', live' := SetEdge(db, e), live + {e.id};
    assert From(db', live', x) == From(db, live, x) + (if e.from == x then {e.id} else {});
    assert To(db', live', x) == To(db, live, x) + (if e.to == x then {e.id} else {});
  }

  /** A live edge that is set with another end stays in the index of the old one. */
  lemma SetEdgeBreaks(db: Db, live: set<EdgeId>, e: Edge, f: NodeId, t: NodeId)
    requires e.id in live && e.id in db.edges && f == db.edges[e.id].from && t == db.edges[e.id].to
    requires OutExact(db, live, f) && IntoExact(db, live, t)
    ensures f != e.from ==> !OutExact(SetEdge(db, e), live + {e.id}, f)
    ensures t != e.to ==> !IntoExact(SetEdge(db, e), live + {e.id}, t)
  {
    assert e.id in From(db, live, f) && e.id in To(db, live, t);
    assert f != e.from ==> e.id in Look(SetEdge(db, e).out, f) && e.id !in From(SetEdge(db, e), live + {e.id}, f);
    assert t != e.to ==> e.id in Look(SetEdge(db, e).into, t) && e.id !in To(SetEdge(db, e), live + {e.id}, t);
  }

  /** Setting an edge between stored nodes keeps the indexes exact if and only if
      a live edge keeps its ends. */
  lemma SetEdgeExact(db: Db, live: set<EdgeId>, dead: set<NodeId>, e: Edge)
    requires Exact(db, live, dead) && e.from in db.nodes && e.to in db.nodes
    ensures Exact(SetEdge(db, e), live + {e.id}, dead) <==> SameEnds(db, live, e)
  {
    if SameEnds(db, live, e) {
      forall x | x !in dead
        ensures OutExact(SetEdge(db, e), live + {e.id}, x) && IntoExact(SetEdge(db, e), live + {e.id}, x)
      {
        assert OutExact(db, live, x) && IntoExact(db, live, x);
        SetEdgeKeeps(db, live, e, x);
      }
    } else {
      var f, t := db.edges[e.id].from, db.edges[e.id].to;
      assert OutExact(db, live, f) && IntoExact(db, live, t);
      SetEdgeBreaks(db, live, e, f, t);
      assert !OutExact(SetEdge(db, e), live + {e.id}, f) || !IntoExact(SetEdge(db, e), live + {e.id}, t);
    }
  }

  /** A bundle may be stored if each edge may be, in order. */
  ghost predicate Storable(db: Db, live: set<EdgeId>, es: seq<Edge>) {
    es == [] ||
    (var init, e := es[..|es| - 1], es[|es| - 1];
     && Storable(db, live, init)
     && e.from in db.nodes && e.to in db.nodes
     && SameEnds(SetEdges(db, init), live + Ids(init), e))
  }

  function Ids(es: seq<Edge>): set<EdgeId> {
    set e | e in es :: e.id
  }

  lemma {:induction false} SetEdgesExact(db: Db, live: set<EdgeId>, dead: set<NodeId>, es: seq<Edge>)
    requires Exact(db, live, dead) && Storable(db, live, es)
    ensures Exact(SetEdges(db, es), live + Ids(es), dead)
    ensures SetEdges(db, es).nodes == db.nodes
  {
    if es == [] {
      assert live + Ids(es) == live;
    } else {
      var init, e := es[..|es| - 1], es[|es| - 1];
      SetEdgesExact(db, live, dead, init);
      SetEdgeExact(SetEdges(db, init), live + Ids(init), dead, e);
      IdsSnoc(live, es);
    }
  }

  lemma IdsSnoc(live: set<EdgeId>, es: seq<Edge>)
    requires es != []
    ensures live + Ids(es) == live + Ids(es[..|es| - 1]) + {es[|es| - 1].id}
  {
    assert es == es[..|es| - 1] + [es[|es| - 1]];
  }

  lemma RemoveEdgeKeeps(db: Db, live: set<EdgeId>, id: EdgeId, x: NodeId)
    requires OutExact(db, live, x) && IntoExact(db, live, x) && forall d | d in live :: d in db.edges
    ensures OutExact(RemoveEdge(db, id), live - {id}, x) && IntoExact(RemoveEdge(db, id), live - {id}, x)
  {
    var db', live' := RemoveEdge(db, id), live - {id};
    assert From(db', live', x) == From(db, live, x) - {id};
    assert To(db', live', x) == To(db, live, x) - {id};
  }

  lemma RemoveEdgeExact(db: Db, live: set<EdgeId>, dead: set<NodeId>, id: EdgeId)
    requires Exact(db, live, dead)
    ensures Exact(RemoveEdge(db, id), live - {id}, dead)
  {
    forall x | x !in dead
      ensures OutExact(RemoveEdge(db, id), live - {id}, x) && IntoExact(RemoveEdge(db, id), live - {id}, x)
    {
      assert OutExact(db, live, x) && IntoExact(db, live, x);
      RemoveEdgeKeeps(db, live, id, x);
    }
  }

  /** The live edges at a node, in either direction. */
  function Incident(db: Db, live: set<EdgeId>, x: NodeId): set<EdgeId> {
    From(db, live, x) + To(db, live, x)
  }

  lemma RemoveNodeKeeps(db: Db, live: set<EdgeId>, x: NodeId, db': Db, y: NodeId)
    requires NodeRemoved(db, x, db') && x != y
    requires OutExact(db, live, x) && IntoExact(db, live, x) && OutExact(db, live, y) && IntoExact(db, live, y)
    ensures OutExact(db', live - Incident(db, live, x), y) && IntoExact(db', live - Incident(db, live, x), y)
  {
    var live' := live - Incident(db, live, x);
    assert Unlinked(db, x, db', y);
    assert From(db', live', y) == From(db, live, y) - From(db, To(db, live, x), y);
    assert To(db', live', y) == To(db, live, y) - To(db, From(db, live, x), y);
  }

  lemma RemoveNodeExact(db: Db, live: set<EdgeId>, dead: set<NodeId>, x: NodeId, db': Db)
    requires Exact(db, live, dead) && x !in dead && NodeRemoved(db, x, db')
    ensures Exact(db', live - Incident(db, live, x), dead + {x})
  {
    var live' := live - Incident(db, live, x);
    forall y | y !in dead + {x} ensures OutExact(db', live', y) && IntoExact(db', live', y) {
      assert OutExact(db, live, x) && IntoExact(db, live, x) && OutExact(db, live, y) && IntoExact(db, live, y);
      RemoveNodeKeeps(db, live, x, db', y);
    }
    forall e | e in live' ensures e in db'.edges && db'.edges[e].from in db'.nodes && db'.edges[e].to in db'.nodes {
      assert e !in From(db, live, x) && e !in To(db, live, x);
    }
  }

  /** Setting a node that has not been removed before. */
  lemma SetNodeExact(db: Db, live: set<EdgeId>, dead: set<NodeId>, n: Node)
    requires Exact(db, live, dead) && n.id !in dead
    ensures Exact(db.(nodes := db.nodes[n.id := n]), live, dead)
  {
    var db' := db.(nodes := db.nodes[n.id := n]);
    forall x | x !in dead ensures OutExact(db', live, x) && IntoExact(db', live, x) {
      assert OutExact(db, live, x) && IntoExact(db, live, x);
      assert From(db', live, x) == From(db, live, x) && To(db', live, x) == To(db, live, x);
    }
  }

  // ---------------------------------------------------------------------------
  // Runs.
  // ---------------------------------------------------------------------------

  /** The stored form with the history it stands for. */
  datatype State = State(db: Db, live: set<EdgeId>, dead: set<NodeId>)

  datatype Op =
    | OpSetNode(node: Node) | OpSetEdge(edge: Edge) | OpSetEdges(edges: seq<Edge>)
    | OpRemoveEdge(id: EdgeId) | OpRemoveNode(x: NodeId)

  /** What callers owe: edges join stored nodes, a live edge keeps its ends, and
      the id of a removed node is not used again. */
  ghost predicate Allowed(s: State, op: Op) {
    match op
    case OpSetNode(n) => n.id !in s.dead
    case OpSetEdge(e) => e.from in s.db.nodes && e.to in s.db.nodes && SameEnds(s.db, s.live, e)
    case OpSetEdges(es) => Storable(s.db, s.live, es)
    case OpRemoveEdge(_) => true
    case OpRemoveNode(x) => x !in s.dead
  }

  /** What each operation does to the stored form. */
  ghost predicate Step(s: State, op: Op, s': State) {
    match op
    case OpSetNode(n) => s' == s.(db := s.db.(nodes := s.db.nodes[n.id := n]))
    case OpSetEdge(e) => s' == State(SetEdge(s.db, e), s.live + {e.id}, s.dead)
    case OpSetEdges(es) => s' == State(SetEdges(s.db, es), s.live + Ids(es), s.dead)
    case OpRemoveEdge(id) => s' == State(RemoveEdge(s.db, id), s.live - {id}, s.dead)
    case OpRemoveNode(x) =>
      NodeRemoved(s.db, x, s'.db) && s'.live == s.live - Incident(s.db, s.live, x) && s'.dead == s.dead + {x}
  }

  lemma StepExact(s: State, op: Op, s': State)
    requires Exact(s.db, s.live, s.dead) && Allowed(s, op) && Step(s, op, s')
    ensures Exact(s'.db, s'.live, s'.dead)
  {
    match op
    case OpSetNode(n) => SetNodeExact(s.db, s.live, s.dead, n);
    case OpSetEdge(e) => SetEdgeExact(s.db, s.live, s.dead, e);
    case OpSetEdges(es) => SetEdgesExact(s.db, s.live, s.dead, es);
    case OpRemoveEdge(id) => RemoveEdgeExact(s.db, s.live, s.dead, id);
    case OpRemoveNode(x) => RemoveNodeExact(s.db, s.live, s.dead, x, s'.db);
  }

  const EMPTY := State(Db(map[], map[], map[], map[]), {}, {})

  /** A run of allowed operations from the empty store. */
  ghost predicate IsRun(ops: seq<Op>, states: seq<State>) {
    && |states| == |ops| + 1 && states[0] == EMPTY
    && forall i | 0 <= i < |ops| :: Allowed(states[i], ops[i]) && Step(states[i], ops[i], states[i + 1])
  }

  lemma {:induction false} RunStaysExact(ops: seq<Op>, states: seq<State>, k: nat)
    requires IsRun(ops, states) && k <= |ops|
    ensures Exact(states[k].db, states[k].live, states[k].dead)
  {
    if k > 0 {
      RunStaysExact(ops, states, k - 1);
      StepExact(states[k - 1], ops[k - 1], states[k]);
    }
  }

  /** After every run of allowed operations, the index entries of a stored node are
      exactly its live edges. */
  lemma RunExact(ops: seq<Op>, states: seq<State>, x: NodeId)
    requires IsRun(ops, states) && x in states[|ops|].db.nodes
    ensures var s := states[|ops|];
      Look(s.db.out, x) == From(s.db, s.live, x) && Look(s.db.into, x) == To(s.db, s.live, x)
  {
    var s := states[|ops|];
    RunStaysExact(ops, states, |ops|);
    assert OutExact(s.db, s.live, x) && IntoExact(s.db, s.live, x);
  }

  // ---------------------------------------------------------------------------
  // Batches of writes.
  // ---------------------------------------------------------------------------

  datatype Put = PutEdge(edge: Edge) | PutOut(node: NodeId, s: set<EdgeId>) | PutInto(node: NodeId, s: set<EdgeId>)

  function Apply(db: Db, p: Put): Db {
    match p
    case PutEdge(e) => db.(edges := db.edges[e.id := e])
    case PutOut(x, s) => db.(out := db.out[x := s])
    case PutInto(x, s) => db.(into := db.into[x := s])
  }

  /** The database once the batch is written, in order. */
  function ApplyAll(db: Db, batch: seq<Put>): Db {
    if batch == [] then db else Apply(ApplyAll(db, batch[..|batch| - 1]), batch[|batch| - 1])
  }

  lemma ApplySnoc(db: Db, batch: seq<Put>, p: Put)
    ensures ApplyAll(db, batch + [p]) == Apply(ApplyAll(db, batch), p)
  {
    assert (batch + [p])[..|batch|] == batch;
  }

  lemma ApplyNext(db: Db, batch: seq<Put>, i: nat)
    requires i < |batch|
    ensures ApplyAll(db, batch[..i + 1]) == Apply(ApplyAll(db, batch[..i]), batch[i])
  {
    assert batch[..i + 1][..i] == batch[..i];
  }
}
