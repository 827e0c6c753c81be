// The store with its two caches as a state machine: what each operation does to the database
// and to the caches, and when that is what the operation promises.
module CachedSteps {
  import opened Batches
  import opened Index
  import opened MruMap

  datatype Cached = Cached(s: State, outs: Uses<NodeId>, ins: Uses<NodeId>)

  /** `ids` are the elements of `s` in some order. */
  ghost predicate Lists(ids: seq<EdgeId>, s: set<EdgeId>) {
    (forall d :: d in ids <==> d in s) && forall i, j | 0 <= i < j < |ids| :: ids[i] != ids[j]
  }

  /** The order in which sets are iterated. */
  ghost predicate Ordering(listed: set<EdgeId> -> seq<EdgeId>) {
    forall s :: Lists(listed(s), s)
  }

  // ---------------------------------------------------------------------------
  // The updates of the indexes.
  // ---------------------------------------------------------------------------

  function OutUpdates(es: seq<Edge>): seq<Update> {
    seq(|es|, i requires 0 <= i < |es| => Update(es[i].from, es[i].id))
  }

  function InUpdates(es: seq<Edge>): seq<Update> {
    seq(|es|, i requires 0 <= i < |es| => Update(es[i].to, es[i].id))
  }

  /** The edges that have a record, each at its source, or at its target. */
  function SourceUpdates(db: Db, ids: seq<EdgeId>): seq<Update> {
    if ids == [] then []
    else
      var id := ids[|ids| - 1];
      SourceUpdates(db, ids[..|ids| - 1]) + if id in db.edges then [Update(db.edges[id].from, id)] else []
  }

  function TargetUpdates(db: Db, ids: seq<EdgeId>): seq<Update> {
    if ids == [] then []
    else
      var id := ids[|ids| - 1];
      TargetUpdates(db, ids[..|ids| - 1]) + if id in db.edges then [Update(db.edges[id].to, id)] else []
  }

  /** When `x` is removed, the edges that enter it are taken from their sources. */
  function LeavingUpdates(db: Db, listed: set<EdgeId> -> seq<EdgeId>, x: NodeId): seq<Update> {
    SourceUpdates(db, listed(Look(db.into, x)))
  }

  /** The edges that leave `x`, read again after that through the cache. */
  ghost function OutRead(c: Uses<NodeId>, db: Db, us: seq<Update>, x: NodeId): set<EdgeId> {
    Look(if x in After(c, us).stamps then Written(c, db.out, us, false) else db.out, x)
  }

  /** These are then taken from their targets. */
  ghost function EnteringUpdates(c: Uses<NodeId>, db: Db, listed: set<EdgeId> -> seq<EdgeId>, x: NodeId): seq<Update> {
    TargetUpdates(db, listed(OutRead(c, db, LeavingUpdates(db, listed, x), x)))
  }

  // ---------------------------------------------------------------------------
  // The operations.
  // ---------------------------------------------------------------------------

  ghost function Bundled(m: Cached, es: seq<Edge>): Cached {
    var db := m.s.db;
    Cached(State(db.(edges := SetEdges(db, es).edges,
                     out := Written(m.outs, db.out, OutUpdates(es), true),
                     into := Written(m.ins, db.into, InUpdates(es), true)),
                 m.s.live + Ids(es), m.s.dead),
           After(m.outs, OutUpdates(es)), After(m.ins, InUpdates(es)))
  }

  ghost function EdgeRemoved(m: Cached, id: EdgeId): Cached {
    var db := m.s.db;
    var us, ws := SourceUpdates(db, [id]), TargetUpdates(db, [id]);
    Cached(State(db.(out := Written(m.outs, db.out, us, false), into := Written(m.ins, db.into, ws, false)),
                 m.s.live - {id}, m.s.dead),
           After(m.outs, us), After(m.ins, ws))
  }

  ghost function WithoutNode(m: Cached, listed: set<EdgeId> -> seq<EdgeId>, x: NodeId): Cached {
    var db, ins := m.s.db, Found(m.ins, x);
    var us, ws := LeavingUpdates(db, listed, x), EnteringUpdates(m.outs, db, listed, x);
    Cached(State(Db(db.nodes - {x}, db.edges, Written(m.outs, db.out, us, false), Written(ins, db.into, ws, false)),
                 m.s.live - Incident(db, m.s.live, x), m.s.dead + {x}),
           Found(After(m.outs, us), x), After(ins, ws))
  }

  ghost function Next(m: Cached, listed: set<EdgeId> -> seq<EdgeId>, op: Op): Cached {
    match op
    case OpSetNode(n) => m.(s := m.s.(db := m.s.db.(nodes := m.s.db.nodes[n.id := n])))
    case OpSetEdge(e) => Bundled(m, [e])
    case OpSetEdges(es) => Bundled(m, es)
    case OpRemoveEdge(id) => EdgeRemoved(m, id)
    case OpRemoveNode(x) => WithoutNode(m, listed, x)
  }

  /** No reference into a cache dangles. */
  ghost predicate Executable(m: Cached, listed: set<EdgeId> -> seq<EdgeId>, op: Op) {
    match op
    case OpSetNode(_) => true
    case OpSetEdge(e) => Solid(m.outs, OutUpdates([e])) && Solid(m.ins, InUpdates([e]))
    case OpSetEdges(es) => Solid(m.outs, OutUpdates(es)) && Solid(m.ins, InUpdates(es))
    case OpRemoveEdge(id) => Solid(m.outs, SourceUpdates(m.s.db, [id])) && Solid(m.ins, TargetUpdates(m.s.db, [id]))
    case OpRemoveNode(x) =>
      Solid(m.outs, LeavingUpdates(m.s.db, listed, x))
      && Solid(Found(m.ins, x), EnteringUpdates(m.outs, m.s.db, listed, x))
  }

  /** No update of another node than one that is removed is lost on the way. */
  ghost predicate Lossless(m: Cached, listed: set<EdgeId> -> seq<EdgeId>, op: Op) {
    match op
    case OpSetNode(_) => true
    case OpSetEdge(_) => true
    case OpSetEdges(es) =>
      NothingLost(m.outs, m.s.db.out, OutUpdates(es), true) && NothingLost(m.ins, m.s.db.into, InUpdates(es), true)
    case OpRemoveEdge(_) => true
    case OpRemoveNode(x) => forall y {:trigger NothingLostElsewhere(m, listed, x, y)} | y != x :: NothingLostElsewhere(m, listed, x, y)
  }

  ghost predicate NothingLostElsewhere(m: Cached, listed: set<EdgeId> -> seq<EdgeId>, x: NodeId, y: NodeId) {
    && NothingLostAt(m.outs, m.s.db.out, LeavingUpdates(m.s.db, listed, x), false, y)
    && NothingLostAt(Found(m.ins, x), m.s.db.into, EnteringUpdates(m.outs, m.s.db, listed, x), false, y)
  }

  // ---------------------------------------------------------------------------
  // Each operation does what it promises if and only if nothing is lost.
  // ---------------------------------------------------------------------------

  lemma UpdatesSnoc(es: seq<Edge>)
    requires es != []
    ensures var init, e := es[..|es| - 1], es[|es| - 1];
      && OutUpdates(es) == OutUpdates(init) + [Update(e.from, e.id)]
      && InUpdates(es) == InUpdates(init) + [Update(e.to, e.id)]
  {
  }

  lemma {:induction false} BundleIdeal(db: Db, es: seq<Edge>)
    ensures SetEdges(db, es).out == Ideal(db.out, OutUpdates(es), true)
    ensures SetEdges(db, es).into == Ideal(db.into, InUpdates(es), true)
    ensures SetEdges(db, es).nodes == db.nodes
  {
    if es != [] {
      var init := es[..|es| - 1];
      BundleIdeal(db, init);
      UpdatesSnoc(es);
      assert OutUpdates(es)[..|es| - 1] == OutUpdates(init) && InUpdates(es)[..|es| - 1] == InUpdates(init);
    }
  }

  lemma BundleExact(m: Cached, es: seq<Edge>)
    ensures Step(m.s, OpSetEdges(es), Bundled(m, es).s) <==>
      NothingLost(m.outs, m.s.db.out, OutUpdates(es), true) && NothingLost(m.ins, m.s.db.into, InUpdates(es), true)
  {
    BundleIdeal(m.s.db, es);
    BatchExact(m.outs, m.s.db.out, OutUpdates(es), true);
    BatchExact(m.ins, m.s.db.into, InUpdates(es), true);
  }

  /** A single update is never lost. */
  lemma SingleExact(c: Uses<NodeId>, stored: Adjacency, us: seq<Update>, add: bool)
    requires |us| <= 1
    ensures Written(c, stored, us, add) == Ideal(stored, us, add) && NothingLost(c, stored, us, add)
  {
    if us != [] { assert us[..|us| - 1] == []; }
    BatchExact(c, stored, us, add);
  }

  lemma SetEdgeSteps(m: Cached, e: Edge)
    ensures Step(m.s, OpSetEdge(e), Bundled(m, [e]).s)
  {
    SingleExact(m.outs, m.s.db.out, OutUpdates([e]), true);
    SingleExact(m.ins, m.s.db.into, InUpdates([e]), true);
    BundleExact(m, [e]);
    assert [e][..0] == [] && SetEdges(m.s.db, [e]) == SetEdge(SetEdges(m.s.db, []), e);
    assert Ids([e]) == {e.id};
  }

  lemma RemoveEdgeSteps(m: Cached, id: EdgeId)
    ensures Step(m.s, OpRemoveEdge(id), EdgeRemoved(m, id).s)
  {
    var db := m.s.db;
    var us, ws := SourceUpdates(db, [id]), TargetUpdates(db, [id]);
    SingleUpdates(db, id);
    SingleExact(m.outs, db.out, us, false);
    SingleExact(m.ins, db.into, ws, false);
    if id in db.edges { assert us[..0] == [] && ws[..0] == []; }
  }

  lemma SingleUpdates(db: Db, id: EdgeId)
    ensures SourceUpdates(db, [id]) == if id in db.edges then [Update(db.edges[id].from, id)] else []
    ensures TargetUpdates(db, [id]) == if id in db.edges then [Update(db.edges[id].to, id)] else []
  {
    assert [id][..0] == [];
  }

  lemma {:induction false} UpdatesMember(db: Db, ids: seq<EdgeId>, u: Update)
    ensures u in SourceUpdates(db, ids) <==> u.edge in ids && u.edge in db.edges && db.edges[u.edge].from == u.node
    ensures u in TargetUpdates(db, ids) <==> u.edge in ids && u.edge in db.edges && db.edges[u.edge].to == u.node
  {
    if ids != [] {
      var init := ids[..|ids| - 1];
      assert ids == init + [ids[|ids| - 1]];
      UpdatesMember(db, init, u);
    }
  }

  /** One after the other, the updates take away the listed edges. */
  lemma SourcesIdeal(db: Db, ids: seq<EdgeId>, s: set<EdgeId>, y: NodeId)
    requires Lists(ids, s)
    ensures Look(Ideal(db.out, SourceUpdates(db, ids), false), y) == Look(db.out, y) - From(db, s, y)
  {
    forall d ensures d in Look(Ideal(db.out, SourceUpdates(db, ids), false), y) <==> d in Look(db.out, y) - From(db, s, y) {
      IdealMember(db.out, SourceUpdates(db, ids), false, Update(y, d));
      UpdatesMember(db, ids, Update(y, d));
    }
  }

  lemma TargetsIdeal(db: Db, ids: seq<EdgeId>, s: set<EdgeId>, y: NodeId)
    requires Lists(ids, s)
    ensures Look(Ideal(db.into, TargetUpdates(db, ids), false), y) == Look(db.into, y) - To(db, s, y)
  {
    forall d ensures d in Look(Ideal(db.into, TargetUpdates(db, ids), false), y) <==> d in Look(db.into, y) - To(db, s, y) {
      IdealMember(db.into, TargetUpdates(db, ids), false, Update(y, d));
      UpdatesMember(db, ids, Update(y, d));
    }
  }

  /** However the second pass reads the edges that leave `x`, it misses none that ends elsewhere. */
  lemma OutReadEnough(m: Cached, listed: set<EdgeId> -> seq<EdgeId>, x: NodeId, y: NodeId)
    requires Exact(m.s.db, m.s.live, m.s.dead) && x !in m.s.dead && x != y && Ordering(listed)
    ensures var db := m.s.db;
      To(db, OutRead(m.outs, db, LeavingUpdates(db, listed, x), x), y) == To(db, Look(db.out, x), y)
  {
    var db := m.s.db;
    var us := LeavingUpdates(db, listed, x);
    var read := OutRead(m.outs, db, us, x);
    assert IntoExact(db, m.s.live, x) && Lists(listed(Look(db.into, x)), Look(db.into, x));
    forall d ensures d in To(db, read, y) <==> d in To(db, Look(db.out, x), y) {
      WrittenMember(m.outs, db.out, us, false, Update(x, d));
      UpdatesMember(db, listed(Look(db.into, x)), Update(x, d));
    }
  }

  lemma ElsewhereExact(m: Cached, listed: set<EdgeId> -> seq<EdgeId>, x: NodeId, y: NodeId)
    requires Exact(m.s.db, m.s.live, m.s.dead) && x !in m.s.dead && x != y && Ordering(listed)
    ensures Unlinked(m.s.db, x, WithoutNode(m, listed, x).s.db, y) <==> NothingLostElsewhere(m, listed, x, y)
  {
    var db := m.s.db;
    var us, ws := LeavingUpdates(db, listed, x), EnteringUpdates(m.outs, db, listed, x);
    var read := OutRead(m.outs, db, us, x);
    SourcesIdeal(db, listed(Look(db.into, x)), Look(db.into, x), y);
    TargetsIdeal(db, listed(read), read, y);
    OutReadEnough(m, listed, x, y);
    NodeExact(m.outs, db.out, us, false, y);
    NodeExact(Found(m.ins, x), db.into, ws, false, y);
  }

  lemma RemoveNodeSteps(m: Cached, listed: set<EdgeId> -> seq<EdgeId>, x: NodeId)
    requires Exact(m.s.db, m.s.live, m.s.dead) && x !in m.s.dead && Ordering(listed)
    ensures Step(m.s, OpRemoveNode(x), WithoutNode(m, listed, x).s) <==> Lossless(m, listed, OpRemoveNode(x))
  {
    var m' := WithoutNode(m, listed, x);
    forall y | y != x
      ensures Unlinked(m.s.db, x, m'.s.db, y) <==> NothingLostElsewhere(m, listed, x, y)
    {
      ElsewhereExact(m, listed, x, y);
    }
  }

  /** Each operation does what it promises if and only if no update is lost. */
  lemma StepIffLossless(m: Cached, listed: set<EdgeId> -> seq<EdgeId>, op: Op)
    requires Exact(m.s.db, m.s.live, m.s.dead) && Allowed(m.s, op) && Ordering(listed)
    ensures Step(m.s, op, Next(m, listed, op).s) <==> Lossless(m, listed, op)
  {
    match op
    case OpSetNode(_) =>
    case OpSetEdge(e) => SetEdgeSteps(m, e);
    case OpSetEdges(es) => BundleExact(m, es);
    case OpRemoveEdge(id) => RemoveEdgeSteps(m, id);
    case OpRemoveNode(x) => RemoveNodeSteps(m, listed, x);
  }

  // ---------------------------------------------------------------------------
  // The indexes stay exact if and only if nothing is lost.
  // ---------------------------------------------------------------------------

  /** With the same records there is only one way to be exact. */
  lemma ExactUnique(db: Db, db': Db, live: set<EdgeId>, dead: set<NodeId>, y: NodeId)
    requires db.edges == db'.edges && Exact(db, live, dead) && Exact(db', live, dead) && y !in dead
    ensures Look(db.out, y) == Look(db'.out, y) && Look(db.into, y) == Look(db'.into, y)
  {
    assert OutExact(db, live, y) && IntoExact(db, live, y) && OutExact(db', live, y) && IntoExact(db', live, y);
  }

  lemma {:induction false} StorableEnds(db: Db, live: set<EdgeId>, es: seq<Edge>, i: nat)
    requires Storable(db, live, es) && i < |es|
    ensures es[i].from in db.nodes && es[i].to in db.nodes
  {
    if i < |es| - 1 { StorableEnds(db, live, es[..|es| - 1], i); }
  }

  lemma BundleNeeds(m: Cached, es: seq<Edge>, y: NodeId)
    requires Exact(m.s.db, m.s.live, m.s.dead) && Storable(m.s.db, m.s.live, es)
    requires var s := Bundled(m, es).s; Exact(s.db, s.live, s.dead)
    ensures NothingLostAt(m.outs, m.s.db.out, OutUpdates(es), true, y)
    ensures NothingLostAt(m.ins, m.s.db.into, InUpdates(es), true, y)
  {
    var db := m.s.db;
    if y in m.s.dead {
      forall i | 0 <= i < |es| ensures es[i].from != y && es[i].to != y { StorableEnds(db, m.s.live, es, i); }
    } else {
      BundleIdeal(db, es);
      SetEdgesExact(db, m.s.live, m.s.dead, es);
      ExactUnique(Bundled(m, es).s.db, SetEdges(db, es), m.s.live + Ids(es), m.s.dead, y);
      NodeExact(m.outs, db.out, OutUpdates(es), true, y);
      NodeExact(m.ins, db.into, InUpdates(es), true, y);
    }
  }

  /** The removal of a node with no update lost. */
  ghost function IdealRemoval(m: Cached, listed: set<EdgeId> -> seq<EdgeId>, x: NodeId): Db {
    var db := m.s.db;
    Db(db.nodes - {x}, db.edges, Ideal(db.out, LeavingUpdates(db, listed, x), false),
       Ideal(db.into, EnteringUpdates(m.outs, db, listed, x), false))
  }

  lemma IdealRemoves(m: Cached, listed: set<EdgeId> -> seq<EdgeId>, x: NodeId)
    requires Exact(m.s.db, m.s.live, m.s.dead) && x !in m.s.dead && Ordering(listed)
    ensures NodeRemoved(m.s.db, x, IdealRemoval(m, listed, x))
  {
    var db := m.s.db;
    var us := LeavingUpdates(db, listed, x);
    var read := OutRead(m.outs, db, us, x);
    forall y | y != x ensures Unlinked(db, x, IdealRemoval(m, listed, x), y) {
      SourcesIdeal(db, listed(Look(db.into, x)), Look(db.into, x), y);
      TargetsIdeal(db, listed(read), read, y);
      OutReadEnough(m, listed, x, y);
    }
  }

  /** The other ends of a node's edges are stored nodes. */
  lemma RemovalUpdatesLive(m: Cached, listed: set<EdgeId> -> seq<EdgeId>, x: NodeId, u: Update)
    requires Exact(m.s.db, m.s.live, m.s.dead) && x !in m.s.dead && Ordering(listed)
    requires u in LeavingUpdates(m.s.db, listed, x) || u in EnteringUpdates(m.outs, m.s.db, listed, x)
    ensures u.node in m.s.db.nodes
  {
    var db := m.s.db;
    var us := LeavingUpdates(db, listed, x);
    var read := OutRead(m.outs, db, us, x);
    assert OutExact(db, m.s.live, x) && IntoExact(db, m.s.live, x);
    assert Lists(listed(Look(db.into, x)), Look(db.into, x)) && Lists(listed(read), read);
    UpdatesMember(db, listed(Look(db.into, x)), u);
    UpdatesMember(db, listed(read), u);
    WrittenMember(m.outs, db.out, us, false, Update(x, u.edge));
  }

  lemma RemovalNeeds(m: Cached, listed: set<EdgeId> -> seq<EdgeId>, x: NodeId, y: NodeId)
    requires Exact(m.s.db, m.s.live, m.s.dead) && x !in m.s.dead && Ordering(listed) && x != y
    requires var s := WithoutNode(m, listed, x).s; Exact(s.db, s.live, s.dead)
    ensures NothingLostElsewhere(m, listed, x, y)
  {
    var db := m.s.db;
    var us, ws := LeavingUpdates(db, listed, x), EnteringUpdates(m.outs, db, listed, x);
    if y in m.s.dead {
      forall u | u in us || u in ws ensures u.node != y { RemovalUpdatesLive(m, listed, x, u); }
    } else {
      IdealRemoves(m, listed, x);
      RemoveNodeExact(db, m.s.live, m.s.dead, x, IdealRemoval(m, listed, x));
      ExactUnique(WithoutNode(m, listed, x).s.db, IdealRemoval(m, listed, x), m.s.live - Incident(db, m.s.live, x), m.s.dead + {x}, y);
      NodeExact(m.outs, db.out, us, false, y);
      NodeExact(Found(m.ins, x), db.into, ws, false, y);
    }
  }

  /** An allowed operation leaves the indexes exact if and only if no update is lost. */
  lemma ExactIffLossless(m: Cached, listed: set<EdgeId> -> seq<EdgeId>, op: Op)
    requires Exact(m.s.db, m.s.live, m.s.dead) && Allowed(m.s, op) && Ordering(listed)
    ensures var s := Next(m, listed, op).s; Exact(s.db, s.live, s.dead) <==> Lossless(m, listed, op)
  {
    StepIffLossless(m, listed, op);
    var s := Next(m, listed, op).s;
    if Lossless(m, listed, op) {
      StepExact(m.s, op, s);
    } else if Exact(s.db, s.live, s.dead) {
      ExactNeeds(m, listed, op);
    }
  }

  lemma ExactNeeds(m: Cached, listed: set<EdgeId> -> seq<EdgeId>, op: Op)
    requires Exact(m.s.db, m.s.live, m.s.dead) && Allowed(m.s, op) && Ordering(listed)
    requires var s := Next(m, listed, op).s; Exact(s.db, s.live, s.dead)
    ensures Lossless(m, listed, op)
  {
    match op
    case OpSetEdges(es) =>
      forall y
        ensures NothingLostAt(m.outs, m.s.db.out, OutUpdates(es), true, y)
        ensures NothingLostAt(m.ins, m.s.db.into, InUpdates(es), true, y)
      {
        BundleNeeds(m, es, y);
      }
    case OpRemoveNode(x) =>
      forall y | y != x ensures NothingLostElsewhere(m, listed, x, y) { RemovalNeeds(m, listed, x, y); }
    case _ =>
  }

  /** The updates of an operation. */
  ghost function UpdatesOf(m: Cached, listed: set<EdgeId> -> seq<EdgeId>, op: Op): (seq<Update>, seq<Update>) {
    match op
    case OpSetNode(_) => ([], [])
    case OpSetEdge(e) => (OutUpdates([e]), InUpdates([e]))
    case OpSetEdges(es) => (OutUpdates(es), InUpdates(es))
    case OpRemoveEdge(id) => (SourceUpdates(m.s.db, [id]), TargetUpdates(m.s.db, [id]))
    case OpRemoveNode(x) => (LeavingUpdates(m.s.db, listed, x), EnteringUpdates(m.outs, m.s.db, listed, x))
  }

  /** An operation on cached nodes, or one for whose other nodes there is room, can be
      executed, and loses nothing. */
  lemma RoomSuffices(m: Cached, listed: set<EdgeId> -> seq<EdgeId>, op: Op)
    requires var (us, ws) := UpdatesOf(m, listed, op); Fits(m.outs, us) && Fits(m.ins, ws)
    ensures Executable(m, listed, op) && Lossless(m, listed, op)
  {
    var (us, ws) := UpdatesOf(m, listed, op);
    var ins := if op.OpRemoveNode? then Found(m.ins, op.x) else m.ins;
    assert ins.stamps.Keys == m.ins.stamps.Keys;
    FitsSuffices(m.outs, us);
    FitsSuffices(ins, ws);
    NoneRereadSuffices(m.outs, m.s.db.out, us, !op.OpRemoveNode?);
    NoneRereadSuffices(ins, m.s.db.into, ws, !op.OpRemoveNode?);
    if op.OpRemoveNode? { RoomForRemoval(m, listed, op.x); }
  }

  lemma RoomForRemoval(m: Cached, listed: set<EdgeId> -> seq<EdgeId>, x: NodeId)
    requires NothingLost(m.outs, m.s.db.out, LeavingUpdates(m.s.db, listed, x), false)
    requires NothingLost(Found(m.ins, x), m.s.db.into, EnteringUpdates(m.outs, m.s.db, listed, x), false)
    ensures Lossless(m, listed, OpRemoveNode(x))
  {
    forall y | y != x ensures NothingLostElsewhere(m, listed, x, y) {
      assert NothingLostAt(m.outs, m.s.db.out, LeavingUpdates(m.s.db, listed, x), false, y);
      assert NothingLostAt(Found(m.ins, x), m.s.db.into, EnteringUpdates(m.outs, m.s.db, listed, x), false, y);
    }
  }

  // ---------------------------------------------------------------------------
  // Runs.
  // ---------------------------------------------------------------------------

  /** A store with nothing in it. */
  function Started(edgeCacheSize: nat): Cached {
    Cached(EMPTY, Uses(map[], 0, 0, edgeCacheSize), Uses(map[], 0, 0, edgeCacheSize))
  }

  ghost function NextAll(m: Cached, listed: set<EdgeId> -> seq<EdgeId>, ops: seq<Op>): Cached {
    if ops == [] then m else Next(NextAll(m, listed, ops[..|ops| - 1]), listed, ops[|ops| - 1])
  }

  ghost predicate AllExecutable(m: Cached, listed: set<EdgeId> -> seq<EdgeId>, ops: seq<Op>) {
    forall i | 0 <= i < |ops| :: Executable(NextAll(m, listed, ops[..i]), listed, ops[i])
  }

  /** What callers owe, and no update is lost. */
  ghost predicate Faithful(m: Cached, listed: set<EdgeId> -> seq<EdgeId>, op: Op) {
    Allowed(m.s, op) && Lossless(m, listed, op)
  }

  ghost predicate AllFaithful(m: Cached, listed: set<EdgeId> -> seq<EdgeId>, ops: seq<Op>) {
    forall i | 0 <= i < |ops| :: Faithful(NextAll(m, listed, ops[..i]), listed, ops[i])
  }

  lemma NextAllSnoc(m: Cached, listed: set<EdgeId> -> seq<EdgeId>, ops: seq<Op>, i: nat)
    requires i < |ops|
    ensures NextAll(m, listed, ops[..i + 1]) == Next(NextAll(m, listed, ops[..i]), listed, ops[i])
  {
    assert ops[..i + 1][..i] == ops[..i];
  }

  /** Whatever the caches do, the store is exact after a run in which no update is lost. */
  lemma {:induction false} RunsExact(m: Cached, listed: set<EdgeId> -> seq<EdgeId>, ops: seq<Op>)
    requires Exact(m.s.db, m.s.live, m.s.dead) && Ordering(listed) && AllFaithful(m, listed, ops)
    ensures var s := NextAll(m, listed, ops).s; Exact(s.db, s.live, s.dead)
  {
    if ops != [] {
      var init, op := ops[..|ops| - 1], ops[|ops| - 1];
      forall i | 0 <= i < |init| ensures Faithful(NextAll(m, listed, init[..i]), listed, init[i]) {
        assert init[..i] == ops[..i];
      }
      RunsExact(m, listed, init);
      var m' := NextAll(m, listed, init);
      assert Faithful(m', listed, op);
      StepIffLossless(m', listed, op);
      StepExact(m'.s, op, Next(m', listed, op).s);
    }
  }

  /** After such a run from the empty store, the entries of a stored node are its live edges. */
  lemma RunMeans(edgeCacheSize: nat, listed: set<EdgeId> -> seq<EdgeId>, ops: seq<Op>, x: NodeId, s: State)
    requires Ordering(listed) && AllFaithful(Started(edgeCacheSize), listed, ops)
    requires s == NextAll(Started(edgeCacheSize), listed, ops).s && x in s.db.nodes
    ensures Look(s.db.out, x) == From(s.db, s.live, x) && Look(s.db.into, x) == To(s.db, s.live, x)
  {
    RunsExact(Started(edgeCacheSize), listed, ops);
    assert OutExact(s.db, s.live, x) && IntoExact(s.db, s.live, x);
  }

  // ---------------------------------------------------------------------------
  // Single updates within a batch.
  // ---------------------------------------------------------------------------

  lemma FoundAssignable(c: Uses<NodeId>, x: NodeId)
    requires Assignable(c, x)
    ensures Assignable(Found(c, x), x) && Evicted(Found(c, x), x) == Evicted(c, x)
  {
  }

  lemma WrittenSnoc(c: Uses<NodeId>, stored: Adjacency, us: seq<Update>, add: bool, u: Update)
    ensures var m := Written(c, stored, us, add);
      Written(c, stored, us + [u], add)
        == m[u.node := Change(Look(if u.node in After(c, us).stamps then m else stored, u.node), u.edge, add)]
  {
    assert (us + [u])[..|us|] == us;
  }

  /** Records decide which updates there are. */
  lemma {:induction false} SameRecords(db: Db, db': Db, ids: seq<EdgeId>)
    requires db.edges == db'.edges
    ensures SourceUpdates(db, ids) == SourceUpdates(db', ids) && TargetUpdates(db, ids) == TargetUpdates(db', ids)
  {
    if ids != [] { SameRecords(db, db', ids[..|ids| - 1]); }
  }

  /** The updates for the next of the listed edges. */
  lemma UpdatesNext(db: Db, ids: seq<EdgeId>, i: nat)
    requires i < |ids|
    ensures SourceUpdates(db, ids[..i + 1]) == SourceUpdates(db, ids[..i]) + SourceUpdates(db, [ids[i]])
    ensures TargetUpdates(db, ids[..i + 1]) == TargetUpdates(db, ids[..i]) + TargetUpdates(db, [ids[i]])
  {
    assert ids[..i + 1][..i] == ids[..i];
    SingleUpdates(db, ids[i]);
  }

  lemma SolidNext(c: Uses<NodeId>, us: seq<Update>, few: seq<Update>, u: Update)
    requires Solid(c, us) && few + [u] <= us
    ensures Assignable(After(c, few), u.node)
  {
    assert SolidAt(c, us, |few|);
    assert us[..|few|] == (few + [u])[..|few|] == few;
    assert us[|few|] == (few + [u])[|few|];
  }

  lemma UpdatesStep(c: Uses<NodeId>, db: Db, ids: seq<EdgeId>, i: nat)
    requires i < |ids| && ids[i] in db.edges
    ensures Solid(c, SourceUpdates(db, ids)) ==> Assignable(After(c, SourceUpdates(db, ids[..i])), db.edges[ids[i]].from)
    ensures Solid(c, TargetUpdates(db, ids)) ==> Assignable(After(c, TargetUpdates(db, ids[..i])), db.edges[ids[i]].to)
  {
    UpdatesNext(db, ids, i);
    SingleUpdates(db, ids[i]);
    UpdatesPrefix(db, ids, i + 1);
    if Solid(c, SourceUpdates(db, ids)) {
      SolidNext(c, SourceUpdates(db, ids), SourceUpdates(db, ids[..i]), Update(db.edges[ids[i]].from, ids[i]));
    }
    if Solid(c, TargetUpdates(db, ids)) {
      SolidNext(c, TargetUpdates(db, ids), TargetUpdates(db, ids[..i]), Update(db.edges[ids[i]].to, ids[i]));
    }
  }

  lemma {:induction false} UpdatesPrefix(db: Db, ids: seq<EdgeId>, i: nat)
    requires i <= |ids|
    ensures SourceUpdates(db, ids[..i]) <= SourceUpdates(db, ids) && TargetUpdates(db, ids[..i]) <= TargetUpdates(db, ids)
    decreases |ids|
  {
    if i == |ids| {
      assert ids[..i] == ids;
    } else {
      UpdatesPrefix(db, ids[..|ids| - 1], i);
      assert ids[..|ids| - 1][..i] == ids[..i];
    }
  }

  lemma PrefixNext(c: Uses<NodeId>, us: seq<Update>, i: nat)
    requires Solid(c, us) && i < |us|
    ensures us[..i + 1] == us[..i] + [us[i]] && Assignable(After(c, us[..i]), us[i].node)
  {
    assert SolidAt(c, us, i);
  }

  /** The updates for the removal of a node do not depend on the node records. */
  lemma SameUpdates(c: Uses<NodeId>, db: Db, db': Db, listed: set<EdgeId> -> seq<EdgeId>, x: NodeId)
    requires db' == db.(nodes := db'.nodes)
    ensures LeavingUpdates(db', listed, x) == LeavingUpdates(db, listed, x)
    ensures EnteringUpdates(c, db', listed, x) == EnteringUpdates(c, db, listed, x)
  {
    var us := LeavingUpdates(db, listed, x);
    SameRecords(db, db', listed(Look(db.into, x)));
    SameRecords(db, db', listed(OutRead(c, db, us, x)));
  }

  lemma OneEdge(db: Db, e: Edge)
    ensures SetEdges(db, [e]) == SetEdge(db, e)
  {
    assert [e][..0] == [];
  }
}
