// Batches of updates to one index: each update reads an entry through the cache, or from
// the database below it, and writes it to the batch and to the cache.  An entry that was
// written and then evicted is read back without the write.
module Batches {
  import opened Index
  import opened MruMap

  /** An edge enters or leaves the index entry of a node. */
  datatype Update = Update(node: NodeId, edge: EdgeId)

  ghost function Nodes(us: seq<Update>): set<NodeId> {
    set u | u in us :: u.node
  }

  // ---------------------------------------------------------------------------
  // What a batch does.
  // ---------------------------------------------------------------------------

  /** The cache after updates, each of which looks its node up and then assigns to it. */
  ghost function After(c: Uses<NodeId>, us: seq<Update>): Uses<NodeId> {
    if us == [] then c
    else
      var x := us[|us| - 1].node;
      Assigned(Found(After(c, us[..|us| - 1]), x), x)
  }

  /** No assignment goes through a reference to an entry that is already gone. */
  ghost predicate Solid(c: Uses<NodeId>, us: seq<Update>) {
    forall i {:trigger SolidAt(c, us, i)} | 0 <= i < |us| :: SolidAt(c, us, i)
  }

  ghost predicate SolidAt(c: Uses<NodeId>, us: seq<Update>, i: nat)
    requires i < |us|
  {
    Assignable(After(c, us[..i]), us[i].node)
  }

  function Change(s: set<EdgeId>, d: EdgeId, add: bool): set<EdgeId> {
    if add then s + {d} else s - {d}
  }

  /** The index once the batch is in the database. */
  ghost function Written(c: Uses<NodeId>, stored: Adjacency, us: seq<Update>, add: bool): Adjacency {
    if us == [] then stored
    else
      var init, u := us[..|us| - 1], us[|us| - 1];
      var m := Written(c, stored, init, add);
      m[u.node := Change(Look(if u.node in After(c, init).stamps then m else stored, u.node), u.edge, add)]
  }

  /** The index after the same updates one after the other, without caches and batches. */
  function Ideal(stored: Adjacency, us: seq<Update>, add: bool): Adjacency {
    if us == [] then stored
    else
      var u := us[|us| - 1];
      var m := Ideal(stored, us[..|us| - 1], add);
      m[u.node := Change(Look(m, u.node), u.edge, add)]
  }

  // ---------------------------------------------------------------------------
  // Which updates survive.
  // ---------------------------------------------------------------------------

  /** Is the entry in the cache when update `i` looks it up? */
  ghost predicate Hit(c: Uses<NodeId>, us: seq<Update>, i: nat)
    requires i < |us|
  {
    us[i].node in After(c, us[..i]).stamps
  }

  /** No later update finds the node of update `j` missing from the cache. */
  ghost predicate Kept(c: Uses<NodeId>, us: seq<Update>, j: nat)
    requires j < |us|
  {
    forall i | j < i < |us| && us[i].node == us[j].node :: Hit(c, us, i)
  }

  ghost predicate Effective(c: Uses<NodeId>, us: seq<Update>, u: Update) {
    exists j :: 0 <= j < |us| && us[j] == u && Kept(c, us, j)
  }

  /** Every update of node `y` survives, perhaps as a repetition, or makes no difference. */
  ghost predicate NothingLostAt(c: Uses<NodeId>, stored: Adjacency, us: seq<Update>, add: bool, y: NodeId) {
    forall u | u in us && u.node == y :: Effective(c, us, u) || (add <==> u.edge in Look(stored, y))
  }

  ghost predicate NothingLost(c: Uses<NodeId>, stored: Adjacency, us: seq<Update>, add: bool) {
    forall y {:trigger NothingLostAt(c, stored, us, add, y)} :: NothingLostAt(c, stored, us, add, y)
  }

  lemma HitSnoc(c: Uses<NodeId>, us: seq<Update>, u: Update, i: nat)
    requires i <= |us|
    ensures Hit(c, us + [u], i) <==> if i == |us| then u.node in After(c, us).stamps else Hit(c, us, i)
  {
    assert (us + [u])[..i] == us[..i];
    if i == |us| { assert us[..i] == us; }
  }

  lemma KeptSnoc(c: Uses<NodeId>, us: seq<Update>, u: Update, j: nat)
    requires j < |us|
    ensures Kept(c, us + [u], j) <==> Kept(c, us, j) && (us[j].node == u.node ==> u.node in After(c, us).stamps)
  {
    var more := us + [u];
    HitSnoc(c, us, u, |us|);
    if Kept(c, more, j) {
      assert us[j].node == u.node ==> Hit(c, more, |us|);
      forall i | j < i < |us| && us[i].node == us[j].node ensures Hit(c, us, i) {
        assert Hit(c, more, i);
        HitSnoc(c, us, u, i);
      }
    }
    if Kept(c, us, j) && (us[j].node == u.node ==> u.node in After(c, us).stamps) {
      forall i | j < i < |more| && more[i].node == more[j].node ensures Hit(c, more, i) {
        if i < |us| { assert Hit(c, us, i); }
        HitSnoc(c, us, u, i);
      }
    }
  }

  lemma EffectiveSnoc(c: Uses<NodeId>, us: seq<Update>, v: Update, u: Update)
    ensures Effective(c, us + [v], u) <==>
      u == v || (Effective(c, us, u) && (u.node == v.node ==> v.node in After(c, us).stamps))
  {
    var more := us + [v];
    if u == v { assert more[|us|] == u && Kept(c, more, |us|); }
    if Effective(c, more, u) && u != v {
      var j :| 0 <= j < |more| && more[j] == u && Kept(c, more, j);
      KeptSnoc(c, us, v, j);
      assert us[j] == u && Kept(c, us, j);
    }
    if Effective(c, us, u) && (u.node == v.node ==> v.node in After(c, us).stamps) {
      var j :| 0 <= j < |us| && us[j] == u && Kept(c, us, j);
      KeptSnoc(c, us, v, j);
      assert more[j] == u && Kept(c, more, j);
    }
  }

  /** What is in the index in the end: the updates that survived, on top of what was stored. */
  lemma {:induction false} WrittenMember(c: Uses<NodeId>, stored: Adjacency, us: seq<Update>, add: bool, u: Update)
    ensures u.edge in Look(Written(c, stored, us, add), u.node)
      <==> if Effective(c, us, u) then add else u.edge in Look(stored, u.node)
  {
    if us != [] {
      var init, v := us[..|us| - 1], us[|us| - 1];
      assert us == init + [v];
      WrittenMember(c, stored, init, add, u);
      EffectiveSnoc(c, init, v, u);
    }
  }

  lemma {:induction false} IdealMember(stored: Adjacency, us: seq<Update>, add: bool, u: Update)
    ensures u.edge in Look(Ideal(stored, us, add), u.node) <==> if u in us then add else u.edge in Look(stored, u.node)
  {
    if us != [] {
      var init, v := us[..|us| - 1], us[|us| - 1];
      assert us == init + [v];
      IdealMember(stored, init, add, u);
    }
  }

  lemma {:induction false} SameKeys(c: Uses<NodeId>, stored: Adjacency, us: seq<Update>, add: bool)
    ensures Written(c, stored, us, add).Keys == Ideal(stored, us, add).Keys
  {
    if us != [] { SameKeys(c, stored, us[..|us| - 1], add); }
  }

  lemma NodeExact(c: Uses<NodeId>, stored: Adjacency, us: seq<Update>, add: bool, y: NodeId)
    ensures Look(Written(c, stored, us, add), y) == Look(Ideal(stored, us, add), y)
      <==> NothingLostAt(c, stored, us, add, y)
  {
    var w, m := Look(Written(c, stored, us, add), y), Look(Ideal(stored, us, add), y);
    forall u: Update | u.node == y
      ensures u.edge in w <==> if Effective(c, us, u) then add else u.edge in Look(stored, y)
      ensures u.edge in m <==> if u in us then add else u.edge in Look(stored, y)
    {
      WrittenMember(c, stored, us, add, u);
      IdealMember(stored, us, add, u);
    }
    if NothingLostAt(c, stored, us, add, y) {
      forall d ensures d in w <==> d in m {
        assert Update(y, d).node == y;
        assert Effective(c, us, Update(y, d)) ==> Update(y, d) in us;
      }
    }
  }

  /** A batch amounts to its updates one after the other if and only if nothing is lost. */
  lemma BatchExact(c: Uses<NodeId>, stored: Adjacency, us: seq<Update>, add: bool)
    ensures Written(c, stored, us, add) == Ideal(stored, us, add) <==> NothingLost(c, stored, us, add)
  {
    var w, m := Written(c, stored, us, add), Ideal(stored, us, add);
    SameKeys(c, stored, us, add);
    forall y ensures Look(w, y) == Look(m, y) <==> NothingLostAt(c, stored, us, add, y) {
      NodeExact(c, stored, us, add, y);
    }
    if NothingLost(c, stored, us, add) {
      forall y | y in w ensures w[y] == m[y] {
        assert NothingLostAt(c, stored, us, add, y);
        assert Look(w, y) == Look(m, y);
      }
    }
  }

  // ---------------------------------------------------------------------------
  // When nothing is lost.
  // ---------------------------------------------------------------------------

  /** No node that is written in the batch is evicted and looked up again. */
  ghost predicate NoneReread(c: Uses<NodeId>, us: seq<Update>) {
    forall j, i | 0 <= j < i < |us| && us[j].node == us[i].node :: Hit(c, us, i)
  }

  lemma NoneRereadSuffices(c: Uses<NodeId>, stored: Adjacency, us: seq<Update>, add: bool)
    requires NoneReread(c, us)
    ensures NothingLost(c, stored, us, add)
  {
    forall u | u in us ensures Effective(c, us, u) {
      var j :| 0 <= j < |us| && us[j] == u;
      assert Kept(c, us, j);
    }
  }

  /** The nodes that the batch brings into the cache. */
  ghost function Newcomers(c: Uses<NodeId>, us: seq<Update>): set<NodeId> {
    Nodes(us) - c.stamps.Keys
  }

  /** There is room for them. */
  ghost predicate Fits(c: Uses<NodeId>, us: seq<Update>) {
    Newcomers(c, us) == {} || c.size + |Newcomers(c, us)| <= c.bound
  }

  lemma NodesSnoc(us: seq<Update>)
    requires us != []
    ensures Nodes(us) == Nodes(us[..|us| - 1]) + {us[|us| - 1].node}
  {
    var init := us[..|us| - 1];
    assert us == init + [us[|us| - 1]];
    forall x | x in Nodes(us) ensures x in Nodes(init) + {us[|us| - 1].node} {
      var u :| u in us && u.node == x;
    }
  }

  lemma OneMoreNode(keys: set<NodeId>, nodes: set<NodeId>, x: NodeId)
    ensures |nodes + {x} - keys| == |nodes - keys| + if x in keys + nodes then 0 else 1
  {
    if x in keys + nodes {
      assert nodes + {x} - keys == nodes - keys;
    } else {
      assert nodes + {x} - keys == (nodes - keys) + {x};
    }
  }

  lemma FitsPrefix(c: Uses<NodeId>, us: seq<Update>, i: nat)
    requires Fits(c, us) && i <= |us|
    ensures Fits(c, us[..i])
  {
    var few, all := Newcomers(c, us[..i]), Newcomers(c, us);
    assert few <= all;
    SubsetSize(few, all);
  }

  /** The last node of a batch that fits. */
  lemma FitsInit(c: Uses<NodeId>, us: seq<Update>)
    requires us != [] && Fits(c, us)
    ensures var x, nodes := us[|us| - 1].node, Nodes(us[..|us| - 1]);
      x in c.stamps.Keys + nodes || c.size + |nodes - c.stamps.Keys| + 1 <= c.bound
  {
    var x, nodes := us[|us| - 1].node, Nodes(us[..|us| - 1]);
    NodesSnoc(us);
    OneMoreNode(c.stamps.Keys, nodes, x);
  }

  lemma RoomStep(c: Uses<NodeId>, x: NodeId, c': Uses<NodeId>)
    requires c' == Assigned(Found(c, x), x) && (x in c.stamps || c.size + 1 <= c.bound)
    ensures c'.stamps.Keys == c.stamps.Keys + {x} && c'.bound == c.bound
    ensures c'.size == c.size + if x in c.stamps then 0 else 1
  {
  }

  /** The cache has the nodes of the batch so far besides those that it had before. */
  ghost predicate Grown(c: Uses<NodeId>, nodes: set<NodeId>, c': Uses<NodeId>) {
    && c'.stamps.Keys == c.stamps.Keys + nodes && c'.bound == c.bound
    && c'.size == c.size + |nodes - c.stamps.Keys|
  }

  lemma GrownStep(c: Uses<NodeId>, nodes: set<NodeId>, mid: Uses<NodeId>, x: NodeId, c': Uses<NodeId>)
    requires Grown(c, nodes, mid)
    requires c'.stamps.Keys == mid.stamps.Keys + {x} && c'.bound == mid.bound
    requires c'.size == mid.size + if x in mid.stamps.Keys then 0 else 1
    ensures Grown(c, nodes + {x}, c')
  {
    OneMoreNode(c.stamps.Keys, nodes, x);
    assert c.stamps.Keys + nodes + {x} == c.stamps.Keys + (nodes + {x});
  }

  lemma {:induction false} FitsStays(c: Uses<NodeId>, us: seq<Update>)
    requires Fits(c, us)
    ensures Grown(c, Nodes(us), After(c, us))
  {
    if us == [] {
      assert Nodes(us) - c.stamps.Keys == {};
    } else {
      var init, x := us[..|us| - 1], us[|us| - 1].node;
      FitsInit(c, us);
      FitsPrefix(c, us, |us| - 1);
      FitsStays(c, init);
      var mid := After(c, init);
      FitsLast(c, us, mid);
    }
  }

  lemma FitsLast(c: Uses<NodeId>, us: seq<Update>, mid: Uses<NodeId>)
    requires us != [] && mid == After(c, us[..|us| - 1]) && Grown(c, Nodes(us[..|us| - 1]), mid)
    requires us[|us| - 1].node in mid.stamps || mid.size + 1 <= mid.bound
    ensures Grown(c, Nodes(us), After(c, us))
  {
    var x := us[|us| - 1].node;
    NodesSnoc(us);
    RoomStep(mid, x, Assigned(Found(mid, x), x));
    GrownStep(c, Nodes(us[..|us| - 1]), mid, x, Assigned(Found(mid, x), x));
  }

  /** Enough room for its newcomers, of which a batch over cached nodes has none, makes a
      batch solid, and nothing is lost. */
  lemma FitsSuffices(c: Uses<NodeId>, us: seq<Update>)
    requires Fits(c, us)
    ensures Solid(c, us) && NoneReread(c, us)
  {
    forall i | 0 <= i < |us|
      ensures SolidAt(c, us, i)
      ensures us[i].node in Nodes(us[..i]) ==> Hit(c, us, i)
    {
      FitsPrefix(c, us, i);
      FitsPrefix(c, us, i + 1);
      FitsStays(c, us[..i]);
      assert us[..i + 1][..i] == us[..i];
      FitsInit(c, us[..i + 1]);
    }
    forall j, i | 0 <= j < i < |us| && us[j].node == us[i].node ensures us[i].node in Nodes(us[..i]) {
      assert us[..i][j] == us[j];
    }
  }

  // ---------------------------------------------------------------------------
  // When the count of insertions has reached the bound.
  // ---------------------------------------------------------------------------

  ghost predicate Overflowed(c: Uses<NodeId>) {
    Stamped(c) && c.size >= c.bound
  }

  lemma {:induction false} StampedStays(c: Uses<NodeId>, us: seq<Update>)
    requires Stamped(c)
    ensures Stamped(After(c, us))
  {
    if us != [] {
      var x := us[|us| - 1].node;
      StampedStays(c, us[..|us| - 1]);
      AssignedStamped(After(c, us[..|us| - 1]), x);
      AssignedStamped(Found(After(c, us[..|us| - 1]), x), x);
    }
  }

  lemma {:induction false} OverflowStays(c: Uses<NodeId>, us: seq<Update>)
    requires Overflowed(c)
    ensures Overflowed(After(c, us))
  {
    StampedStays(c, us);
    SizeGrows(c, us);
  }

  lemma {:induction false} SizeGrows(c: Uses<NodeId>, us: seq<Update>)
    ensures After(c, us).size >= c.size && After(c, us).bound == c.bound
  {
    if us != [] { SizeGrows(c, us[..|us| - 1]); }
  }

  /** How many updates find their node missing. */
  ghost function Misses(c: Uses<NodeId>, us: seq<Update>): nat {
    if us == [] then 0
    else Misses(c, us[..|us| - 1]) + if us[|us| - 1].node in After(c, us[..|us| - 1]).stamps then 0 else 1
  }

  lemma SolidInit(c: Uses<NodeId>, us: seq<Update>)
    requires us != [] && Solid(c, us)
    ensures Solid(c, us[..|us| - 1]) && Assignable(After(c, us[..|us| - 1]), us[|us| - 1].node)
  {
    var n := |us| - 1;
    assert SolidAt(c, us, n);
    forall i | 0 <= i < n ensures SolidAt(c, us[..n], i) {
      assert SolidAt(c, us, i);
      assert us[..n][..i] == us[..i];
    }
  }

  /** Each miss costs nine of the cached nodes, so that only so many updates of nodes that
      are not cached are possible at all before one goes through a dangling reference. */
  lemma {:induction false} OverflowBudget(c: Uses<NodeId>, us: seq<Update>)
    requires Overflowed(c) && Solid(c, us)
    ensures |After(c, us).stamps| + (NUMBER_CLEAR_AT_ONCE - 1) * Misses(c, us) == |c.stamps|
    ensures Misses(c, us) > 0 ==> (NUMBER_CLEAR_AT_ONCE - 1) * Misses(c, us) < |c.stamps|
  {
    if us != [] {
      var init, x := us[..|us| - 1], us[|us| - 1].node;
      SolidInit(c, us);
      OverflowBudget(c, init);
      OverflowStays(c, init);
      UpdateSize(After(c, init), x);
    }
  }

  lemma UpdateSize(c: Uses<NodeId>, x: NodeId)
    requires Overflowed(c) && Assignable(c, x)
    ensures var size := |Assigned(Found(c, x), x).stamps|;
      if x in c.stamps then size == |c.stamps| else size == |c.stamps| - (NUMBER_CLEAR_AT_ONCE - 1) && size > 0
  {
    if x in c.stamps {
      assert c.stamps[x := c.time + 1].Keys == c.stamps.Keys && |c.stamps.Keys| == |c.stamps|;
      assert |c.stamps[x := c.time + 1]| == |c.stamps[x := c.time + 1].Keys|;
    } else {
      OverflowShrinks(c, x);
    }
  }

  lemma {:induction false} NoMisses(c: Uses<NodeId>, us: seq<Update>)
    requires Misses(c, us) == 0
    ensures Nodes(us) <= c.stamps.Keys && After(c, us).stamps.Keys == c.stamps.Keys
  {
    if us != [] {
      NodesSnoc(us);
      NoMisses(c, us[..|us| - 1]);
    }
  }

  /** With fewer than ten cached nodes left, no other node can be updated ever again. */
  lemma DrainedForGood(c: Uses<NodeId>, us: seq<Update>)
    requires Overflowed(c) && |c.stamps| < NUMBER_CLEAR_AT_ONCE
    ensures Solid(c, us) <==> Nodes(us) <= c.stamps.Keys
  {
    if Nodes(us) <= c.stamps.Keys {
      assert Newcomers(c, us) == {};
      FitsSuffices(c, us);
    } else if Solid(c, us) {
      OverflowBudget(c, us);
      NoMisses(c, us);
    }
  }

  // ---------------------------------------------------------------------------
  // A batch that loses an update.
  // ---------------------------------------------------------------------------

  lemma TouchStep(c: Uses<NodeId>, y: NodeId)
    requires y in c.stamps
    ensures Assigned(Found(c, y), y) == c.(stamps := c.stamps[y := c.time + 1], time := c.time + 1)
  {
  }

  /** While only cached nodes are updated, the first of them becomes the oldest. */
  lemma {:induction false} TouchedOrder(c: Uses<NodeId>, us: seq<Update>)
    requires us != [] && Nodes(us) <= c.stamps.Keys && us[0].node !in Nodes(us[1..])
    ensures var c' := After(c, us); var x := us[0].node;
      && c'.stamps.Keys == c.stamps.Keys && c'.size == c.size && c'.bound == c.bound
      && c'.stamps[x] <= c'.time
      && forall y | y in Nodes(us[1..]) :: c'.stamps[x] < c'.stamps[y]
  {
    var init, y := us[..|us| - 1], us[|us| - 1].node;
    NodesSnoc(us);
    if |us| == 1 {
      assert init == [];
      TouchStep(c, y);
    } else {
      TailSnoc(us);
      TouchedOrder(c, init);
      TouchStep(After(c, init), y);
    }
  }

  lemma TailSnoc(us: seq<Update>)
    requires |us| > 1
    ensures Nodes(us[1..]) == Nodes(us[..|us| - 1][1..]) + {us[|us| - 1].node}
  {
    assert us[1..][..|us| - 2] == us[..|us| - 1][1..] && us[1..][|us| - 2] == us[|us| - 1];
    NodesSnoc(us[1..]);
  }

  /** The updates of all cached nodes, then of a new one, and again of the first. */
  function LapAndBack(us: seq<Update>, newcomer: Update, again: Update): seq<Update> {
    us + [newcomer] + [again]
  }

  /** The cache has overflowed; `us` begins with a node that it does not update again. */
  ghost predicate Lap(c: Uses<NodeId>, us: seq<Update>, newcomer: Update, again: Update) {
    && Overflowed(c) && us != [] && Nodes(us) == c.stamps.Keys && us[0].node !in Nodes(us[1..])
    && newcomer.node !in c.stamps && again.node == us[0].node && again.edge != us[0].edge
  }

  lemma FirstEvicted(c: Uses<NodeId>, us: seq<Update>, newcomer: Update, again: Update)
    requires Lap(c, us, newcomer, again)
    ensures again.node in Evicted(After(c, us), newcomer.node) && newcomer.node !in After(c, us).stamps
    ensures again.node !in After(c, us + [newcomer]).stamps
  {
    TouchedOrder(c, us);
    var c', x := After(c, us), us[0].node;
    assert us[0] in us;
    assert x in Nodes(us);
    assert us == [us[0]] + us[1..];
    var stamps := c'.stamps[newcomer.node := c'.time + 1];
    forall y | y in stamps ensures stamps[x] <= stamps[y] {
      if y != newcomer.node && y != x {
        var u :| u in us && u.node == y;
        assert u in us[1..];
        assert y in Nodes(us[1..]);
      }
    }
    assert Older(stamps, x) == {};
    assert (us + [newcomer])[..|us|] == us;
  }

  /** The update of the first node is lost: the new node evicts it, and it is read back from
      the database.  With nineteen nodes cached none of this needs a dangling reference. */
  lemma LapLoses(c: Uses<NodeId>, stored: Adjacency, us: seq<Update>, newcomer: Update, again: Update)
    requires Lap(c, us, newcomer, again) && us[0].edge !in Look(stored, us[0].node)
    ensures var all := LapAndBack(us, newcomer, again);
      && us[0] in all && us[0].edge !in Look(Written(c, stored, all, true), us[0].node)
      && !NothingLost(c, stored, all, true)
      && (|c.stamps| >= 19 ==> Solid(c, all))
  {
    var all := LapAndBack(us, newcomer, again);
    FirstEvicted(c, us, newcomer, again);
    EffectiveSnoc(c, us + [newcomer], again, us[0]);
    WrittenMember(c, stored, all, true, us[0]);
    assert us[0] in us;
    assert !NothingLostAt(c, stored, all, true, us[0].node);
    if |c.stamps| >= 19 { LapSolid(c, us, newcomer, again); }
  }

  lemma LapSolid(c: Uses<NodeId>, us: seq<Update>, newcomer: Update, again: Update)
    requires Lap(c, us, newcomer, again) && |c.stamps| >= 19
    ensures Solid(c, LapAndBack(us, newcomer, again))
  {
    LapLeaves(c, us, newcomer, again);
    assert Newcomers(c, us) == {};
    FitsSuffices(c, us);
    SolidSnoc(c, us, newcomer);
    SolidSnoc(c, us + [newcomer], again);
  }

  lemma SolidSnoc(c: Uses<NodeId>, us: seq<Update>, u: Update)
    requires Solid(c, us) && Assignable(After(c, us), u.node)
    ensures Solid(c, us + [u])
  {
    forall i | 0 <= i < |us| + 1 ensures SolidAt(c, us + [u], i) {
      assert (us + [u])[..i] == us[..i];
      if i == |us| {
        assert us[..i] == us;
      } else {
        assert SolidAt(c, us, i);
      }
    }
  }

  lemma LapLeaves(c: Uses<NodeId>, us: seq<Update>, newcomer: Update, again: Update)
    requires Lap(c, us, newcomer, again)
    ensures |After(c, us).stamps| == |c.stamps|
    ensures |c.stamps| >= NUMBER_CLEAR_AT_ONCE ==>
      |After(c, us + [newcomer]).stamps| == |c.stamps| - (NUMBER_CLEAR_AT_ONCE - 1)
  {
    var mid := After(c, us);
    TouchedOrder(c, us);
    assert |mid.stamps| == |mid.stamps.Keys| && |c.stamps| == |c.stamps.Keys|;
    OverflowStays(c, us);
    if |c.stamps| >= NUMBER_CLEAR_AT_ONCE { OverflowShrinks(mid, newcomer.node); }
    AfterSnoc(c, us, newcomer);
  }

  lemma AfterSnoc(c: Uses<NodeId>, us: seq<Update>, u: Update)
    ensures After(c, us + [u]) == Assigned(Found(After(c, us), u.node), u.node)
  {
    assert (us + [u])[..|us|] == us;
  }

  /** Such a cache comes about by as many updates of different nodes as it has room for. */
  lemma FillsUp(us: seq<Update>)
    requires |Nodes(us)| == |us|
    ensures var c := Uses(map[], 0, 0, |us|);
      Solid(c, us) && Overflowed(After(c, us)) && After(c, us).stamps.Keys == Nodes(us)
  {
    var c := Uses(map[], 0, 0, |us|);
    assert Newcomers(c, us) == Nodes(us);
    FitsSuffices(c, us);
    FitsStays(c, us);
    StampedStays(c, us);
  }
}
