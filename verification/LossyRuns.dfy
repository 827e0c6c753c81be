// For every cache size from nineteen on there is a run of allowed operations, none of which
// goes through a dangling reference, after which a live edge is missing from the index.
module LossyRuns {
  import opened Batches
  import opened CachedSteps
  import opened Index
  import opened MruMap

  function Name(i: nat): string {
    seq(i, _ => 'n')
  }

  lemma NamesDiffer(i: nat, j: nat)
    requires Name(i) == Name(j)
    ensures i == j
  {
    assert |Name(i)| == i && |Name(j)| == j;
  }

  function Names(n: nat): set<string> {
    set i: nat | i < n :: Name(i)
  }

  lemma {:induction false} NamesCount(n: nat)
    ensures |Names(n)| == n
  {
    if n > 0 {
      NamesCount(n - 1);
      NamesNext(n - 1);
    }
  }

  lemma NamesNext(n: nat)
    ensures Names(n + 1) == Names(n) + {Name(n)} && Name(n) !in Names(n)
  {
    if Name(n) in Names(n) {
      var i: nat :| i < n && Name(i) == Name(n);
      NamesDiffer(i, n);
    }
  }

  // ---------------------------------------------------------------------------
  // The operations: nodes, one edge from each of them, and again.
  // ---------------------------------------------------------------------------

  function NodeOps(n: nat): seq<Op> {
    if n == 0 then [] else NodeOps(n - 1) + [OpSetNode(Node(Name(n - 1), ""))]
  }

  /** `n` edges to the first node, one from each of the first `n` nodes, with ids from `k` on. */
  function Round(n: nat, k: nat): seq<Edge> {
    seq(n, i requires 0 <= i < n => Edge(Name(k + i), Name(i), Name(0), ""))
  }

  function Lapse(n: nat): seq<Edge> {
    Round(n, n) + [Edge(Name(2 * n), Name(n), Name(0), "")] + [Edge(Name(2 * n + 1), Name(0), Name(0), "")]
  }

  function LossyOps(n: nat): seq<Op> {
    NodeOps(n + 1) + [OpSetEdges(Round(n, 0))] + [OpSetEdges(Lapse(n))]
  }

  // ---------------------------------------------------------------------------
  // The run.
  // ---------------------------------------------------------------------------

  /** Nodes have been stored, and nothing else. */
  ghost predicate OnlyNodes(m: Cached, n: nat, size: nat) {
    && m.s.db.nodes.Keys == Names(n) && m.s.db.edges == map[] && m.s.db.out == map[] && m.s.db.into == map[]
    && m.s.live == {} && m.s.dead == {} && m.outs == m.ins == Uses(map[], 0, 0, size)
  }

  lemma {:induction false} NodesStored(size: nat, listed: set<EdgeId> -> seq<EdgeId>, n: nat)
    ensures OnlyNodes(NextAll(Started(size), listed, NodeOps(n)), n, size)
    ensures Proper(Started(size), listed, NodeOps(n))
  {
    if n > 0 {
      NodesStored(size, listed, n - 1);
      NamesNext(n - 1);
      ProperSnoc(Started(size), listed, NodeOps(n - 1), OpSetNode(Node(Name(n - 1), "")));
    }
  }

  lemma OnlyNodesExact(m: Cached, n: nat, size: nat)
    requires OnlyNodes(m, n, size)
    ensures Exact(m.s.db, m.s.live, m.s.dead)
  {
    forall x ensures OutExact(m.s.db, {}, x) && IntoExact(m.s.db, {}, x) {
      assert From(m.s.db, {}, x) == {} && To(m.s.db, {}, x) == {};
    }
  }

  /** All operations are allowed, and can be executed. */
  ghost predicate Proper(m: Cached, listed: set<EdgeId> -> seq<EdgeId>, ops: seq<Op>) {
    forall i {:trigger ProperAt(m, listed, ops, i)} | 0 <= i < |ops| :: ProperAt(m, listed, ops, i)
  }

  ghost predicate ProperAt(m: Cached, listed: set<EdgeId> -> seq<EdgeId>, ops: seq<Op>, i: nat)
    requires i < |ops|
  {
    var m' := NextAll(m, listed, ops[..i]);
    Allowed(m'.s, ops[i]) && Executable(m', listed, ops[i])
  }

  lemma ProperSnoc(m: Cached, listed: set<EdgeId> -> seq<EdgeId>, ops: seq<Op>, op: Op)
    requires Proper(m, listed, ops)
    requires var m' := NextAll(m, listed, ops); Allowed(m'.s, op) && Executable(m', listed, op)
    ensures Proper(m, listed, ops + [op])
    ensures NextAll(m, listed, ops + [op]) == Next(NextAll(m, listed, ops), listed, op)
  {
    var more := ops + [op];
    assert more[..|ops|] == ops;
    forall i | 0 <= i < |more| ensures ProperAt(m, listed, more, i) {
      assert more[..i] == ops[..i];
      if i < |ops| { assert ProperAt(m, listed, ops, i); }
    }
  }

  /** Edges between stored nodes, all with new ids. */
  ghost predicate New(db: Db, live: set<EdgeId>, es: seq<Edge>) {
    && (forall i | 0 <= i < |es| :: es[i].from in db.nodes && es[i].to in db.nodes && es[i].id !in live)
    && (forall i, j | 0 <= i < j < |es| :: es[i].id != es[j].id)
  }

  lemma {:induction false} NewStorable(db: Db, live: set<EdgeId>, es: seq<Edge>)
    requires New(db, live, es)
    ensures Storable(db, live, es)
  {
    if es != [] {
      var init, e := es[..|es| - 1], es[|es| - 1];
      NewStorable(db, live, init);
      assert e.id !in Ids(init);
    }
  }

  lemma RoundNew(db: Db, live: set<EdgeId>, n: nat, k: nat)
    requires n > 0 && Names(n) <= db.nodes.Keys && live <= Names(k)
    ensures New(db, live, Round(n, k))
  {
    var es := Round(n, k);
    forall i | 0 <= i < n ensures es[i].from in db.nodes && es[i].to in db.nodes && es[i].id !in live {
      assert Name(i) in Names(n) && Name(0) in Names(n);
      NameAbove(k, k + i);
    }
    forall i, j | 0 <= i < j < n ensures es[i].id != es[j].id { NamesApart(k + i, k + j); }
  }

  lemma NamesApart(i: nat, j: nat)
    requires i != j
    ensures Name(i) != Name(j)
  {
    if Name(i) == Name(j) { NamesDiffer(i, j); }
  }

  lemma NameAbove(k: nat, i: nat)
    requires k <= i
    ensures Name(i) !in Names(k)
  {
    if Name(i) in Names(k) {
      var j: nat :| j < k && Name(j) == Name(i);
      NamesDiffer(j, i);
    }
  }

  lemma RoundIds(n: nat, k: nat)
    ensures Ids(Round(n, k)) <= Names(k + n)
  {
  }

  lemma RoundNodes(n: nat, k: nat)
    requires n > 0
    ensures Nodes(OutUpdates(Round(n, k))) == Names(n) && Nodes(InUpdates(Round(n, k))) == {Name(0)}
  {
    var us, ws := OutUpdates(Round(n, k)), InUpdates(Round(n, k));
    assert ws[0] in ws;
    forall i: nat | i < n ensures Name(i) in Nodes(us) {
      assert us[i] in us;
    }
  }

  /** After the first round the cache of the sources is full, and it has overflowed. */
  ghost predicate Full(m: Cached, n: nat) {
    && m.s.db.nodes.Keys == Names(n + 1) && m.s.live <= Names(n) && Exact(m.s.db, m.s.live, m.s.dead)
    && Overflowed(m.outs) && m.outs.stamps.Keys == Names(n) && m.ins.stamps.Keys == {Name(0)}
  }

  lemma RoundFits(m: Cached, n: nat)
    requires OnlyNodes(m, n + 1, n) && n > 0
    ensures Fits(m.outs, OutUpdates(Round(n, 0))) && Fits(m.ins, InUpdates(Round(n, 0)))
    ensures Newcomers(m.outs, OutUpdates(Round(n, 0))) == Names(n)
  {
    RoundNodes(n, 0);
    NamesCount(n);
    assert Newcomers(m.outs, OutUpdates(Round(n, 0))) == Names(n);
    assert Newcomers(m.ins, InUpdates(Round(n, 0))) == {Name(0)};
  }

  lemma RoundRuns(m: Cached, listed: set<EdgeId> -> seq<EdgeId>, n: nat)
    requires OnlyNodes(m, n + 1, n) && n > 0 && Ordering(listed)
    ensures var op := OpSetEdges(Round(n, 0));
      Allowed(m.s, op) && Executable(m, listed, op)
    ensures var s := Bundled(m, Round(n, 0)).s; Exact(s.db, s.live, s.dead)
  {
    var op := OpSetEdges(Round(n, 0));
    NamesNext(n);
    RoundNew(m.s.db, m.s.live, n, 0);
    NewStorable(m.s.db, m.s.live, Round(n, 0));
    RoundFits(m, n);
    RoomSuffices(m, listed, op);
    OnlyNodesExact(m, n + 1, n);
    ExactIffLossless(m, listed, op);
  }

  lemma RoundFills(m: Cached, n: nat)
    requires OnlyNodes(m, n + 1, n) && n > 0
    ensures var c, d := After(m.outs, OutUpdates(Round(n, 0))), After(m.ins, InUpdates(Round(n, 0)));
      Overflowed(c) && c.stamps.Keys == Names(n) && d.stamps.Keys == {Name(0)}
  {
    RoundFits(m, n);
    RoundNodes(n, 0);
    NamesCount(n);
    FitsStays(m.outs, OutUpdates(Round(n, 0)));
    FitsStays(m.ins, InUpdates(Round(n, 0)));
    StampedStays(m.outs, OutUpdates(Round(n, 0)));
  }

  lemma FirstRound(m: Cached, listed: set<EdgeId> -> seq<EdgeId>, n: nat)
    requires OnlyNodes(m, n + 1, n) && n > 0 && Ordering(listed)
    ensures var op := OpSetEdges(Round(n, 0));
      Allowed(m.s, op) && Executable(m, listed, op) && Full(Next(m, listed, op), n)
  {
    RoundRuns(m, listed, n);
    RoundFills(m, n);
    RoundIds(n, 0);
    assert {} + Ids(Round(n, 0)) == Ids(Round(n, 0));
  }

  lemma LapseNew(m: Cached, n: nat)
    requires Full(m, n) && n > 0
    ensures Allowed(m.s, OpSetEdges(Lapse(n)))
  {
    var db, es := m.s.db, Lapse(n);
    NamesNext(n);
    RoundNew(db, m.s.live, n, n);
    assert Name(0) in Names(n) && Name(n) in Names(n + 1);
    forall i | 0 <= i < |es| ensures es[i].from in db.nodes && es[i].to in db.nodes && es[i].id !in m.s.live && es[i].id == Name(n + i) {
      NameAbove(n, n + i);
      if i < n { assert es[i] == Round(n, n)[i]; }
    }
    forall i, j | 0 <= i < j < |es| ensures es[i].id != es[j].id { NamesApart(n + i, n + j); }
    NewStorable(db, m.s.live, es);
  }

  lemma LapseIsLap(m: Cached, n: nat)
    requires Full(m, n) && n > 0
    ensures var us, newcomer, again := OutUpdates(Round(n, n)), Update(Name(n), Name(2 * n)), Update(Name(0), Name(2 * n + 1));
      && OutUpdates(Lapse(n)) == LapAndBack(us, newcomer, again) && Lap(m.outs, us, newcomer, again)
      && us[0] == Update(Name(0), Name(n)) && Name(n) !in Look(m.s.db.out, Name(0))
  {
    var us := OutUpdates(Round(n, n));
    RoundNodes(n, n);
    NamesNext(n);
    NamesApart(n, 2 * n + 1);
    assert us[0] == Update(Name(0), Name(n));
    forall u | u in us[1..] ensures u.node != Name(0) {
      var i :| 0 <= i < n - 1 && us[1..][i] == u;
      assert us[1..][i] == us[i + 1];
      NamesApart(i + 1, 0);
    }
    NameAbove(n, n);
    NotDead(m, n);
    assert OutExact(m.s.db, m.s.live, Name(0));
  }

  lemma NotDead(m: Cached, n: nat)
    requires Full(m, n)
    ensures Name(0) !in m.s.dead
  {
    assert Name(0) in Names(n + 1);
  }

  lemma LapseInNodes(n: nat)
    ensures Nodes(InUpdates(Lapse(n))) == {Name(0)}
  {
    var ws := InUpdates(Lapse(n));
    assert ws[n + 1] in ws;
    forall i | 0 <= i < |ws| ensures ws[i].node == Name(0) {
      if i < n { assert Lapse(n)[i] == Round(n, n)[i]; }
    }
  }

  lemma LapseRuns(m: Cached, n: nat)
    requires Full(m, n) && n >= 19
    ensures Solid(m.outs, OutUpdates(Lapse(n))) && Solid(m.ins, InUpdates(Lapse(n)))
    ensures Name(n) !in Look(Written(m.outs, m.s.db.out, OutUpdates(Lapse(n)), true), Name(0))
  {
    var us, newcomer, again := OutUpdates(Round(n, n)), Update(Name(n), Name(2 * n)), Update(Name(0), Name(2 * n + 1));
    LapseIsLap(m, n);
    NamesCount(n);
    assert |m.outs.stamps| == |m.outs.stamps.Keys|;
    LapLoses(m.outs, m.s.db.out, us, newcomer, again);
    LapseInNodes(n);
    assert Newcomers(m.ins, InUpdates(Lapse(n))) == {};
    FitsSuffices(m.ins, InUpdates(Lapse(n)));
  }

  lemma LapseLives(m: Cached, n: nat)
    requires Full(m, n) && n > 0
    ensures var s := Bundled(m, Lapse(n)).s; Name(n) in From(s.db, s.live, Name(0))
  {
    var es := Lapse(n);
    assert es[0] == Edge(Name(n), Name(0), Name(0), "") && es[0] in es;
    forall j | 0 < j < |es| ensures es[j].id != es[0].id {
      NamesApart(n, n + j);
      if j < n { assert es[j] == Round(n, n)[j]; }
    }
    RecordStays(m.s.db, es, 0);
  }

  /** The second round loses its first edge. */
  lemma SecondRound(m: Cached, listed: set<EdgeId> -> seq<EdgeId>, n: nat)
    requires Full(m, n) && n >= 19
    ensures var op := OpSetEdges(Lapse(n)); var s := Next(m, listed, op).s;
      && Allowed(m.s, op) && Executable(m, listed, op)
      && Name(n) in From(s.db, s.live, Name(0)) && Name(n) !in Look(s.db.out, Name(0))
  {
    LapseNew(m, n);
    LapseRuns(m, n);
    LapseLives(m, n);
  }

  lemma {:induction false} RecordStays(db: Db, es: seq<Edge>, i: nat)
    requires i < |es| && forall j | i < j < |es| :: es[j].id != es[i].id
    ensures es[i].id in SetEdges(db, es).edges && SetEdges(db, es).edges[es[i].id] == es[i]
  {
    if i < |es| - 1 { RecordStays(db, es[..|es| - 1], i); }
  }

  /** Every step of the run is allowed and can be executed, and in the end a live edge of
      the first node is not in its index entry. */
  lemma RunLoses(n: nat, listed: set<EdgeId> -> seq<EdgeId>)
    requires n >= 19 && Ordering(listed)
    ensures Proper(Started(n), listed, LossyOps(n))
    ensures var s := NextAll(Started(n), listed, LossyOps(n)).s;
      Name(n) in From(s.db, s.live, Name(0)) && Name(n) !in Look(s.db.out, Name(0))
  {
    var m, ops := Started(n), NodeOps(n + 1);
    NodesStored(n, listed, n + 1);
    FirstRound(NextAll(m, listed, ops), listed, n);
    ProperSnoc(m, listed, ops, OpSetEdges(Round(n, 0)));
    var more := ops + [OpSetEdges(Round(n, 0))];
    SecondRound(NextAll(m, listed, more), listed, n);
    ProperSnoc(m, listed, more, OpSetEdges(Lapse(n)));
  }
}
