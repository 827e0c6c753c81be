// Queries on the store, whatever has been set and removed before: the records of removed
// edges are still there, but no match uses them.
module StoredQuery {
  import C = CachedSteps
  import I = Index
  import opened Matching
  import opened Planner
  import opened QueryEngine

  /** The query runs on the store `s`: it sees the stored nodes, the live edges, and the
      records of all edges ever set. */
  ghost predicate RunsOn(q: Setting, s: I.State) {
    && Distinct(q.nodes) && (forall x {:trigger x in q.nodes} :: x in q.nodes <==> x.name in s.db.nodes)
    && Distinct(q.edgeIds) && (forall e {:trigger e in q.edgeIds} :: e in q.edgeIds <==> e.name in s.live)
    && (forall e {:trigger e in q.ends} :: e in q.ends <==> e.name in s.db.edges)
    && (forall e | e in q.ends :: q.ends[e] == Ends(Id(s.db.edges[e.name].from), Id(s.db.edges[e.name].to)))
  }

  /** The pattern is a path, a position with a name accepts nothing else, and directly
      named nodes are stored. */
  ghost predicate Askable(q: Setting, s: I.State) {
    && |q.direct| == 2 * |q.dirs| + 1
    && (forall p, x | 0 <= p < |q.direct| && (p, x) in q.ok && q.direct[p].Some? :: x == q.direct[p].value)
    && (forall p | 0 <= p < |q.direct| && p % 2 == 0 && q.direct[p].Some? :: q.direct[p].value.name in s.db.nodes)
  }

  /** A path in the store: stored nodes joined by live edges, each in its direction. */
  ghost predicate PathInStore(q: Setting, s: I.State, m: seq<Id>) {
    && |m| == 2 * |q.dirs| + 1
    && (forall p: nat | p < |m| :: (p, m[p]) in q.ok)
    && (forall p: nat | p < |m| && p % 2 == 0 :: m[p].name in s.db.nodes)
    && (forall p: nat | p < |m| && p % 2 == 1 :: Joins(s, m[p - 1], q.dirs[p / 2], m[p], m[p + 1]))
  }

  ghost predicate Joins(s: I.State, a: Id, d: Dir, e: Id, b: Id) {
    && e.name in s.live && e.name in s.db.edges
    && var edge := s.db.edges[e.name];
       if d == Next then edge.from == a.name && edge.to == b.name else edge.to == a.name && edge.from == b.name
  }

  lemma StoreWellFormed(q: Setting, s: I.State)
    requires I.Exact(s.db, s.live, s.dead) && RunsOn(q, s) && Askable(q, s)
    ensures WellFormed(q)
  {
  }

  /** The index entries that the engine reads for a stored node are those of the store. */
  lemma EntriesAreStored(q: Setting, s: I.State, x: Id, e: Id)
    requires I.Exact(s.db, s.live, s.dead) && RunsOn(q, s) && x in q.nodes
    ensures e in EdgesAt(q, x, true, q.edgeIds) <==> e.name in I.Look(s.db.out, x.name)
    ensures e in EdgesAt(q, x, false, q.edgeIds) <==> e.name in I.Look(s.db.into, x.name)
  {
    InEdgesAt(q, x, true, q.edgeIds, e);
    InEdgesAt(q, x, false, q.edgeIds, e);
    assert I.OutExact(s.db, s.live, x.name) && I.IntoExact(s.db, s.live, x.name);
    assert forall name: string :: Id(name) == x <==> name == x.name;
  }

  /** The matches are the paths in the store. */
  lemma MatchIsPath(q: Setting, s: I.State, m: seq<Id>)
    requires I.Exact(s.db, s.live, s.dead) && RunsOn(q, s) && |q.direct| == 2 * |q.dirs| + 1
    ensures Match(q, m) <==> PathInStore(q, s, m)
  {
    if Match(q, m) { MatchHasPath(q, s, m); }
    if PathInStore(q, s, m) { PathHasMatch(q, s, m); }
  }

  /** What the query knows of the edge `e`, and what the store does. */
  ghost predicate Known(q: Setting, s: I.State, e: Id) {
    && (e in q.edgeIds <==> e.name in s.live) && (e in q.ends <==> e.name in s.db.edges)
    && (e in q.ends ==> q.ends[e] == Ends(Id(s.db.edges[e.name].from), Id(s.db.edges[e.name].to)))
  }

  lemma LinksJoin(q: Setting, s: I.State, p: nat, a: Id, e: Id, b: Id)
    requires Known(q, s, e) && p % 2 == 1 && p + 1 < |q.direct| == 2 * |q.dirs| + 1
    ensures Stands(q, p, e) && Linked(q, p - 1, a, e) && Linked(q, p, e, b)
       <==> (p, e) in q.ok && Joins(s, a, q.dirs[p / 2], e, b)
  {
  }

  lemma MatchHasPath(q: Setting, s: I.State, m: seq<Id>)
    requires RunsOn(q, s) && |q.direct| == 2 * |q.dirs| + 1 && Match(q, m)
    ensures PathInStore(q, s, m)
  {
    forall p: nat | p < |m| && p % 2 == 1 ensures Joins(s, m[p - 1], q.dirs[p / 2], m[p], m[p + 1]) {
      assert Stands(q, p, m[p]) && Linked(q, p - 1, m[p - 1], m[p]) && Linked(q, p, m[p], m[p + 1]);
      LinksJoin(q, s, p, m[p - 1], m[p], m[p + 1]);
    }
    forall p: nat | p < |m| ensures (p, m[p]) in q.ok && (p % 2 == 0 ==> m[p].name in s.db.nodes) {
      assert Stands(q, p, m[p]);
    }
  }

  lemma PathHasMatch(q: Setting, s: I.State, m: seq<Id>)
    requires RunsOn(q, s) && |q.direct| == 2 * |q.dirs| + 1 && PathInStore(q, s, m)
    ensures Match(q, m)
  {
    forall p: nat | p < |m| && p % 2 == 1
      ensures Stands(q, p, m[p]) && Linked(q, p - 1, m[p - 1], m[p]) && Linked(q, p, m[p], m[p + 1])
    {
      assert Joins(s, m[p - 1], q.dirs[p / 2], m[p], m[p + 1]);
      LinksJoin(q, s, p, m[p - 1], m[p], m[p + 1]);
    }
    forall p: nat | p < |m| ensures Stands(q, p, m[p]) {
      if p % 2 == 0 { assert m[p].name in s.db.nodes; }
    }
    forall p: nat | p + 1 < |m| ensures Linked(q, p, m[p], m[p + 1]) {
      if p % 2 == 0 { assert Linked(q, p + 1 - 1, m[p + 1 - 1], m[p + 1]); }
    }
  }

  /** A query on a store with exact indexes yields exactly the paths in the store, each
      once, in the order of the plan, and fails no assertion. */
  method QueryStore(ghost s: I.State, q: Setting) returns (r: seq<seq<Id>>, stopped: bool)
    requires I.Exact(s.db, s.live, s.dead) && RunsOn(q, s) && Askable(q, s) && Safe(Steps(q))
    ensures forall m :: m in r <==> PathInStore(q, s, m)
    ensures forall i, j | 0 <= i < j < |r| :: r[i] != r[j]
    ensures Ordered(q, r) && !stopped
  {
    StoreWellFormed(q, s);
    r, stopped := Query(q);
    forall m ensures Match(q, m) <==> PathInStore(q, s, m) { MatchIsPath(q, s, m); }
  }

  /** So it does after any run of allowed operations. */
  method QueryAfterRun(ghost ops: seq<I.Op>, ghost states: seq<I.State>, q: Setting) returns (r: seq<seq<Id>>, stopped: bool)
    requires I.IsRun(ops, states) && RunsOn(q, states[|ops|]) && Askable(q, states[|ops|]) && Safe(Steps(q))
    ensures forall m :: m in r <==> PathInStore(q, states[|ops|], m)
    ensures forall i, j | 0 <= i < j < |r| :: r[i] != r[j]
    ensures Ordered(q, r) && !stopped
  {
    I.RunStaysExact(ops, states, |ops|);
    r, stopped := QueryStore(states[|ops|], q);
  }

  /** And after any run behind the caches in which no update was lost. */
  method QueryAfterCachedRun(ghost edgeCacheSize: nat, ghost listed: set<I.EdgeId> -> seq<I.EdgeId>, ghost ops: seq<I.Op>,
                             ghost s: I.State, q: Setting) returns (r: seq<seq<Id>>, stopped: bool)
    requires C.Ordering(listed) && C.AllFaithful(C.Started(edgeCacheSize), listed, ops)
    requires s == C.NextAll(C.Started(edgeCacheSize), listed, ops).s
    requires RunsOn(q, s) && Askable(q, s) && Safe(Steps(q))
    ensures forall m :: m in r <==> PathInStore(q, s, m)
    ensures forall i, j | 0 <= i < j < |r| :: r[i] != r[j]
    ensures Ordered(q, r) && !stopped
  {
    C.RunsExact(C.Started(edgeCacheSize), listed, ops);
    r, stopped := QueryStore(s, q);
  }
}
