// The directed LevelDbGraph: index entries are read through two bounded caches, and
// writes go to a batch and to the caches before the batch reaches the database.
module Store {
  import opened Batches
  import opened CachedSteps
  import opened Index
  import opened MruMap

  /** The cached entries are the latest ones, in the database or in a batch for it. */
  ghost predicate Mirrors(cache: Adjacency, latest: Adjacency) {
    forall x | x in cache :: x in latest && latest[x] == cache[x]
  }

  /** The cache after an assignment, which may have evicted others. */
  ghost predicate Revised(cache: Adjacency, x: NodeId, s: set<EdgeId>, cache': Adjacency) {
    && x in cache' && cache'[x] == s
    && forall y | y in cache' && y != x :: y in cache && cache'[y] == cache[y]
  }

  class LevelDbGraph {
    var db: Db
    const outEdgeCache: TypedMRUMap<NodeId, set<EdgeId>>
    const inEdgeCache: TypedMRUMap<NodeId, set<EdgeId>>
    // The order in which the sets of edges are iterated.
    const listed: set<EdgeId> -> seq<EdgeId>
    // The edges that have been set and not removed since, and the removed nodes.
    ghost var live: set<EdgeId>
    ghost var dead: set<NodeId>

    /** Between calls the caches agree with the database. */
    ghost predicate Valid()
      reads this`db, outEdgeCache, inEdgeCache
    {
      && outEdgeCache != inEdgeCache && outEdgeCache.Valid() && inEdgeCache.Valid() && Ordering(listed)
      && Mirrors(outEdgeCache.map_, db.out) && Mirrors(inEdgeCache.map_, db.into)
    }

    ghost function Now(): State
      reads this
    {
      State(db, live, dead)
    }

    ghost function Model(): Cached
      reads this, outEdgeCache, inEdgeCache
    {
      Cached(Now(), outEdgeCache.Usage(), inEdgeCache.Usage())
    }

    constructor (edgeCacheSize: nat, listed: set<EdgeId> -> seq<EdgeId>)
      requires Ordering(listed)
      ensures Valid() && Model() == Started(edgeCacheSize) && this.listed == listed
      ensures fresh(outEdgeCache) && fresh(inEdgeCache)
    {
      this.listed := listed;
      db, live, dead := Db(map[], map[], map[], map[]), {}, {};
      outEdgeCache := new TypedMRUMap<NodeId, set<EdgeId>>(edgeCacheSize);
      inEdgeCache := new TypedMRUMap<NodeId, set<EdgeId>>(edgeCacheSize);
    }

    /** The cached entry of a node, or else the stored one, in which writes that wait in a
        batch do not show. */
    method GetOutEdge(x: NodeId) returns (s: set<EdgeId>)
      requires outEdgeCache.Valid()
      modifies outEdgeCache
      ensures outEdgeCache.Valid() && outEdgeCache.map_ == old(outEdgeCache.map_)
      ensures outEdgeCache.Usage() == Found(old(outEdgeCache.Usage()), x)
      ensures s == if x in outEdgeCache.map_ then outEdgeCache.map_[x] else Look(db.out, x)
      ensures Mirrors(outEdgeCache.map_, db.out) ==> s == Look(db.out, x)
    {
      var r := outEdgeCache.Find(x);
      s := if r.Some? then r.value else Look(db.out, x);
    }

    method GetInEdge(x: NodeId) returns (s: set<EdgeId>)
      requires inEdgeCache.Valid()
      modifies inEdgeCache
      ensures inEdgeCache.Valid() && inEdgeCache.map_ == old(inEdgeCache.map_)
      ensures inEdgeCache.Usage() == Found(old(inEdgeCache.Usage()), x)
      ensures s == if x in inEdgeCache.map_ then inEdgeCache.map_[x] else Look(db.into, x)
      ensures Mirrors(inEdgeCache.map_, db.into) ==> s == Look(db.into, x)
    {
      var r := inEdgeCache.Find(x);
      s := if r.Some? then r.value else Look(db.into, x);
    }

    method SetOutEdge(x: NodeId, s: set<EdgeId>, batch: seq<Put>) returns (batch': seq<Put>)
      requires outEdgeCache.Valid() && Assignable(outEdgeCache.Usage(), x)
      modifies outEdgeCache
      ensures batch' == batch + [PutOut(x, s)]
      ensures outEdgeCache.Valid() && outEdgeCache.Usage() == Assigned(old(outEdgeCache.Usage()), x)
      ensures outEdgeCache.map_ == old(outEdgeCache.map_)[x := s] - Evicted(old(outEdgeCache.Usage()), x)
      ensures x in outEdgeCache.map_ && outEdgeCache.map_[x] == s
    {
      batch' := batch + [PutOut(x, s)];
      outEdgeCache.Assign(x, s);
    }

    method SetInEdge(x: NodeId, s: set<EdgeId>, batch: seq<Put>) returns (batch': seq<Put>)
      requires inEdgeCache.Valid() && Assignable(inEdgeCache.Usage(), x)
      modifies inEdgeCache
      ensures batch' == batch + [PutInto(x, s)]
      ensures inEdgeCache.Valid() && inEdgeCache.Usage() == Assigned(old(inEdgeCache.Usage()), x)
      ensures inEdgeCache.map_ == old(inEdgeCache.map_)[x := s] - Evicted(old(inEdgeCache.Usage()), x)
      ensures x in inEdgeCache.map_ && inEdgeCache.map_[x] == s
    {
      batch' := batch + [PutInto(x, s)];
      inEdgeCache.Assign(x, s);
    }

    /** The out-index with the updates `us` in the batch, and the cache after them. */
    ghost predicate OutUpdated(c: Uses<NodeId>, us: seq<Update>, add: bool, batch: seq<Put>)
      reads this`db, outEdgeCache
    {
      && outEdgeCache.Valid() && outEdgeCache.Usage() == After(c, us)
      && ApplyAll(db, batch).out == Written(c, db.out, us, add)
      && Mirrors(outEdgeCache.map_, ApplyAll(db, batch).out)
    }

    ghost predicate InUpdated(c: Uses<NodeId>, us: seq<Update>, add: bool, batch: seq<Put>)
      reads this`db, inEdgeCache
    {
      && inEdgeCache.Valid() && inEdgeCache.Usage() == After(c, us)
      && ApplyAll(db, batch).into == Written(c, db.into, us, add)
      && Mirrors(inEdgeCache.map_, ApplyAll(db, batch).into)
    }

    /** One update of an out-set: it is looked up, changed, and set again. */
    method ReviseOutEdge(x: NodeId, id: EdgeId, add: bool, batch: seq<Put>) returns (batch': seq<Put>, ghost s: set<EdgeId>)
      requires outEdgeCache.Valid() && Assignable(outEdgeCache.Usage(), x)
      modifies outEdgeCache
      ensures batch' == batch + [PutOut(x, Change(s, id, add))]
      ensures s == if x in old(outEdgeCache.map_) then old(outEdgeCache.map_)[x] else Look(db.out, x)
      ensures outEdgeCache.Valid() && outEdgeCache.Usage() == Assigned(Found(old(outEdgeCache.Usage()), x), x)
      ensures Revised(old(outEdgeCache.map_), x, Change(s, id, add), outEdgeCache.map_)
    {
      ghost var c := outEdgeCache.Usage();
      var outSet := GetOutEdge(x);
      s := outSet;
      FoundAssignable(c, x);
      batch' := SetOutEdge(x, Change(outSet, id, add), batch);
    }

    method UpdateOutEdge(x: NodeId, id: EdgeId, add: bool, batch: seq<Put>, ghost c: Uses<NodeId>, ghost us: seq<Update>)
        returns (batch': seq<Put>)
      requires OutUpdated(c, us, add, batch) && Assignable(After(c, us), x)
      modifies outEdgeCache
      ensures OutUpdated(c, us + [Update(x, id)], add, batch')
      ensures ApplyAll(db, batch') == ApplyAll(db, batch).(out := ApplyAll(db, batch').out)
    {
      ghost var latest, cache := ApplyAll(db, batch).out, outEdgeCache.map_;
      ghost var s;
      batch', s := ReviseOutEdge(x, id, add, batch);
      ApplySnoc(db, batch, PutOut(x, Change(s, id, add)));
      UpdateStep(c, us, add, db.out, latest, cache, Update(x, id), s, outEdgeCache.map_, outEdgeCache.Usage());
    }

    /** One update of an in-set: it is looked up, changed, and set again. */
    method ReviseInEdge(x: NodeId, id: EdgeId, add: bool, batch: seq<Put>) returns (batch': seq<Put>, ghost s: set<EdgeId>)
      requires inEdgeCache.Valid() && Assignable(inEdgeCache.Usage(), x)
      modifies inEdgeCache
      ensures batch' == batch + [PutInto(x, Change(s, id, add))]
      ensures s == if x in old(inEdgeCache.map_) then old(inEdgeCache.map_)[x] else Look(db.into, x)
      ensures inEdgeCache.Valid() && inEdgeCache.Usage() == Assigned(Found(old(inEdgeCache.Usage()), x), x)
      ensures Revised(old(inEdgeCache.map_), x, Change(s, id, add), inEdgeCache.map_)
    {
      ghost var c := inEdgeCache.Usage();
      var inSet := GetInEdge(x);
      s := inSet;
      FoundAssignable(c, x);
      batch' := SetInEdge(x, Change(inSet, id, add), batch);
    }

    method UpdateInEdge(x: NodeId, id: EdgeId, add: bool, batch: seq<Put>, ghost c: Uses<NodeId>, ghost us: seq<Update>)
        returns (batch': seq<Put>)
      requires InUpdated(c, us, add, batch) && Assignable(After(c, us), x)
      modifies inEdgeCache
      ensures InUpdated(c, us + [Update(x, id)], add, batch')
      ensures ApplyAll(db, batch') == ApplyAll(db, batch).(into := ApplyAll(db, batch').into)
    {
      ghost var latest, cache := ApplyAll(db, batch).into, inEdgeCache.map_;
      ghost var s;
      batch', s := ReviseInEdge(x, id, add, batch);
      ApplySnoc(db, batch, PutInto(x, Change(s, id, add)));
      UpdateStep(c, us, add, db.into, latest, cache, Update(x, id), s, inEdgeCache.map_, inEdgeCache.Usage());
    }

    /** The batch and the caches lead to `m`. */
    ghost predicate Ready(batch: seq<Put>, m: Cached)
      reads this`db, outEdgeCache, inEdgeCache
    {
      && outEdgeCache != inEdgeCache && outEdgeCache.Valid() && inEdgeCache.Valid() && Ordering(listed)
      && ApplyAll(db, batch) == m.s.db && outEdgeCache.Usage() == m.outs && inEdgeCache.Usage() == m.ins
      && Mirrors(outEdgeCache.map_, m.s.db.out) && Mirrors(inEdgeCache.map_, m.s.db.into)
    }

    /** Writes a batch. */
    method Commit(batch: seq<Put>, ghost m: Cached)
      requires Ready(batch, m)
      modifies this`db, this`live, this`dead
      ensures Valid() && Model() == m
    {
      var d := db;
      for i := 0 to |batch|
        invariant db == old(db) && d == ApplyAll(db, batch[..i])
      {
        ApplyNext(db, batch, i);
        d := Apply(d, batch[i]);
      }
      assert batch[..|batch|] == batch;
      db := d;
      live, dead := m.s.live, m.s.dead;
    }

    method SetNode(n: Node)
      requires Valid()
      modifies this`db
      ensures Valid() && Model() == Next(old(Model()), listed, OpSetNode(n))
    {
      db := db.(nodes := db.nodes[n.id := n]);
    }

    method SetEdge(e: Edge)
      requires Valid() && Solid(outEdgeCache.Usage(), OutUpdates([e])) && Solid(inEdgeCache.Usage(), InUpdates([e]))
      modifies this`db, this`live, this`dead, outEdgeCache, inEdgeCache
      ensures Valid() && Model() == Bundled(old(Model()), [e])
    {
      ghost var m := Bundled(Model(), [e]);
      var batch := EdgeBatch(e);
      Commit(batch, m);
    }

    method EdgeBatch(e: Edge) returns (batch: seq<Put>)
      requires Valid() && Solid(outEdgeCache.Usage(), OutUpdates([e])) && Solid(inEdgeCache.Usage(), InUpdates([e]))
      modifies outEdgeCache, inEdgeCache
      ensures Ready(batch, Bundled(old(Model()), [e]))
    {
      OneEdge(db, e);
      batch := LinkEdges([e], []);
      ApplySnoc(db, batch, PutEdge(e));
      batch := batch + [PutEdge(e)];
    }

    /** A batch that stores the records of a bundle. */
    method RecordEdges(eb: seq<Edge>) returns (batch: seq<Put>)
      ensures ApplyAll(db, batch) == db.(edges := SetEdges(db, eb).edges)
    {
      batch := [];
      for i := 0 to |eb|
        invariant ApplyAll(db, batch) == db.(edges := SetEdges(db, eb[..i]).edges)
      {
        assert eb[..i + 1][..i] == eb[..i];
        ApplySnoc(db, batch, PutEdge(eb[i]));
        batch := batch + [PutEdge(eb[i])];
      }
      assert eb[..|eb|] == eb;
    }

    /** Stores a bundle in one batch. */
    method SetEdgesBundle(eb: seq<Edge>)
      requires Valid() && Solid(outEdgeCache.Usage(), OutUpdates(eb)) && Solid(inEdgeCache.Usage(), InUpdates(eb))
      modifies this`db, this`live, this`dead, outEdgeCache, inEdgeCache
      ensures Valid() && Model() == Bundled(old(Model()), eb)
    {
      ghost var m := Bundled(Model(), eb);
      var batch := RecordEdges(eb);
      batch := LinkEdges(eb, batch);
      Commit(batch, m);
    }

    /** The index entries of a whole bundle, each seeing those before it that are still cached. */
    method LinkEdges(eb: seq<Edge>, batch0: seq<Put>) returns (batch: seq<Put>)
      requires Valid() && ApplyAll(db, batch0).out == db.out && ApplyAll(db, batch0).into == db.into
      requires Solid(outEdgeCache.Usage(), OutUpdates(eb)) && Solid(inEdgeCache.Usage(), InUpdates(eb))
      modifies outEdgeCache, inEdgeCache
      ensures OutUpdated(old(outEdgeCache.Usage()), OutUpdates(eb), true, batch)
      ensures InUpdated(old(inEdgeCache.Usage()), InUpdates(eb), true, batch)
      ensures ApplyAll(db, batch) == ApplyAll(db, batch0).(out := ApplyAll(db, batch).out, into := ApplyAll(db, batch).into)
    {
      batch := batch0;
      ghost var c, d, us, ws := outEdgeCache.Usage(), inEdgeCache.Usage(), OutUpdates(eb), InUpdates(eb);
      for i := 0 to |eb|
        invariant OutUpdated(c, us[..i], true, batch) && InUpdated(d, ws[..i], true, batch)
        invariant ApplyAll(db, batch) == ApplyAll(db, batch0).(out := ApplyAll(db, batch).out, into := ApplyAll(db, batch).into)
      {
        PrefixNext(c, us, i);
        PrefixNext(d, ws, i);
        batch := LinkEdge(eb[i], batch, c, us[..i], d, ws[..i]);
      }
      assert us[..|eb|] == us && ws[..|eb|] == ws;
    }

    /** Adds an edge to the index entries of its ends. */
    method LinkEdge(e: Edge, batch: seq<Put>, ghost c: Uses<NodeId>, ghost us: seq<Update>, ghost d: Uses<NodeId>, ghost ws: seq<Update>)
        returns (batch': seq<Put>)
      requires outEdgeCache != inEdgeCache && OutUpdated(c, us, true, batch) && InUpdated(d, ws, true, batch)
      requires Assignable(After(c, us), e.from) && Assignable(After(d, ws), e.to)
      modifies outEdgeCache, inEdgeCache
      ensures OutUpdated(c, us + [Update(e.from, e.id)], true, batch')
      ensures InUpdated(d, ws + [Update(e.to, e.id)], true, batch')
      ensures ApplyAll(db, batch') == ApplyAll(db, batch).(out := ApplyAll(db, batch').out, into := ApplyAll(db, batch').into)
    {
      ghost var p := ApplyAll(db, batch);
      batch' := UpdateOutEdge(e.from, e.id, true, batch, c, us);
      ghost var q := ApplyAll(db, batch');
      assert q == p.(out := q.out);
      batch' := UpdateInEdge(e.to, e.id, true, batch', d, ws);
    }

    /** Takes an edge out of the index entry of its source. */
    method RemoveEdgeFrom(id: EdgeId, batch: seq<Put>, ghost c: Uses<NodeId>, ghost us: seq<Update>) returns (batch': seq<Put>)
      requires OutUpdated(c, us, false, batch)
      requires id in db.edges ==> Assignable(After(c, us), db.edges[id].from)
      modifies outEdgeCache
      ensures OutUpdated(c, us + SourceUpdates(db, [id]), false, batch')
      ensures ApplyAll(db, batch') == ApplyAll(db, batch).(out := ApplyAll(db, batch').out)
    {
      batch' := batch;
      SingleUpdates(db, id);
      if id in db.edges {
        batch' := UpdateOutEdge(db.edges[id].from, id, false, batch', c, us);
      } else {
        assert us + [] == us;
      }
    }

    /** Takes an edge out of the index entry of its target. */
    method RemoveEdgeTo(id: EdgeId, batch: seq<Put>, ghost c: Uses<NodeId>, ghost us: seq<Update>) returns (batch': seq<Put>)
      requires InUpdated(c, us, false, batch)
      requires id in db.edges ==> Assignable(After(c, us), db.edges[id].to)
      modifies inEdgeCache
      ensures InUpdated(c, us + TargetUpdates(db, [id]), false, batch')
      ensures ApplyAll(db, batch') == ApplyAll(db, batch).(into := ApplyAll(db, batch').into)
    {
      batch' := batch;
      SingleUpdates(db, id);
      if id in db.edges {
        batch' := UpdateInEdge(db.edges[id].to, id, false, batch', c, us);
      } else {
        assert us + [] == us;
      }
    }

    method RemoveEdge(id: EdgeId)
      requires Valid() && Solid(outEdgeCache.Usage(), SourceUpdates(db, [id])) && Solid(inEdgeCache.Usage(), TargetUpdates(db, [id]))
      modifies this`db, this`live, this`dead, outEdgeCache, inEdgeCache
      ensures Valid() && Model() == EdgeRemoved(old(Model()), id)
    {
      ghost var m := EdgeRemoved(Model(), id);
      var batch := UnlinkSources([id]);
      batch := UnlinkTargets([id], batch, inEdgeCache.Usage());
      Commit(batch, m);
    }

    /** Removes a node together with its edges in one batch. */
    method RemoveNode(x: NodeId)
      requires Valid() && Solid(outEdgeCache.Usage(), LeavingUpdates(db, listed, x))
      requires Solid(Found(inEdgeCache.Usage(), x), EnteringUpdates(outEdgeCache.Usage(), db, listed, x))
      modifies this`db, this`live, this`dead, outEdgeCache, inEdgeCache
      ensures Valid() && Model() == WithoutNode(old(Model()), listed, x)
    {
      ghost var m := Model();
      db := db.(nodes := db.nodes - {x});
      SameUpdates(outEdgeCache.Usage(), m.s.db, db, listed, x);
      var batch := UnlinkNode(x);
      Commit(batch, WithoutNode(m, listed, x));
    }

    /** A batch that takes the edges of a node out of the index entries of their other ends. */
    method UnlinkNode(x: NodeId) returns (batch: seq<Put>)
      requires Valid() && Solid(outEdgeCache.Usage(), LeavingUpdates(db, listed, x))
      requires Solid(Found(inEdgeCache.Usage(), x), EnteringUpdates(outEdgeCache.Usage(), db, listed, x))
      modifies outEdgeCache, inEdgeCache
      ensures var m := WithoutNode(old(Model()), listed, x); Ready(batch, m.(s := m.s.(db := m.s.db.(nodes := db.nodes))))
    {
      ghost var c, d := outEdgeCache.Usage(), Found(inEdgeCache.Usage(), x);
      batch := UnlinkIncoming(x);
      batch := UnlinkOutgoing(x, batch, c, d);
    }

    /** The first pass, over the edges that enter the node. */
    method UnlinkIncoming(x: NodeId) returns (batch: seq<Put>)
      requires Valid() && Solid(outEdgeCache.Usage(), LeavingUpdates(db, listed, x))
      modifies outEdgeCache, inEdgeCache
      ensures OutUpdated(old(outEdgeCache.Usage()), LeavingUpdates(db, listed, x), false, batch)
      ensures InUpdated(Found(old(inEdgeCache.Usage()), x), [], false, batch)
      ensures ApplyAll(db, batch) == db.(out := ApplyAll(db, batch).out)
    {
      var inSet := GetInEdge(x);
      batch := UnlinkSources(listed(inSet));
    }

    /** The second pass, over those that leave it, as they are read then. */
    method UnlinkOutgoing(x: NodeId, batch0: seq<Put>, ghost c: Uses<NodeId>, ghost d: Uses<NodeId>) returns (batch: seq<Put>)
      requires outEdgeCache != inEdgeCache
      requires OutUpdated(c, LeavingUpdates(db, listed, x), false, batch0) && InUpdated(d, [], false, batch0)
      requires Solid(d, EnteringUpdates(c, db, listed, x))
      modifies outEdgeCache, inEdgeCache
      ensures outEdgeCache.Valid() && outEdgeCache.Usage() == Found(After(c, LeavingUpdates(db, listed, x)), x)
      ensures Mirrors(outEdgeCache.map_, ApplyAll(db, batch0).out)
      ensures InUpdated(d, EnteringUpdates(c, db, listed, x), false, batch)
      ensures ApplyAll(db, batch) == ApplyAll(db, batch0).(into := ApplyAll(db, batch).into)
    {
      ghost var cache := outEdgeCache.map_;
      var outSet := GetOutEdge(x);
      UpdateRead(c, LeavingUpdates(db, listed, x), db, cache, x, outSet);
      batch := UnlinkTargets(listed(outSet), batch0, d);
    }

    /** Takes the listed edges out of the index entries of their sources. */
    method UnlinkSources(ids: seq<EdgeId>) returns (batch: seq<Put>)
      requires outEdgeCache.Valid() && Mirrors(outEdgeCache.map_, db.out) && Solid(outEdgeCache.Usage(), SourceUpdates(db, ids))
      modifies outEdgeCache
      ensures OutUpdated(old(outEdgeCache.Usage()), SourceUpdates(db, ids), false, batch)
      ensures ApplyAll(db, batch) == db.(out := ApplyAll(db, batch).out)
    {
      batch := [];
      ghost var c := outEdgeCache.Usage();
      for i := 0 to |ids|
        invariant OutUpdated(c, SourceUpdates(db, ids[..i]), false, batch)
        invariant ApplyAll(db, batch) == db.(out := ApplyAll(db, batch).out)
      {
        UpdatesNext(db, ids, i);
        if ids[i] in db.edges { UpdatesStep(c, db, ids, i); }
        batch := RemoveEdgeFrom(ids[i], batch, c, SourceUpdates(db, ids[..i]));
      }
      assert ids[..|ids|] == ids;
    }

    /** Takes the listed edges out of the index entries of their targets. */
    method UnlinkTargets(ids: seq<EdgeId>, batch0: seq<Put>, ghost c: Uses<NodeId>) returns (batch: seq<Put>)
      requires InUpdated(c, [], false, batch0) && Solid(c, TargetUpdates(db, ids))
      modifies inEdgeCache
      ensures InUpdated(c, TargetUpdates(db, ids), false, batch)
      ensures ApplyAll(db, batch) == ApplyAll(db, batch0).(into := ApplyAll(db, batch).into)
    {
      batch := batch0;
      for i := 0 to |ids|
        invariant InUpdated(c, TargetUpdates(db, ids[..i]), false, batch)
        invariant ApplyAll(db, batch) == ApplyAll(db, batch0).(into := ApplyAll(db, batch).into)
      {
        UpdatesNext(db, ids, i);
        if ids[i] in db.edges { UpdatesStep(c, db, ids, i); }
        batch := RemoveEdgeTo(ids[i], batch, c, TargetUpdates(db, ids[..i]));
      }
      assert ids[..|ids|] == ids;
    }

    method ExecuteOne(op: Op)
      requires Valid() && Executable(Model(), listed, op)
      modifies this, outEdgeCache, inEdgeCache
      ensures Valid() && Model() == Next(old(Model()), listed, op)
    {
      match op {
        case OpSetNode(n) => SetNode(n);
        case OpSetEdge(e) => SetEdge(e);
        case OpSetEdges(eb) => SetEdgesBundle(eb);
        case OpRemoveEdge(id) => RemoveEdge(id);
        case OpRemoveNode(x) => RemoveNode(x);
      }
    }

    /** Executes operations one after the other. */
    method Execute(ops: seq<Op>)
      requires Valid() && AllExecutable(Model(), listed, ops)
      modifies this, outEdgeCache, inEdgeCache
      ensures Valid() && Model() == NextAll(old(Model()), listed, ops)
    {
      ghost var m := Model();
      for i := 0 to |ops|
        invariant Valid() && Model() == NextAll(m, listed, ops[..i])
      {
        NextAllSnoc(m, listed, ops, i);
        ExecuteOne(ops[i]);
      }
      assert ops[..|ops|] == ops;
    }
  }

  /** One more update, which looked up `s`, on the cache and on the latest entries. */
  lemma UpdateStep(c: Uses<NodeId>, us: seq<Update>, add: bool, stored: Adjacency, latest: Adjacency, cache: Adjacency,
                   u: Update, s: set<EdgeId>, cache': Adjacency, c': Uses<NodeId>)
    requires latest == Written(c, stored, us, add) && Mirrors(cache, latest) && cache.Keys == After(c, us).stamps.Keys
    requires s == if u.node in cache then cache[u.node] else Look(stored, u.node)
    requires c' == Assigned(Found(After(c, us), u.node), u.node)
    requires Revised(cache, u.node, Change(s, u.edge, add), cache')
    ensures c' == After(c, us + [u])
    ensures latest[u.node := Change(s, u.edge, add)] == Written(c, stored, us + [u], add)
    ensures Mirrors(cache', Written(c, stored, us + [u], add))
  {
    AfterSnoc(c, us, u);
    WrittenSnoc(c, stored, us, add, u);
  }

  /** What the second pass of a node's removal reads. */
  lemma UpdateRead(c: Uses<NodeId>, us: seq<Update>, db: Db, cache: Adjacency, x: NodeId, s: set<EdgeId>)
    requires cache.Keys == After(c, us).stamps.Keys && Mirrors(cache, Written(c, db.out, us, false))
    requires s == if x in cache then cache[x] else Look(db.out, x)
    ensures s == OutRead(c, db, us, x)
  {
  }

  /** Any number of operations on a new store, and then the edges of a stored node: they are
      the live ones, if no update was lost on the way. */
  method RunAndRead(edgeCacheSize: nat, listed: set<EdgeId> -> seq<EdgeId>, ops: seq<Op>, x: NodeId)
      returns (outs: set<EdgeId>, ins: set<EdgeId>)
    requires Ordering(listed) && AllExecutable(Started(edgeCacheSize), listed, ops)
    requires AllFaithful(Started(edgeCacheSize), listed, ops)
    ensures var s := NextAll(Started(edgeCacheSize), listed, ops).s;
      x in s.db.nodes ==> outs == From(s.db, s.live, x) && ins == To(s.db, s.live, x)
  {
    var graph := new LevelDbGraph(edgeCacheSize, listed);
    graph.Execute(ops);
    ghost var s := graph.Now();
    outs := graph.GetOutEdge(x);
    ins := graph.GetInEdge(x);
    if x in s.db.nodes { RunMeans(edgeCacheSize, listed, ops, x, s); }
  }
}
