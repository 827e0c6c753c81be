// Kahn's algorithm as TFLabel::toposort runs it: vertices are levelled by the
// length of a longest path that ends in them.
module Topological {
  import opened Paths

  // ---------------------------------------------------------------------------
  // What the levels mean.
  // ---------------------------------------------------------------------------

  /** `k` is the number of vertices on a longest path that ends in `v`. */
  ghost predicate LongestTo(g: Graph, v: nat, k: nat) {
    EndsIn(g, v, k) && AtMost(g, v, k)
  }

  ghost predicate EndsIn(g: Graph, v: nat, k: nat) {
    exists u, p :: IsPath(g, u, v, p) && |p| == k
  }

  ghost predicate AtMost(g: Graph, v: nat, k: nat) {
    forall u: nat, p: seq<nat> :: IsPath(g, u, v, p) ==> |p| <= k
  }

  /** No vertex lies on a closed path with at least one edge. */
  ghost predicate Acyclic(g: Graph) {
    forall v: nat, p: seq<nat> :: IsPath(g, v, v, p) ==> |p| == 1
  }

  lemma EndsInExtend(g: Graph, x: nat, y: nat, k: nat)
    requires EndsIn(g, x, k) && (x, y) in g
    ensures EndsIn(g, y, k + 1)
  {
    var u, p :| IsPath(g, u, x, p) && |p| == k;
    assert IsPath(g, u, y, p + [y]);
  }

  /** The longest path to `y` is one longer than the longest to a predecessor. */
  lemma AtMostExtend(g: Graph, y: nat, k: nat, level: seq<nat>)
    requires 1 <= k
    requires forall x: nat | (x, y) in g :: x < |level| && AtMost(g, x, level[x]) && level[x] + 1 <= k
    ensures AtMost(g, y, k)
  {
    forall u: nat, p: seq<nat> | IsPath(g, u, y, p) ensures |p| <= k {
      if |p| > 1 { PathInit(g, u, y, p); }
    }
  }

  /** A cycle through a vertex makes the paths that end in it arbitrarily long. */
  lemma BoundedIsAcyclic(g: Graph, level: seq<nat>)
    requires forall v: nat | v < |level| :: LongestTo(g, v, level[v])
    requires forall x: nat, y: nat | (x, y) in g :: x < |level|
    ensures Acyclic(g)
  {
    forall v: nat, p: seq<nat> | IsPath(g, v, v, p) ensures |p| == 1 {
      if |p| > 1 {
        assert (p[0], p[1]) in g;
        assert EndsIn(g, v, level[v]);
        var u, q :| IsPath(g, u, v, q) && |q| == level[v];
        var r := q + p[1..];
        forall i, j | 0 <= i < j == i + 1 < |r| ensures (r[i], r[j]) in g {
          if j >= |q| { assert r[j] == p[j - |q| + 1]; assert r[i] == p[i - |q| + 1]; }
        }
        assert IsPath(g, u, v, r);
      }
    }
  }

  ghost predicate HasPred(g: Graph, s: set<nat>, y: nat) {
    exists x :: x in s && (x, y) in g
  }

  /** Every vertex of `s` has a predecessor in `s`. */
  ghost predicate Backward(g: Graph, s: set<nat>) {
    forall y {:trigger HasPred(g, s, y)} :: y in s ==> HasPred(g, s, y)
  }

  /** If every vertex of a non-empty set has a predecessor in the set, there are
      paths of every length inside it. */
  lemma {:induction false} LongPath(g: Graph, s: set<nat>, v: nat, k: nat) returns (u: nat, p: seq<nat>)
    requires v in s && Backward(g, s)
    ensures IsPath(g, u, v, p) && |p| == k + 1 && u in s && forall x | x in p :: x in s
  {
    if k == 0 {
      u, p := v, [v];
    } else {
      var w, q := LongPath(g, s, v, k - 1);
      assert HasPred(g, s, w);
      u :| u in s && (u, w) in g;
      p := [u] + q;
    }
  }

  /** A sequence of numbers below `n` that is longer than `n` repeats one. */
  lemma {:induction false} Repeats(p: seq<nat>, n: nat) returns (i: nat, j: nat)
    requires |p| > n && forall x | x in p :: x < n
    ensures i < j < |p| && p[i] == p[j]
    decreases n
  {
    assert p[0] in p;
    if n == 0 {
    } else if k :| 0 <= k < |p| && p[k] == n - 1 {
      if l :| 0 <= l < |p| && l != k && p[l] == n - 1 {
        i, j := if k < l then k else l, if k < l then l else k;
      } else {
        var q := p[..k] + p[k + 1..];
        forall x | x in q ensures x < n - 1 {
          var m :| 0 <= m < |q| && q[m] == x;
          var l := if m < k then m else m + 1;
          assert x == p[l] && l != k && p[l] in p;
        }
        i, j := Repeats(q, n - 1);
        i, j := if i < k then i else i + 1, if j < k then j else j + 1;
      }
    } else {
      i, j := Repeats(p, n - 1);
    }
  }

  lemma DistinctBound(p: seq<nat>, n: nat)
    requires forall i, j | 0 <= i < j < |p| :: p[i] != p[j]
    requires forall x | x in p :: x < n
    ensures |p| <= n
  {
    if |p| > n {
      var i, j := Repeats(p, n);
    }
  }

  /** A non-empty set of vertices below `n` that all have predecessors in the set
      contains a cycle. */
  lemma BackwardCycle(g: Graph, s: set<nat>, n: nat)
    requires s != {} && Backward(g, s)
    requires forall x | x in s :: x < n
    ensures !Acyclic(g)
  {
    var v :| v in s;
    var u, p := LongPath(g, s, v, n);
    var i, j := Repeats(p, n);
    assert IsPath(g, p[i], p[j], p[i..j + 1]);
  }

  // ---------------------------------------------------------------------------
  // In-degrees.
  // ---------------------------------------------------------------------------

  function Count(s: seq<nat>, y: nat): (c: nat)
    ensures c == 0 <==> y !in s
  {
    if s == [] then 0 else (if s[0] == y then 1 else 0) + Count(s[1..], y)
  }

  lemma {:induction false} CountSnoc(s: seq<nat>, x: nat, y: nat)
    ensures Count(s + [x], y) == Count(s, y) + if x == y then 1 else 0
  {
    if s == [] {
      assert s + [x] == [x];
    } else {
      assert (s + [x])[1..] == s[1..] + [x];
      CountSnoc(s[1..], x, y);
    }
  }

  /** The edges into `y` from the vertices below `n` that are not in `done`. */
  function Pending(adj: seq<seq<nat>>, done: set<nat>, y: nat, n: nat): (c: nat)
    requires n <= |adj|
  {
    if n == 0 then 0
    else Pending(adj, done, y, n - 1) + if n - 1 in done then 0 else Count(adj[n - 1], y)
  }

  lemma {:induction false} NothingPending(adj: seq<seq<nat>>, done: set<nat>, y: nat, n: nat)
    requires n <= |adj|
    ensures Pending(adj, done, y, n) == 0 <==> forall x: nat | x < n && x !in done :: y !in adj[x]
  {
    if n > 0 { NothingPending(adj, done, y, n - 1); }
  }

  lemma {:induction false} PendingRemove(adj: seq<seq<nat>>, done: set<nat>, y: nat, n: nat, x: nat)
    requires n <= |adj| && x !in done && x < |adj|
    ensures Pending(adj, done, y, n) == Pending(adj, done + {x}, y, n) + if x < n then Count(adj[x], y) else 0
  {
    if n > 0 { PendingRemove(adj, done, y, n - 1, x); }
  }

  // ---------------------------------------------------------------------------
  // The algorithm.
  // ---------------------------------------------------------------------------

  /** What is known of the levels: a vertex without pending edges has its final
      level, another one is at most that high so far. */
  ghost predicate Levelled(g: Graph, deg: seq<int>, tln: seq<nat>) {
    && |deg| == |tln|
    && (forall v {:trigger LongestTo(g, v, tln[v])} | 0 <= v < |tln| && deg[v] == 0 :: LongestTo(g, v, tln[v]))
    && (forall v {:trigger EndsIn(g, v, tln[v])} | 0 <= v < |tln| && tln[v] != 0 :: EndsIn(g, v, tln[v]))
  }

  /** Levels rise along the edges that leave `done`. */
  ghost predicate Raised(adj: seq<seq<nat>>, done: set<nat>, tln: seq<nat>) {
    forall x: nat, y: nat | x in done && x < |adj| && y in adj[x] && y < |tln| && x < |tln| :: tln[x] + 1 <= tln[y]
  }

  /** The queue bookkeeping: `seen` lists the dequeued and the queued vertices,
      each once, and these are exactly the vertices without pending edges. */
  ghost predicate Queued(deg: seq<int>, seen: seq<nat>) {
    && (forall i, j | 0 <= i < j < |seen| :: seen[i] != seen[j])
    && (forall v: nat :: v in seen <==> v < |deg| && deg[v] == 0)
  }

  /** `deg` counts pending edges, `rest` being what is left of the edges of the
      vertex that is being processed. */
  ghost predicate Counts(adj: seq<seq<nat>>, done: set<nat>, rest: seq<nat>, deg: seq<int>) {
    && |deg| == |adj|
    && forall y | 0 <= y < |deg| :: deg[y] == Pending(adj, done, y, |adj|) + Count(rest, y)
  }

  function Max(a: nat, b: nat): (m: nat)
    ensures m >= a && m >= b && (m == a || m == b)
  {
    if a < b then b else a
  }

  method CountDegrees(adj: seq<seq<nat>>) returns (deg: array<int>)
    requires Closed(adj)
    ensures fresh(deg) && Counts(adj, {}, [], deg[..])
  {
    deg := new int[|adj|](_ => 0);
    for i := 0 to |adj|
      invariant forall y | 0 <= y < |adj| :: deg[y] == Pending(adj, {}, y, i)
    {
      for j := 0 to |adj[i]|
        invariant forall y | 0 <= y < |adj| :: deg[y] == Pending(adj, {}, y, i) + Count(adj[i][..j], y)
      {
        var z := adj[i][j];
        assert adj[i][..j + 1] == adj[i][..j] + [z];
        forall y: nat ensures Count(adj[i][..j + 1], y) == Count(adj[i][..j], y) + if z == y then 1 else 0 {
          CountSnoc(adj[i][..j], z, y);
        }
        deg[z] := deg[z] + 1;
      }
      assert adj[i][..|adj[i]|] == adj[i];
    }
  }

  /** The state while the edges of the dequeued vertex `x` are processed, `i` of
      them done; `done` are the dequeued vertices. */
  ghost predicate Working(adj: seq<seq<nat>>, done: set<nat>, x: nat, i: nat, deg: seq<int>, tln: seq<nat>) {
    && x < |adj| && i <= |adj[x]| && x in done
    && |tln| == |adj|
    && Counts(adj, done, adj[x][i..], deg)
    && Levelled(Edges(adj), deg, tln)
    && Raised(adj, done - {x}, tln)
    && (forall j | 0 <= j < i :: adj[x][j] < |tln| && tln[x] + 1 <= tln[adj[x][j]])
    && (forall v | v in done :: v < |adj| && deg[v] == 0)
  }

  /** Processing one edge keeps the state. */
  lemma EdgeStep(adj: seq<seq<nat>>, done: set<nat>, x: nat, i: nat, deg: seq<int>, tln: seq<nat>,
                 deg': seq<int>, tln': seq<nat>)
    requires Closed(adj) && Working(adj, done, x, i, deg, tln) && i < |adj[x]|
    requires deg' == deg[adj[x][i] := deg[adj[x][i]] - 1]
    requires tln' == tln[adj[x][i] := Max(tln[adj[x][i]], tln[x] + 1)]
    ensures deg[adj[x][i]] > 0
    ensures Working(adj, done, x, i + 1, deg', tln')
  {
    var g, y := Edges(adj), adj[x][i];
    assert adj[x][i..][1..] == adj[x][i + 1..];
    assert y !in done && (x, y) in g;
    EndsInExtend(g, x, y, tln[x]) by { assert LongestTo(g, x, tln[x]); }
    if deg'[y] == 0 {
      NothingPending(adj, done, y, |adj|);
      forall z: nat | (z, y) in g ensures z < |tln| && AtMost(g, z, tln[z]) && tln[z] + 1 <= tln'[y] {
        assert z in done;
        assert LongestTo(g, z, tln[z]);
      }
      AtMostExtend(g, y, tln'[y], tln);
    }
  }

  /** Dequeuing `x` starts the processing of its edges. */
  lemma StartVertex(adj: seq<seq<nat>>, done: set<nat>, x: nat, deg: seq<int>, tln: seq<nat>)
    requires x < |adj| == |tln| && x !in done
    requires Counts(adj, done, [], deg) && Levelled(Edges(adj), deg, tln) && Raised(adj, done, tln)
    requires forall v | v in done + {x} :: v < |adj| && deg[v] == 0
    ensures Working(adj, done + {x}, x, 0, deg, tln)
  {
    assert adj[x][0..] == adj[x];
    forall y | 0 <= y < |deg| ensures deg[y] == Pending(adj, done + {x}, y, |adj|) + Count(adj[x][0..], y) {
      PendingRemove(adj, done, y, |adj|, x);
    }
    assert done + {x} - {x} == done;
  }

  /** After its last edge `x` is an ordinary dequeued vertex. */
  lemma EndVertex(adj: seq<seq<nat>>, done: set<nat>, x: nat, deg: seq<int>, tln: seq<nat>)
    requires Closed(adj) && x < |adj| && Working(adj, done, x, |adj[x]|, deg, tln)
    ensures Counts(adj, done, [], deg) && Raised(adj, done, tln)
  {
    assert adj[x][|adj[x]|..] == [];
    forall z: nat, y: nat | z in done && z < |adj| && y in adj[z] && y < |tln| && z < |tln|
      ensures tln[z] + 1 <= tln[y]
    {
      if z != x { assert z in done - {x}; }
    }
  }

  /** The largest level assigned to the head of an edge, 0 if there is none. */
  ghost predicate MaxLevel(tln: seq<nat>, maxx: nat) {
    && (forall v | 0 <= v < |tln| :: tln[v] <= Max(1, maxx))
    && (maxx != 0 ==> 2 <= maxx && exists v :: 0 <= v < |tln| && tln[v] == maxx)
  }

  /** The vertices the algorithm starts from. */
  lemma Sources(adj: seq<seq<nat>>, deg: seq<int>, tln: seq<nat>)
    requires Counts(adj, {}, [], deg) && |tln| == |adj|
    requires forall v | 0 <= v < |tln| :: tln[v] == if deg[v] == 0 then 1 else 0
    ensures Levelled(Edges(adj), deg, tln)
  {
    var g := Edges(adj);
    forall v | 0 <= v < |tln| && deg[v] == 0 ensures LongestTo(g, v, 1) {
      assert IsPath(g, v, v, [v]);
      NothingPending(adj, {}, v, |adj|);
      AtMostExtend(g, v, 1, tln);
    }
  }

  /** A vertex with pending edges has a predecessor that is not dequeued. */
  lemma LeftBackward(adj: seq<seq<nat>>, done: set<nat>, deg: seq<int>, left: set<nat>)
    requires Counts(adj, done, [], deg)
    requires forall v: nat :: v in left <==> v < |adj| && v !in done
    requires forall v | v in left :: deg[v] != 0
    ensures Backward(Edges(adj), left)
  {
    forall y | y in left ensures HasPred(Edges(adj), left, y) {
      NothingPending(adj, done, y, |adj|);
      var x: nat :| x < |adj| && x !in done && y in adj[x];
      assert x in left && (x, y) in Edges(adj);
    }
  }

  /** When the queue runs empty, everything has been dequeued exactly if there is no cycle. */
  lemma Drained(adj: seq<seq<nat>>, done: seq<nat>, deg: seq<int>, tln: seq<nat>)
    requires Closed(adj) && Queued(deg, done)
    requires Counts(adj, Seen(done), [], deg) && Levelled(Edges(adj), deg, tln)
    ensures Acyclic(Edges(adj)) <==> forall v | 0 <= v < |adj| :: v in done
  {
    var g := Edges(adj);
    var left := set v: nat | v < |adj| && v !in Seen(done);
    LeftBackward(adj, Seen(done), deg, left);
    if left != {} {
      BackwardCycle(g, left, |adj|);
      var v :| v in left;
      assert v !in done;
    } else {
      forall v: nat | v < |adj| ensures v in done { assert v !in left; }
      BoundedIsAcyclic(g, tln);
    }
  }

  ghost function Seen(s: seq<nat>): set<nat> {
    set v | v in s
  }

  /** The levels of all vertices, and their dequeuing order.  On an acyclic graph
      every vertex is dequeued exactly once, no edge stays pending, and the level
      of a vertex is the number of vertices on a longest path that ends in it. */
  method Toposort(adj: seq<seq<nat>>, tln: array<nat>) returns (deg: array<int>, maxx: nat, ghost done: seq<nat>)
    requires Closed(adj) && tln.Length == |adj|
    requires forall v | 0 <= v < tln.Length :: tln[v] == 0
    modifies tln
    ensures fresh(deg) && deg.Length == |adj|
    ensures Queued(deg[..], done)
    ensures Acyclic(Edges(adj)) <==> forall v | 0 <= v < |adj| :: v in done
    ensures forall v | v in done :: LongestTo(Edges(adj), v, tln[v])
    ensures MaxLevel(tln[..], maxx)
  {
    deg := CountDegrees(adj);
    ghost var d0 := deg[..];
    var q: seq<nat> := [];
    for i := 0 to |adj|
      invariant deg[..] == d0
      invariant forall j, k | 0 <= j < k < |q| :: q[j] != q[k]
      invariant forall v: nat :: v in q <==> v < i && deg[v] == 0
      invariant forall v | 0 <= v < |adj| :: tln[v] == if v < i && deg[v] == 0 then 1 else 0
    {
      if deg[i] == 0 {
        q := q + [i];
        tln[i] := 1;
      }
    }
    Sources(adj, deg[..], tln[..]);
    maxx, done := 0, [];
    assert Seen(done) == {};
    while q != []
      invariant Queued(deg[..], done + q)
      invariant Counts(adj, Seen(done), [], deg[..])
      invariant Levelled(Edges(adj), deg[..], tln[..])
      invariant Raised(adj, Seen(done), tln[..])
      invariant MaxLevel(tln[..], maxx)
      decreases |adj| - |done|
    {
      DistinctBound(done + q, |adj|);
      var x := q[0];
      assert done + [x] + q[1..] == done + q;
      q := q[1..];
      q, maxx := Relax(adj, tln, deg, x, q, maxx, done);
      done := done + [x];
    }
    assert done + q == done;
    Drained(adj, done, deg[..], tln[..]);
  }

  /** Processing the edge number `i` of `x`; `before` are the dequeued vertices. */
  method RelaxEdge(adj: seq<seq<nat>>, tln: array<nat>, deg: array<int>, x: nat, i: nat, q0: seq<nat>, maxx0: nat,
                   ghost done: set<nat>, ghost before: seq<nat>)
    returns (q: seq<nat>, maxx: nat)
    requires Closed(adj) && tln.Length == deg.Length == |adj| && tln as object != deg as object
    requires Working(adj, done, x, i, deg[..], tln[..]) && i < |adj[x]|
    requires Queued(deg[..], before + q0) && MaxLevel(tln[..], maxx0)
    modifies tln, deg
    ensures Working(adj, done, x, i + 1, deg[..], tln[..])
    ensures Queued(deg[..], before + q) && MaxLevel(tln[..], maxx)
  {
    var y := adj[x][i];
    ghost var d, t := deg[..], tln[..];
    deg[y] := deg[y] - 1;
    assert deg[..] == d[y := d[y] - 1] && tln[..] == t;
    tln[y] := Max(tln[y], tln[x] + 1);
    assert tln[..] == t[y := Max(t[y], t[x] + 1)];
    assert deg[..] == d[y := d[y] - 1];
    maxx := Max(tln[y], maxx0);
    q := if deg[y] == 0 then q0 + [y] else q0;
    assert before + q == if deg[y] == 0 then before + q0 + [y] else before + q0;
    RelaxStep(adj, done, x, i, d, t, before + q0, maxx0);
  }

  /** Processing the edges of the vertex `x` taken from the queue. */
  method Relax(adj: seq<seq<nat>>, tln: array<nat>, deg: array<int>, x: nat, q0: seq<nat>, maxx0: nat, ghost done: seq<nat>)
    returns (q: seq<nat>, maxx: nat)
    requires Closed(adj) && tln.Length == deg.Length == |adj| && tln as object != deg as object
    requires Queued(deg[..], done + [x] + q0)
    requires Counts(adj, Seen(done), [], deg[..])
    requires Levelled(Edges(adj), deg[..], tln[..])
    requires Raised(adj, Seen(done), tln[..])
    requires MaxLevel(tln[..], maxx0)
    modifies tln, deg
    ensures Queued(deg[..], done + [x] + q)
    ensures Counts(adj, Seen(done + [x]), [], deg[..])
    ensures Levelled(Edges(adj), deg[..], tln[..])
    ensures Raised(adj, Seen(done + [x]), tln[..])
    ensures MaxLevel(tln[..], maxx)
  {
    q, maxx := q0, maxx0;
    ghost var done' := Seen(done + [x]);
    DequeuedSeen(deg[..], done, x, q0);
    StartVertex(adj, Seen(done), x, deg[..], tln[..]);
    for i := 0 to |adj[x]|
      invariant Queued(deg[..], done + [x] + q)
      invariant Working(adj, done', x, i, deg[..], tln[..])
      invariant MaxLevel(tln[..], maxx)
    {
      q, maxx := RelaxEdge(adj, tln, deg, x, i, q, maxx, done', done + [x]);
    }
    EndVertex(adj, done', x, deg[..], tln[..]);
  }

  lemma DequeuedSeen(deg: seq<int>, done: seq<nat>, x: nat, q: seq<nat>)
    requires Queued(deg, done + [x] + q)
    ensures Seen(done + [x]) == Seen(done) + {x} && x !in Seen(done)
    ensures forall v | v in Seen(done) + {x} :: v < |deg| && deg[v] == 0
  {
    var seen := done + [x] + q;
    assert seen[|done|] == x;
    forall v | v in done ensures v in seen && v != x {
      var i :| 0 <= i < |done| && done[i] == v;
      assert seen[i] == v;
    }
    assert forall v :: v in done + [x] <==> v in done || v == x;
    assert x in seen;
    forall v | v in Seen(done) + {x} ensures v < |deg| && deg[v] == 0 { assert v in seen; }
  }

  /** What processing the edge number `i` of `x` does to levels, queue and maximum. */
  lemma RelaxStep(adj: seq<seq<nat>>, done: set<nat>, x: nat, i: nat, deg: seq<int>, tln: seq<nat>, seen: seq<nat>, maxx: nat)
    requires Closed(adj) && Working(adj, done, x, i, deg, tln) && i < |adj[x]|
    requires Queued(deg, seen) && MaxLevel(tln, maxx)
    ensures var y := adj[x][i];
      var deg', tln' := deg[y := deg[y] - 1], tln[y := Max(tln[y], tln[x] + 1)];
      && Working(adj, done, x, i + 1, deg', tln')
      && Queued(deg', if deg'[y] == 0 then seen + [y] else seen)
      && MaxLevel(tln', Max(tln'[y], maxx))
  {
    var y := adj[x][i];
    var deg', tln' := deg[y := deg[y] - 1], tln[y := Max(tln[y], tln[x] + 1)];
    EdgeStep(adj, done, x, i, deg, tln, deg', tln');
    QueueStep(deg, deg', seen, y, if deg'[y] == 0 then seen + [y] else seen);
    assert LongestTo(Edges(adj), x, tln[x]);
    MaxLevelStep(tln, y, tln'[y], maxx);
  }

  lemma MaxLevelStep(tln: seq<nat>, y: nat, k: nat, maxx: nat)
    requires MaxLevel(tln, maxx) && y < |tln| && 2 <= k && tln[y] <= k
    ensures MaxLevel(tln[y := k], Max(k, maxx))
  {
    if maxx > k {
      var v :| 0 <= v < |tln| && tln[v] == maxx;
      assert tln[y := k][v] == maxx;
    } else {
      assert tln[y := k][y] == k;
    }
  }

  lemma QueueStep(deg: seq<int>, deg': seq<int>, seen: seq<nat>, y: nat, seen': seq<nat>)
    requires Queued(deg, seen) && y < |deg| && deg[y] > 0 && deg' == deg[y := deg[y] - 1]
    requires seen' == if deg'[y] == 0 then seen + [y] else seen
    ensures Queued(deg', seen')
  {
  }
}
