// The condensation that TFLabel::read builds from the component numbers.
module Condensation {
  import opened Paths
  import opened Tarjan
  import Topological

  /** `dag` has one vertex for each component and, in both directions, exactly the
      edges that lead from one component into another. */
  ghost predicate IsCondensation(adj: seq<seq<nat>>, scc: seq<nat>, cnt: nat, dag: seq<seq<nat>>)
    requires Closed(adj) && |scc| == |adj| && forall u | 0 <= u < |scc| :: 1 <= scc[u] <= cnt
  {
    && |dag| == cnt
    && (forall u: nat, v: nat | (u, v) in Edges(adj) && scc[u] != scc[v] :: scc[v] - 1 in dag[scc[u] - 1])
    && (forall x: nat, y: nat {:trigger Crosses(adj, scc, cnt, x, y)} | x < |dag| && y in dag[x] :: Crosses(adj, scc, cnt, x, y))
  }

  ghost predicate Crosses(adj: seq<seq<nat>>, scc: seq<nat>, cnt: nat, x: nat, y: nat)
    requires Closed(adj) && |scc| == |adj|
  {
    && x != y && x < cnt && y < cnt
    && exists u, v :: (u, v) in Edges(adj) && scc[u] == x + 1 && scc[v] == y + 1
  }

  /** The entries of component number `x + 1` for the edges before entry `j` of vertex `i`:
      one for each of them that leads from this component into another, in order. */
  function Row(adj: seq<seq<nat>>, scc: seq<nat>, x: nat, i: nat, j: nat): seq<nat>
    requires Closed(adj) && |scc| == |adj| && (forall u | 0 <= u < |scc| :: 1 <= scc[u])
    requires i < |adj| && j <= |adj[i]|
    decreases i, j
  {
    if j > 0 then
      var y := scc[adj[i][j - 1]] - 1;
      Row(adj, scc, x, i, j - 1) + if scc[i] - 1 == x != y then [y] else []
    else if i > 0 then Row(adj, scc, x, i - 1, |adj[i - 1]|)
    else []
  }

  /** All of them. */
  function FullRow(adj: seq<seq<nat>>, scc: seq<nat>, x: nat): seq<nat>
    requires Closed(adj) && |scc| == |adj| && (forall u | 0 <= u < |scc| :: 1 <= scc[u])
  {
    if adj == [] then [] else Row(adj, scc, x, |adj| - 1, |adj[|adj| - 1]|)
  }

  /** The lists while those of vertex `i` are built. */
  ghost predicate Rows(adj: seq<seq<nat>>, scc: seq<nat>, dag: seq<seq<nat>>, i: nat, j: nat)
    requires Closed(adj) && |scc| == |adj| && (forall u | 0 <= u < |scc| :: 1 <= scc[u])
    requires i < |adj| && j <= |adj[i]|
  {
    forall x: nat | x < |dag| :: dag[x] == Row(adj, scc, x, i, j)
  }

  /** The lists when those of the vertices before `i` are built. */
  ghost predicate RowsBefore(adj: seq<seq<nat>>, scc: seq<nat>, dag: seq<seq<nat>>, i: nat)
    requires Closed(adj) && |scc| == |adj| && (forall u | 0 <= u < |scc| :: 1 <= scc[u])
    requires i <= |adj|
  {
    if i < |adj| then Rows(adj, scc, dag, i, 0) else forall x: nat | x < |dag| :: dag[x] == FullRow(adj, scc, x)
  }

  /** Builds the adjacency lists of the condensation, one entry for each crossing edge. */
  method Condense(adj: seq<seq<nat>>, scc: array<nat>, cnt: nat) returns (dag: array<seq<nat>>, fa: seq<nat>)
    requires Closed(adj) && Components(Edges(adj), scc[..], cnt) && scc.Length == |adj|
    ensures fresh(dag) && IsCondensation(adj, scc[..], cnt, dag[..])
    ensures forall x: nat | x < cnt :: dag[x] == FullRow(adj, scc[..], x)
    ensures fa == seq(cnt, i => i)
  {
    dag := new seq<nat>[cnt](_ => []);
    ghost var c := scc[..];
    for i := 0 to |adj|
      invariant scc[..] == c && Partial(adj, c, cnt, dag[..], i, 0) && RowsBefore(adj, c, dag[..], i)
    {
      CondenseVertex(adj, scc, cnt, dag, i);
      NextVertex(adj, c, cnt, dag[..], i);
    }
    Whole(adj, c, cnt, dag[..]);
    fa := seq(cnt, i => i);
  }

  /** The entries for the edges of one vertex. */
  method CondenseVertex(adj: seq<seq<nat>>, scc: array<nat>, cnt: nat, dag: array<seq<nat>>, i: nat)
    requires Closed(adj) && scc.Length == |adj| && forall u | 0 <= u < scc.Length :: 1 <= scc[u] <= cnt
    requires i < |adj| && Partial(adj, scc[..], cnt, dag[..], i, 0) && Rows(adj, scc[..], dag[..], i, 0)
    modifies dag
    ensures Partial(adj, scc[..], cnt, dag[..], i, |adj[i]|) && Rows(adj, scc[..], dag[..], i, |adj[i]|)
  {
    ghost var c := scc[..];
    for j := 0 to |adj[i]|
      invariant scc[..] == c && Partial(adj, c, cnt, dag[..], i, j) && Rows(adj, c, dag[..], i, j)
    {
      var x, y := scc[i] - 1, scc[adj[i][j]] - 1;
      ghost var d := dag[..];
      if x != y {
        dag[x] := dag[x] + [y];
        assert dag[..] == d[x := d[x] + [y]];
      }
      PartialStep(adj, c, cnt, d, i, j, dag[..]);
      RowsStep(adj, c, d, i, j, dag[..]);
    }
  }

  /** The condensation of the edges before the entry number `j` of vertex `i`. */
  ghost predicate Partial(adj: seq<seq<nat>>, scc: seq<nat>, cnt: nat, dag: seq<seq<nat>>, i: nat, j: nat)
    requires Closed(adj) && |scc| == |adj| && forall u | 0 <= u < |scc| :: 1 <= scc[u] <= cnt
  {
    && |dag| == cnt
    && (forall u, k | 0 <= u < |adj| && 0 <= k < |adj[u]| && (u < i || (u == i && k < j)) && scc[u] != scc[adj[u][k]] ::
          scc[adj[u][k]] - 1 in dag[scc[u] - 1])
    && (forall x: nat, y: nat {:trigger Crosses(adj, scc, cnt, x, y)} | x < |dag| && y in dag[x] :: Crosses(adj, scc, cnt, x, y))
  }

  lemma PartialStep(adj: seq<seq<nat>>, scc: seq<nat>, cnt: nat, dag: seq<seq<nat>>, i: nat, j: nat, dag': seq<seq<nat>>)
    requires Closed(adj) && |scc| == |adj| && forall u | 0 <= u < |scc| :: 1 <= scc[u] <= cnt
    requires Partial(adj, scc, cnt, dag, i, j) && i < |adj| && j < |adj[i]|
    requires var x, y := scc[i] - 1, scc[adj[i][j]] - 1;
      dag' == if x != y then dag[x := dag[x] + [y]] else dag
    ensures Partial(adj, scc, cnt, dag', i, j + 1)
  {
    assert (i, adj[i][j]) in Edges(adj);
    forall x: nat, y: nat | x < |dag'| && y in dag'[x] ensures Crosses(adj, scc, cnt, x, y) {
      if y !in dag[x] { assert (i, adj[i][j]) in Edges(adj); }
    }
  }

  lemma NextVertex(adj: seq<seq<nat>>, scc: seq<nat>, cnt: nat, dag: seq<seq<nat>>, i: nat)
    requires Closed(adj) && |scc| == |adj| && forall u | 0 <= u < |scc| :: 1 <= scc[u] <= cnt
    requires i < |adj| && Partial(adj, scc, cnt, dag, i, |adj[i]|) && Rows(adj, scc, dag, i, |adj[i]|)
    ensures Partial(adj, scc, cnt, dag, i + 1, 0) && RowsBefore(adj, scc, dag, i + 1)
  {
  }

  lemma Whole(adj: seq<seq<nat>>, scc: seq<nat>, cnt: nat, dag: seq<seq<nat>>)
    requires Closed(adj) && |scc| == |adj| && forall u | 0 <= u < |scc| :: 1 <= scc[u] <= cnt
    requires Partial(adj, scc, cnt, dag, |adj|, 0)
    ensures IsCondensation(adj, scc, cnt, dag)
  {
  }

  lemma RowsStep(adj: seq<seq<nat>>, scc: seq<nat>, dag: seq<seq<nat>>, i: nat, j: nat, dag': seq<seq<nat>>)
    requires Closed(adj) && |scc| == |adj| && forall u | 0 <= u < |scc| :: 1 <= scc[u] <= |dag|
    requires i < |adj| && j < |adj[i]| && Rows(adj, scc, dag, i, j)
    requires var x, y := scc[i] - 1, scc[adj[i][j]] - 1;
      dag' == if x != y then dag[x := dag[x] + [y]] else dag
    ensures Rows(adj, scc, dag', i, j + 1)
  {
    forall x: nat | x < |dag'| ensures dag'[x] == Row(adj, scc, x, i, j + 1) {
      assert dag[x] == Row(adj, scc, x, i, j);
    }
  }

  /** Component numbers are given out in reverse topological order. */
  lemma EdgesDescend(adj: seq<seq<nat>>, scc: seq<nat>, cnt: nat, dag: seq<seq<nat>>, x: nat, y: nat)
    requires Closed(adj) && Components(Edges(adj), scc, cnt) && |scc| == |adj|
    requires IsCondensation(adj, scc, cnt, dag)
    requires (x, y) in Edges(dag)
    ensures y < x < cnt
  {
    assert Crosses(adj, scc, cnt, x, y);
  }

  lemma {:induction false} PathDescends(g: Graph, u: nat, v: nat, p: seq<nat>)
    requires IsPath(g, u, v, p) && forall x, y | (x, y) in g :: y < x
    ensures v <= u && (|p| > 1 ==> v < u)
    decreases |p|
  {
    if |p| > 1 {
      PathInit(g, u, v, p);
      PathDescends(g, u, p[|p| - 2], p[..|p| - 1]);
    }
  }

  /** The condensation is a well-formed acyclic graph, so that its topological sort covers it all. */
  lemma CondensationAcyclic(adj: seq<seq<nat>>, scc: seq<nat>, cnt: nat, dag: seq<seq<nat>>)
    requires Closed(adj) && Components(Edges(adj), scc, cnt) && |scc| == |adj|
    requires IsCondensation(adj, scc, cnt, dag)
    ensures Closed(dag) && Topological.Acyclic(Edges(dag))
  {
    forall x: nat, y: nat | (x, y) in Edges(dag) ensures y < x < cnt {
      EdgesDescend(adj, scc, cnt, dag, x, y);
    }
    assert forall x, j | 0 <= x < |dag| && 0 <= j < |dag[x]| :: (x, dag[x][j]) in Edges(dag);
    forall v: nat, p: seq<nat> | IsPath(Edges(dag), v, v, p) ensures |p| == 1 {
      PathDescends(Edges(dag), v, v, p);
    }
  }

  /** Condensing preserves and reflects reachability. */
  lemma CondensationReach(adj: seq<seq<nat>>, scc: seq<nat>, cnt: nat, dag: seq<seq<nat>>, u: nat, v: nat)
    requires Closed(adj) && Components(Edges(adj), scc, cnt) && |scc| == |adj|
    requires IsCondensation(adj, scc, cnt, dag)
    requires u < |adj| && v < |adj|
    ensures Reach(Edges(adj), u, v) <==> Reach(Edges(dag), scc[u] - 1, scc[v] - 1)
  {
    var g, h := Edges(adj), Edges(dag);
    if Reach(g, u, v) { PushReach(g, h, scc, u, v); }
    if Reach(h, scc[u] - 1, scc[v] - 1) {
      forall x: nat, y: nat | (x, y) in h ensures Bridged(g, scc, x, y) {
        assert Crosses(adj, scc, cnt, x, y);
      }
      LiftReach(g, h, scc, cnt, u, v);
    }
  }

  function Pred(n: nat): nat { if n == 0 then 0 else n - 1 }

  lemma PushReach(g: Graph, h: Graph, scc: seq<nat>, u: nat, v: nat)
    requires forall x: nat, y: nat | (x, y) in g ::
      (x < |scc| && y < |scc| && (scc[x] == scc[y] || (Pred(scc[x]), Pred(scc[y])) in h))
    requires u < |scc| && v < |scc| && Reach(g, u, v)
    ensures Reach(h, Pred(scc[u]), Pred(scc[v]))
  {
    var f := (x: nat) => if x < |scc| then Pred(scc[x]) else 0;
    forall x: nat, y: nat | (x, y) in g ensures Reach(h, f(x), f(y)) {
      if scc[x] == scc[y] { ReachRefl(h, f(x)); } else { ReachEdge(h, f(x), f(y)); }
    }
    ReachMap(g, h, f, u, v);
  }

  /** A member of each component. */
  ghost function Member(scc: seq<nat>, cnt: nat, x: nat): (u: nat)
    requires forall c | 1 <= c <= cnt :: Used(scc, c)
    ensures x < cnt ==> u < |scc| && scc[u] == x + 1
  {
    if x < cnt then
      assert Used(scc, x + 1);
      var u: nat :| u < |scc| && scc[u] == x + 1; u
    else 0
  }

  ghost predicate Bridged(g: Graph, scc: seq<nat>, x: nat, y: nat) {
    exists a, b :: (a, b) in g && a < |scc| && b < |scc| && scc[a] == x + 1 && scc[b] == y + 1
  }

  lemma LiftReach(g: Graph, h: Graph, scc: seq<nat>, cnt: nat, u: nat, v: nat)
    requires Components(g, scc, cnt)
    requires forall x: nat, y: nat {:trigger Bridged(g, scc, x, y)} | (x, y) in h :: Bridged(g, scc, x, y)
    requires u < |scc| && v < |scc| && Reach(h, Pred(scc[u]), Pred(scc[v]))
    ensures Reach(g, u, v)
  {
    var f := (x: nat) => Member(scc, cnt, x);
    forall x: nat, y: nat | (x, y) in h ensures Reach(g, f(x), f(y)) {
      assert Bridged(g, scc, x, y);
      var a, b :| (a, b) in g && a < |scc| && b < |scc| && scc[a] == x + 1 && scc[b] == y + 1;
      LiftEdge(g, scc, cnt, f(x), a, b, f(y));
    }
    var s, t := Pred(scc[u]), Pred(scc[v]);
    ReachMap(h, g, f, s, t);
    assert scc[f(s)] == scc[u] && scc[f(t)] == scc[v];
    assert Mutual(g, u, f(s)) && Mutual(g, f(t), v);
    ReachTrans(g, u, f(s), f(t));
    ReachTrans(g, u, f(t), v);
  }

  lemma LiftEdge(g: Graph, scc: seq<nat>, cnt: nat, x: nat, a: nat, b: nat, y: nat)
    requires Components(g, scc, cnt) && (a, b) in g
    requires x < |scc| && y < |scc| && a < |scc| && b < |scc| && scc[x] == scc[a] && scc[b] == scc[y]
    ensures Reach(g, x, y)
  {
    assert Mutual(g, x, a) && Mutual(g, b, y);
    ReachStep(g, x, a, b);
    ReachTrans(g, x, b, y);
  }
}
