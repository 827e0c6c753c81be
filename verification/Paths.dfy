// Directed graphs as finite edge relations, and reachability along paths.
module Paths {

  type Graph = set<(nat, nat)>

  /** `p` lists the vertices of a walk of `g` from `u` to `v`. */
  ghost predicate IsPath(g: Graph, u: nat, v: nat, p: seq<nat>) {
    && 0 < |p| && p[0] == u && p[|p| - 1] == v
    && forall i, j | 0 <= i < j == i + 1 < |p| :: (p[i], p[j]) in g
  }

  ghost predicate Reach(g: Graph, u: nat, v: nat) {
    exists p :: IsPath(g, u, v, p)
  }

  ghost predicate Mutual(g: Graph, u: nat, v: nat) {
    Reach(g, u, v) && Reach(g, v, u)
  }

  /** The edge relation of an adjacency list; repeated entries collapse. */
  function Edges(adj: seq<seq<nat>>): (g: Graph)
    ensures forall x: nat, y: nat :: (x, y) in g <==> x < |adj| && y in adj[x]
  {
    set x: nat, j: nat | x < |adj| && j < |adj[x]| :: (x, adj[x][j])
  }

  /** Every entry names a vertex. */
  ghost predicate Closed(adj: seq<seq<nat>>) {
    forall x, j | 0 <= x < |adj| && 0 <= j < |adj[x]| :: adj[x][j] < |adj|
  }

  lemma ReachRefl(g: Graph, u: nat)
    ensures Reach(g, u, u)
  {
    assert IsPath(g, u, u, [u]);
  }

  lemma ReachEdge(g: Graph, u: nat, v: nat)
    requires (u, v) in g
    ensures Reach(g, u, v)
  {
    assert IsPath(g, u, v, [u, v]);
  }

  lemma ReachTrans(g: Graph, u: nat, v: nat, w: nat)
    requires Reach(g, u, v) && Reach(g, v, w)
    ensures Reach(g, u, w)
  {
    var p :| IsPath(g, u, v, p);
    var q :| IsPath(g, v, w, q);
    var r := p + q[1..];
    forall i | 0 <= i < |r| - 1 ensures (r[i], r[i + 1]) in g {
      if i >= |p| - 1 { assert r[i] == q[i - (|p| - 1)]; }
    }
    assert IsPath(g, u, w, r);
  }

  lemma ReachStep(g: Graph, u: nat, v: nat, w: nat)
    requires Reach(g, u, v) && (v, w) in g
    ensures Reach(g, u, w)
  {
    ReachEdge(g, v, w);
    ReachTrans(g, u, v, w);
  }

  /** Dropping the last vertex of a path leaves a path. */
  lemma PathInit(g: Graph, u: nat, v: nat, p: seq<nat>)
    requires IsPath(g, u, v, p) && 1 < |p|
    ensures IsPath(g, u, p[|p| - 2], p[..|p| - 1]) && (p[|p| - 2], v) in g
  {
  }

  /** A set that edges do not leave is not left by paths either. */
  lemma {:induction false} ReachStays(g: Graph, u: nat, v: nat, s: set<nat>)
    requires Reach(g, u, v) && u in s
    requires forall x, y :: (x, y) in g && x in s ==> y in s
    ensures v in s
  {
    var p :| IsPath(g, u, v, p);
    PathStays(g, u, v, s, p);
  }

  lemma {:induction false} PathStays(g: Graph, u: nat, v: nat, s: set<nat>, p: seq<nat>)
    requires IsPath(g, u, v, p) && u in s
    requires forall x, y :: (x, y) in g && x in s ==> y in s
    ensures v in s
    decreases |p|
  {
    if |p| > 1 {
      PathInit(g, u, v, p);
      PathStays(g, u, p[|p| - 2], s, p[..|p| - 1]);
    }
  }

  /** A map that sends every edge of `g` to a reachable pair of `h` sends every
      reachable pair of `g` to a reachable pair of `h`. */
  lemma {:induction false} ReachMap(g: Graph, h: Graph, f: nat -> nat, u: nat, v: nat)
    requires Reach(g, u, v)
    requires forall x, y :: (x, y) in g ==> Reach(h, f(x), f(y))
    ensures Reach(h, f(u), f(v))
  {
    var p :| IsPath(g, u, v, p);
    PathMap(g, h, f, u, v, p);
  }

  lemma {:induction false} PathMap(g: Graph, h: Graph, f: nat -> nat, u: nat, v: nat, p: seq<nat>)
    requires IsPath(g, u, v, p)
    requires forall x, y :: (x, y) in g ==> Reach(h, f(x), f(y))
    ensures Reach(h, f(u), f(v))
    decreases |p|
  {
    if |p| == 1 {
      ReachRefl(h, f(u));
    } else {
      PathInit(g, u, v, p);
      PathMap(g, h, f, u, p[|p| - 2], p[..|p| - 1]);
      ReachTrans(h, f(u), f(p[|p| - 2]), f(v));
    }
  }
}
