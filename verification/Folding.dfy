// One step of topological folding on the working graph: what each rewriting of
// TFLabel::construct does to reachability and to the levels.
module Folding {
  import opened Paths

  /** The edges from `x` to all of `s`, and from all of `s` to `x`. */
  function FanOut(x: nat, s: set<nat>): (g: Graph)
    ensures forall u: nat, v: nat :: (u, v) in g <==> u == x && v in s
  {
    set v | v in s :: (x, v)
  }

  function FanIn(s: set<nat>, x: nat): (g: Graph)
    ensures forall u: nat, v: nat :: (u, v) in g <==> u in s && v == x
  {
    set u | u in s :: (u, x)
  }

  function Product(s: set<nat>, t: set<nat>): (g: Graph)
    ensures forall u: nat, v: nat :: (u, v) in g <==> u in s && v in t
  {
    set u, v | u in s && v in t :: (u, v)
  }

  function Succs(g: Graph, x: nat): (s: set<nat>)
    ensures forall y: nat :: y in s <==> (x, y) in g
  {
    set e | e in g && e.0 == x :: e.1
  }

  function Preds(g: Graph, x: nat): (s: set<nat>)
    ensures forall y: nat :: y in s <==> (y, x) in g
  {
    set e | e in g && e.1 == x :: e.0
  }

  function Incident(g: Graph, x: nat): (s: Graph)
    ensures forall u: nat, v: nat :: (u, v) in s <==> (u, v) in g && (u == x || v == x)
  {
    set e | e in g && (e.0 == x || e.1 == x)
  }

  /** `g` and `h` agree on which vertices of `vs` reach which. */
  ghost predicate SameReach(vs: set<nat>, g: Graph, h: Graph) {
    forall u, v {:trigger Reach(g, u, v)} {:trigger Reach(h, u, v)} |
      u in vs && v in vs :: Reach(g, u, v) <==> Reach(h, u, v)
  }

  lemma SameReachTrans(vs: set<nat>, g: Graph, h: Graph, k: Graph)
    requires SameReach(vs, g, h) && SameReach(vs, h, k)
    ensures SameReach(vs, g, k)
  {
  }

  /** The working graph: vertices carry levels, and edges go up. */
  ghost predicate Rising(level: map<nat, nat>, g: Graph) {
    && (forall x | x in level :: 1 <= level[x])
    && (forall x, y | (x, y) in g :: x in level && y in level && level[x] < level[y])
  }

  // ---------------------------------------------------------------------------
  // Pass a: a dummy above an odd vertex takes over its long outgoing edges.
  // ---------------------------------------------------------------------------

  function Far(level: map<nat, nat>, g: Graph, a: nat): (s: set<nat>)
    requires a in level && forall e | e in g :: e.1 in level
  {
    set y | y in Succs(g, a) && level[y] > level[a] + 1
  }

  function SplitOut(g: Graph, a: nat, n: nat, far: set<nat>): Graph {
    g - FanOut(a, far) + {(a, n)} + FanOut(n, far)
  }

  /** Interposing a new vertex on some outgoing edges does not change who reaches whom. */
  lemma SplitOutReach(g: Graph, a: nat, n: nat, far: set<nat>, vs: set<nat>)
    requires far <= Succs(g, a) && n !in vs && n != a
    requires forall x, y | (x, y) in g :: x != n && y != n
    ensures SameReach(vs, g, SplitOut(g, a, n, far))
  {
    var h := SplitOut(g, a, n, far);
    forall x: nat, y: nat | (x, y) in g ensures Reach(h, x, y) {
      if x == a && y in far {
        ReachEdge(h, a, n);
        ReachStep(h, a, n, y);
      } else {
        ReachEdge(h, x, y);
      }
    }
    var f := (x: nat) => if x == n then a else x;
    forall x: nat, y: nat | (x, y) in h ensures Reach(g, f(x), f(y)) {
      if y == n { ReachRefl(g, a); } else { ReachEdge(g, f(x), y); }
    }
    forall u, v | u in vs && v in vs ensures Reach(g, u, v) <==> Reach(h, u, v) {
      if Reach(g, u, v) { ReachMap(g, h, (x: nat) => x, u, v); }
      if Reach(h, u, v) { ReachMap(h, g, f, u, v); }
    }
  }

  // ---------------------------------------------------------------------------
  // Pass b: a dummy below an odd vertex takes over its long incoming edges.
  // ---------------------------------------------------------------------------

  function Near(level: map<nat, nat>, g: Graph, a: nat): (s: set<nat>)
    requires a in level && forall e | e in g :: e.0 in level
  {
    set y | y in Preds(g, a) && level[y] + 1 < level[a] && level[y] % 2 == 0
  }

  function SplitIn(g: Graph, a: nat, n: nat, near: set<nat>): Graph {
    g - FanIn(near, a) + {(n, a)} + FanIn(near, n)
  }

  lemma SplitInReach(g: Graph, a: nat, n: nat, near: set<nat>, vs: set<nat>)
    requires near <= Preds(g, a) && n !in vs && n != a
    requires forall x, y | (x, y) in g :: x != n && y != n
    ensures SameReach(vs, g, SplitIn(g, a, n, near))
  {
    var h := SplitIn(g, a, n, near);
    forall x: nat, y: nat | (x, y) in g ensures Reach(h, x, y) {
      if y == a && x in near {
        ReachEdge(h, x, n);
        ReachStep(h, x, n, a);
      } else {
        ReachEdge(h, x, y);
      }
    }
    var f := (x: nat) => if x == n then a else x;
    forall x: nat, y: nat | (x, y) in h ensures Reach(g, f(x), f(y)) {
      if x == n { ReachRefl(g, a); } else { ReachEdge(g, x, f(y)); }
    }
    forall u, v | u in vs && v in vs ensures Reach(g, u, v) <==> Reach(h, u, v) {
      if Reach(g, u, v) { ReachMap(g, h, (x: nat) => x, u, v); }
      if Reach(h, u, v) { ReachMap(h, g, f, u, v); }
    }
  }

  // ---------------------------------------------------------------------------
  // Pass c: an odd vertex is removed, its neighbours are joined.
  // ---------------------------------------------------------------------------

  function Bridge(g: Graph, a: nat): Graph {
    g + Product(Preds(g, a), Succs(g, a)) - Incident(g, a)
  }

  /** Removing a vertex and joining its neighbours does not change who reaches
      whom among the others. */
  lemma BridgeReach(g: Graph, a: nat, vs: set<nat>)
    requires a !in vs && (a, a) !in g
    ensures SameReach(vs, g, Bridge(g, a))
  {
    var h := Bridge(g, a);
    forall x: nat, y: nat | (x, y) in h ensures Reach(g, x, y) {
      if (x, y) in g {
        ReachEdge(g, x, y);
      } else {
        ReachEdge(g, x, a);
        ReachStep(g, x, a, y);
      }
    }
    forall u, v | u in vs && v in vs ensures Reach(g, u, v) <==> Reach(h, u, v) {
      if Reach(h, u, v) { ReachMap(h, g, (x: nat) => x, u, v); }
      if Reach(g, u, v) {
        var p :| IsPath(g, u, v, p);
        BridgePath(g, a, u, v, p);
      }
    }
  }

  /** Along a path, vertices other than `a` stay reachable, and `a` is entered
      from a reachable predecessor. */
  lemma {:induction false} BridgePath(g: Graph, a: nat, u: nat, v: nat, p: seq<nat>)
    requires IsPath(g, u, v, p) && u != a && (a, a) !in g
    ensures v != a ==> Reach(Bridge(g, a), u, v)
    ensures v == a ==> exists x :: x in Preds(g, a) && Reach(Bridge(g, a), u, x)
    decreases |p|
  {
    var h := Bridge(g, a);
    if |p| == 1 {
      ReachRefl(h, u);
    } else {
      var w := p[|p| - 2];
      PathInit(g, u, v, p);
      BridgePath(g, a, u, w, p[..|p| - 1]);
      if w == a {
        var x :| x in Preds(g, a) && Reach(h, u, x);
        ReachStep(h, u, x, v);
      } else if v == a {
        assert w in Preds(g, a);
      } else {
        ReachStep(h, u, w, v);
      }
    }
  }

  // ---------------------------------------------------------------------------
  // Levels.
  // ---------------------------------------------------------------------------

  ghost predicate Odd(level: map<nat, nat>, x: nat)
    requires x in level
  {
    level[x] % 2 == 1
  }

  /** The edges that leave `x` go one level up, unless `x` is even. */
  ghost predicate TightOut(level: map<nat, nat>, g: Graph, x: nat) {
    x in level && Odd(level, x) ==> forall y | y in Succs(g, x) :: y in level && level[y] == level[x] + 1
  }

  /** The edges that enter `x` come from one level below, unless `x` is even. */
  ghost predicate TightIn(level: map<nat, nat>, g: Graph, x: nat) {
    x in level && Odd(level, x) ==> forall y | y in Preds(g, x) :: y in level && level[y] + 1 == level[x]
  }

  ghost predicate Bounded(level: map<nat, nat>, m: nat) {
    forall x | x in level :: level[x] <= m
  }

  /** Pass a: levels still rise, nothing gets higher, and `a` becomes tight above. */
  lemma SplitOutLevels(level: map<nat, nat>, g: Graph, a: nat, n: nat, m: nat)
    requires Rising(level, g) && Bounded(level, m) && a in level && n !in level
    requires Odd(level, a) && Far(level, g, a) != {}
    ensures var level', h := level[n := level[a] + 1], SplitOut(g, a, n, Far(level, g, a));
      Rising(level', h) && Bounded(level', m)
  {
    var far := Far(level, g, a);
    var level', h := level[n := level[a] + 1], SplitOut(g, a, n, far);
    var y0 :| y0 in far;
    assert level[y0] <= m;
    forall x, y | (x, y) in h ensures x in level' && y in level' && level'[x] < level'[y] {
      if (x, y) !in g { assert x == n ==> y in far; }
    }
  }

  lemma SplitOutTight(level: map<nat, nat>, g: Graph, a: nat, n: nat)
    requires Rising(level, g) && a in level && n !in level && Odd(level, a)
    ensures TightOut(level[n := level[a] + 1], SplitOut(g, a, n, Far(level, g, a)), a)
  {
    var far := Far(level, g, a);
    var level', h := level[n := level[a] + 1], SplitOut(g, a, n, far);
    forall y | y in Succs(h, a) ensures y in level' && level'[y] == level'[a] + 1 {
      assert (a, y) in h;
      if y != n { assert (a, y) in g && y !in far; }
    }
  }

  lemma SplitOutKeepsOut(level: map<nat, nat>, g: Graph, a: nat, n: nat, x: nat)
    requires Rising(level, g) && a in level && n !in level && Odd(level, a)
    requires x != a && (x == n || TightOut(level, g, x))
    ensures TightOut(level[n := level[a] + 1], SplitOut(g, a, n, Far(level, g, a)), x)
  {
    var far := Far(level, g, a);
    var level', h := level[n := level[a] + 1], SplitOut(g, a, n, far);
    if x != n && x in level && Odd(level, x) {
      forall y | y in Succs(h, x) ensures y in level' && level'[y] == level'[x] + 1 {
        assert (x, y) in h;
        assert y in Succs(g, x);
      }
    }
  }

  /** Below an odd vertex there are only even ones, once all odd vertices are tight above. */
  lemma LowerNeighbour(level: map<nat, nat>, g: Graph, a: nat, y: nat)
    requires Rising(level, g) && a in level && Odd(level, a) && y in Preds(g, a)
    requires forall x | x in level :: TightOut(level, g, x)
    ensures level[y] % 2 == 0 && (y in Near(level, g, a) || level[y] + 1 == level[a])
  {
    assert TightOut(level, g, y);
    assert a in Succs(g, y);
  }

  /** Pass b: the same from below; `a` becomes tight below if all odd vertices are tight above. */
  lemma SplitInLevels(level: map<nat, nat>, g: Graph, a: nat, n: nat, m: nat)
    requires Rising(level, g) && Bounded(level, m) && a in level && n !in level
    requires Odd(level, a) && Near(level, g, a) != {}
    ensures var level', h := level[n := level[a] - 1], SplitIn(g, a, n, Near(level, g, a));
      Rising(level', h) && Bounded(level', m)
  {
    var near := Near(level, g, a);
    var level', h := level[n := level[a] - 1], SplitIn(g, a, n, near);
    var y0 :| y0 in near;
    assert level[y0] + 1 < level[a] <= m;
    forall x, y | (x, y) in h ensures x in level' && y in level' && level'[x] < level'[y] {
      if (x, y) !in g { assert y == n ==> x in near; }
    }
  }

  lemma SplitInTight(level: map<nat, nat>, g: Graph, a: nat, n: nat)
    requires Rising(level, g) && a in level && n !in level && Odd(level, a)
    requires forall x | x in level :: TightOut(level, g, x)
    ensures TightIn(level[n := level[a] - 1], SplitIn(g, a, n, Near(level, g, a)), a)
  {
    var near := Near(level, g, a);
    var level', h := level[n := level[a] - 1], SplitIn(g, a, n, near);
    forall y | y in Preds(h, a) ensures y in level' && level'[y] + 1 == level'[a] {
      assert (y, a) in h;
      if y != n { LowerNeighbour(level, g, a, y); }
    }
  }

  lemma SplitInKeepsIn(level: map<nat, nat>, g: Graph, a: nat, n: nat, x: nat)
    requires Rising(level, g) && a in level && n !in level && Odd(level, a)
    requires x != a && (x == n || TightIn(level, g, x))
    ensures TightIn(level[n := level[a] - 1], SplitIn(g, a, n, Near(level, g, a)), x)
  {
    var near := Near(level, g, a);
    var level', h := level[n := level[a] - 1], SplitIn(g, a, n, near);
    if x != n && x in level && Odd(level, x) {
      forall y | y in Preds(h, x) ensures y in level' && level'[y] + 1 == level'[x] {
        assert (y, x) in h;
        assert y in Preds(g, x);
      }
    }
  }

  lemma SplitInKeepsOut(level: map<nat, nat>, g: Graph, a: nat, n: nat)
    requires Rising(level, g) && a in level && n !in level && Odd(level, a)
    requires forall x | x in level :: TightOut(level, g, x)
    ensures var level', h := level[n := level[a] - 1], SplitIn(g, a, n, Near(level, g, a));
      forall x | x in level' :: TightOut(level', h, x)
  {
    var near := Near(level, g, a);
    var level', h := level[n := level[a] - 1], SplitIn(g, a, n, near);
    forall x | x in level' ensures TightOut(level', h, x) {
      if x != n && Odd(level', x) {
        assert TightOut(level, g, x);
        forall y | y in Succs(h, x) ensures y in level' && level'[y] == level'[x] + 1 {
          assert (x, y) in h;
          assert y in Succs(g, x);
        }
      }
    }
  }

  /** Pass c: bridging over an odd vertex joins even ones two levels apart. */
  lemma BridgeLevels(level: map<nat, nat>, g: Graph, a: nat)
    requires Rising(level, g) && a in level && Odd(level, a)
    requires forall x | x in level :: TightOut(level, g, x) && TightIn(level, g, x)
    ensures Rising(level, Bridge(g, a))
    ensures forall x | x in level && x != a :: TightOut(level, Bridge(g, a), x) && TightIn(level, Bridge(g, a), x)
    ensures forall x, y | (x, y) in Bridge(g, a) :: x != a && y != a
  {
    BridgeRises(level, g, a);
    forall x | x in level && x != a
      ensures TightOut(level, Bridge(g, a), x) && TightIn(level, Bridge(g, a), x)
    {
      if Odd(level, x) { BridgeTight(level, g, a, x); }
    }
  }

  lemma BridgeRises(level: map<nat, nat>, g: Graph, a: nat)
    requires Rising(level, g)
    ensures Rising(level, Bridge(g, a))
    ensures forall x, y | (x, y) in Bridge(g, a) :: x != a && y != a
  {
  }

  /** The neighbours of an odd vertex are even, so that no other odd one gets new edges. */
  lemma BridgeTight(level: map<nat, nat>, g: Graph, a: nat, x: nat)
    requires Rising(level, g) && a in level && Odd(level, a) && x in level && Odd(level, x) && x != a
    requires TightOut(level, g, a) && TightIn(level, g, a) && TightOut(level, g, x) && TightIn(level, g, x)
    ensures TightOut(level, Bridge(g, a), x) && TightIn(level, Bridge(g, a), x)
  {
    var h := Bridge(g, a);
    assert x !in Preds(g, a) && x !in Succs(g, a);
    assert Succs(h, x) <= Succs(g, x) && Preds(h, x) <= Preds(g, x);
  }
}
