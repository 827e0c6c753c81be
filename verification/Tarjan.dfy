// Tarjan's strongly connected components (TFLabel::dfs and TFLabel::find_scc).
module Tarjan {
  import opened Paths

  // ---------------------------------------------------------------------------
  // What the search keeps true, on snapshots of the arrays.  A vertex is white
  // (pre == 0), grey (its call is still open) or black.
  // ---------------------------------------------------------------------------

  /** Numbering and stack agree: the stack lists, in the order of their numbers,
      the vertices that are numbered but not yet in a component. */
  ghost predicate Shape(pre: seq<nat>, scc: seq<nat>, stack: seq<nat>, clock: nat, cnt: nat) {
    && |pre| == |scc|
    && (forall x | 0 <= x < |pre| :: pre[x] <= clock && scc[x] <= cnt && (scc[x] != 0 ==> pre[x] != 0))
    && (forall x | x in stack :: x < |pre| && pre[x] != 0 && scc[x] == 0)
    && (forall x | 0 <= x < |pre| :: pre[x] != 0 && scc[x] == 0 ==> x in stack)
    && (forall i, j | 0 <= i < j < |stack| ::
          stack[i] in stack && stack[j] in stack && pre[stack[i]] < pre[stack[j]])
  }

  /** Grey vertices are on the stack, and no edge goes from black to white. */
  ghost predicate Colours(adj: seq<seq<nat>>, pre: seq<nat>, stack: seq<nat>, grey: set<nat>)
    requires |adj| == |pre| && Closed(adj)
  {
    && (forall x | x in grey :: x in stack)
    && (forall x, j | 0 <= x < |adj| && 0 <= j < |adj[x]| && x !in grey && pre[x] != 0 :: pre[adj[x][j]] != 0)
  }

  /** Going up the stack is reachability, and every stacked vertex reaches a grey
      one that is no younger. */
  ghost predicate Linked(g: Graph, pre: seq<nat>, stack: seq<nat>, grey: set<nat>)
    requires forall x | x in stack :: x < |pre|
  {
    && (forall x, y | x in stack && y in stack && pre[x] <= pre[y] :: Reach(g, x, y))
    && (forall y {:trigger HasGrey(g, pre, stack, grey, y)} | y in stack :: HasGrey(g, pre, stack, grey, y))
  }

  ghost predicate HasGrey(g: Graph, pre: seq<nat>, stack: seq<nat>, grey: set<nat>, y: nat)
    requires forall x | x in stack :: x < |pre|
    requires y in stack
  {
    exists x :: x in grey && x in stack && pre[x] <= pre[y] && Reach(g, y, x)
  }

  /** Finished components: numbers do not grow along edges, all of 1..cnt are
      used, and two vertices share a number exactly if they reach each other. */
  ghost predicate Finished(g: Graph, scc: seq<nat>, cnt: nat) {
    && (forall x: nat, y: nat | (x, y) in g && x < |scc| && scc[x] != 0 ::
          y < |scc| && 0 < scc[y] <= scc[x])
    && (forall x: nat, y: nat | x < |scc| && y < |scc| && scc[x] != 0 && scc[y] != 0 ::
          scc[x] == scc[y] <==> Mutual(g, x, y))
    && (forall c | 1 <= c <= cnt :: Used(scc, c))
  }

  ghost predicate Used(scc: seq<nat>, c: nat) {
    exists x :: 0 <= x < |scc| && scc[x] == c
  }

  ghost predicate Inv(adj: seq<seq<nat>>, pre: seq<nat>, scc: seq<nat>, stack: seq<nat>,
                      clock: nat, cnt: nat, grey: set<nat>)
  {
    && Closed(adj) && |pre| == |adj|
    && Shape(pre, scc, stack, clock, cnt)
    && Colours(adj, pre, stack, grey)
    && Linked(Edges(adj), pre, stack, grey)
    && Finished(Edges(adj), scc, cnt)
  }

  /** What a call only adds to. */
  ghost predicate Extends(pre0: seq<nat>, scc0: seq<nat>, stack0: seq<nat>,
                          pre: seq<nat>, scc: seq<nat>, stack: seq<nat>)
  {
    && |pre0| == |pre| == |scc0| == |scc|
    && stack0 <= stack
    && (forall x | 0 <= x < |pre| && pre0[x] != 0 :: pre[x] == pre0[x])
    && (forall x | 0 <= x < |pre| && scc0[x] != 0 :: scc[x] == scc0[x])
  }

  /** The entries of `low` of numbered vertices are as they were. */
  ghost predicate Kept(pre: seq<nat>, low: seq<nat>, low': seq<nat>) {
    && |pre| == |low| == |low'|
    && forall x | 0 <= x < |pre| && pre[x] != 0 :: low'[x] == low[x]
  }

  /** The low-link of `u` is the number of a stacked vertex that `u` reaches. */
  ghost predicate Witnessed(g: Graph, pre: seq<nat>, stack: seq<nat>, u: nat, low: nat) {
    exists y :: y in stack && y < |pre| && pre[y] == low && Reach(g, u, y)
  }

  /** Edges from `top` into `base` go to numbers of at least `low`. */
  ghost predicate Crossing(g: Graph, pre: seq<nat>, top: seq<nat>, base: seq<nat>, low: nat)
    requires forall y | y in base :: y < |pre|
  {
    forall x, y | x in top && y in base && (x, y) in g :: low <= pre[y]
  }

  /** The first `i` edges of `u` have been looked at. */
  ghost predicate Looked(adj: seq<seq<nat>>, pre: seq<nat>, base: seq<nat>, u: nat, i: nat, low: nat)
    requires Closed(adj) && |pre| == |adj| && u < |adj| && i <= |adj[u]|
  {
    forall j | 0 <= j < i :: pre[adj[u][j]] != 0 && (adj[u][j] in base ==> low <= pre[adj[u][j]])
  }

  /** The numbering after the vertices of `top` have been given component `c`. */
  ghost predicate Assigned(scc: seq<nat>, scc': seq<nat>, top: seq<nat>, c: nat) {
    && |scc'| == |scc|
    && forall x | 0 <= x < |scc| :: scc'[x] == if x in top then c else scc[x]
  }

  ghost function White(pre: seq<nat>): set<nat> {
    set x: nat | x < |pre| && pre[x] == 0
  }

  // ---------------------------------------------------------------------------
  // Opening and closing a vertex keep the invariant.
  // ---------------------------------------------------------------------------

  /** Opening `u`: number it, push it, paint it grey. */
  lemma Opened(adj: seq<seq<nat>>, pre: seq<nat>, scc: seq<nat>, stack: seq<nat>,
               clock: nat, cnt: nat, grey: set<nat>, u: nat)
    requires Inv(adj, pre, scc, stack, clock, cnt, grey)
    requires u < |adj| && pre[u] == 0
    requires forall x | x in grey :: Reach(Edges(adj), x, u)
    ensures Inv(adj, pre[u := clock + 1], scc, stack + [u], clock + 1, cnt, grey + {u})
  {
    var pre', stack' := pre[u := clock + 1], stack + [u];
    assert u !in stack;
    assert forall x :: x in stack' <==> x in stack || x == u;
    OpenedLinked(Edges(adj), pre, stack, clock, grey, u);
    assert Shape(pre', scc, stack', clock + 1, cnt);
    assert Colours(adj, pre', stack', grey + {u});
  }

  lemma OpenedLinked(g: Graph, pre: seq<nat>, stack: seq<nat>, clock: nat, grey: set<nat>, u: nat)
    requires forall x | x in stack :: x < |pre| && x != u && pre[x] <= clock
    requires Linked(g, pre, stack, grey)
    requires u < |pre| && forall x | x in grey :: Reach(g, x, u)
    requires forall x :: x in stack + [u] <==> x in stack || x == u
    ensures Linked(g, pre[u := clock + 1], stack + [u], grey + {u})
  {
    var pre', stack', grey' := pre[u := clock + 1], stack + [u], grey + {u};
    ReachRefl(g, u);
    forall x, y | x in stack' && y in stack' && pre'[x] <= pre'[y] ensures Reach(g, x, y) {
      if x != u && y == u {
        assert HasGrey(g, pre, stack, grey, x);
        var z :| z in grey && z in stack && pre[z] <= pre[x] && Reach(g, x, z);
        ReachTrans(g, x, z, u);
      }
    }
    forall y | y in stack' ensures HasGrey(g, pre', stack', grey', y) {
      if y != u {
        assert HasGrey(g, pre, stack, grey, y);
        var z :| z in grey && z in stack && pre[z] <= pre[y] && Reach(g, y, z);
        assert z in grey' && z in stack' && pre'[z] <= pre'[y];
      }
    }
  }

  /** Closing `u` while it reaches below itself: it only turns black. */
  lemma ClosedLower(adj: seq<seq<nat>>, pre: seq<nat>, scc: seq<nat>, stack: seq<nat>,
                    clock: nat, cnt: nat, grey: set<nat>, u: nat, low: nat)
    requires Inv(adj, pre, scc, stack, clock, cnt, grey + {u})
    requires u < |adj| && Looked(adj, pre, [], u, |adj[u]|, low)
    requires low < pre[u] && Witnessed(Edges(adj), pre, stack, u, low)
    ensures Inv(adj, pre, scc, stack, clock, cnt, grey)
  {
    LowerLinked(Edges(adj), pre, stack, grey, u, low);
    assert Colours(adj, pre, stack, grey);
  }

  lemma LowerLinked(g: Graph, pre: seq<nat>, stack: seq<nat>, grey: set<nat>, u: nat, low: nat)
    requires forall x | x in stack :: x < |pre|
    requires Linked(g, pre, stack, grey + {u})
    requires u < |pre| && low < pre[u] && Witnessed(g, pre, stack, u, low)
    ensures Linked(g, pre, stack, grey)
  {
    forall y | y in stack ensures HasGrey(g, pre, stack, grey, y) {
      assert HasGrey(g, pre, stack, grey + {u}, y);
      var x :| x in grey + {u} && x in stack && pre[x] <= pre[y] && Reach(g, y, x);
      if x == u {
        var w :| w in stack && w < |pre| && pre[w] == low && Reach(g, u, w);
        assert HasGrey(g, pre, stack, grey + {u}, w);
        var b :| b in grey + {u} && b in stack && pre[b] <= pre[w] && Reach(g, w, b);
        ReachTrans(g, y, u, w);
        ReachTrans(g, y, w, b);
        assert b in grey;
      } else {
        assert x in grey;
      }
    }
  }

  lemma StackSplit(pre: seq<nat>, scc: seq<nat>, base: seq<nat>, top: seq<nat>, clock: nat, cnt: nat)
    requires Shape(pre, scc, base + top, clock, cnt)
    ensures Split(pre, base, top)
  {
    var stack := base + top;
    forall x, y | x in base && y in top
      ensures x in stack && y in stack && pre[x] < pre[y]
    {
      var i :| 0 <= i < |base| && base[i] == x;
      var j :| 0 <= j < |top| && top[j] == y;
      assert stack[i] == x && stack[|base| + j] == y;
    }
    forall y | 0 < |top| && y in top
      ensures top[0] in stack && y in stack && pre[top[0]] <= pre[y]
    {
      var j :| 0 <= j < |top| && top[j] == y;
      assert stack[|base|] == top[0] && stack[|base| + j] == y;
    }
  }

  /** The part of the stack below `top` is older, and its first vertex is its oldest. */
  ghost predicate Split(pre: seq<nat>, base: seq<nat>, top: seq<nat>) {
    && (forall x | x in base + top :: x < |pre|)
    && (forall x :: x in base + top <==> x in base || x in top)
    && (forall x, y | x in base && y in top :: pre[x] < pre[y])
    && (0 < |top| ==> top[0] in top && forall y | y in top :: pre[top[0]] <= pre[y])
  }

  /** The situation in which the root `u` of a component is closed: `top` is the
      part of the stack from `u` upwards. */
  ghost predicate AtRoot(adj: seq<seq<nat>>, pre: seq<nat>, scc: seq<nat>, base: seq<nat>, top: seq<nat>,
                         clock: nat, cnt: nat, grey: set<nat>, u: nat)
  {
    && Inv(adj, pre, scc, base + top, clock, cnt, grey + {u})
    && Split(pre, base, top)
    && u < |adj| && u !in grey && 0 < |top| && top[0] == u
    && (forall v | v in grey :: v in base)
    && Looked(adj, pre, base, u, |adj[u]|, pre[u])
    && Crossing(Edges(adj), pre, top[1..], base, pre[u])
  }

  /** At a root no edge leaves the top of the stack except into finished components. */
  lemma TopClosed(adj: seq<seq<nat>>, pre: seq<nat>, scc: seq<nat>, base: seq<nat>, top: seq<nat>,
                  clock: nat, cnt: nat, grey: set<nat>, u: nat, x: nat, y: nat)
    requires Closed(adj) && |pre| == |adj|
    requires Shape(pre, scc, base + top, clock, cnt) && Split(pre, base, top)
    requires Colours(adj, pre, base + top, grey + {u})
    requires u < |adj| && 0 < |top| && top[0] == u
    requires forall v | v in grey :: v in base
    requires Looked(adj, pre, base, u, |adj[u]|, pre[u])
    requires Crossing(Edges(adj), pre, top[1..], base, pre[u])
    requires (x, y) in Edges(adj) && x in top
    ensures y < |adj| && (y in top || scc[y] != 0)
  {
    var k :| 0 <= k < |adj[x]| && adj[x][k] == y;
    assert x in base + top;
    if x != u {
      var i :| 0 <= i < |top| && top[i] == x;
      assert x == top[1..][i - 1];
      assert x !in grey + {u};
    }
    assert pre[y] != 0;
  }

  /** At a root the whole top of the stack is mutually reachable with the root. */
  lemma TopMutual(g: Graph, pre: seq<nat>, base: seq<nat>, top: seq<nat>, grey: set<nat>, u: nat, y: nat)
    requires Split(pre, base, top) && Linked(g, pre, base + top, grey + {u})
    requires 0 < |top| && top[0] == u
    requires forall v | v in grey :: v in base
    requires y in top
    ensures Mutual(g, u, y)
  {
    var stack := base + top;
    assert u in stack && y in stack;
    assert HasGrey(g, pre, stack, grey + {u}, y);
    var x :| x in grey + {u} && x in stack && pre[x] <= pre[y] && Reach(g, y, x);
    if x != u {
      assert Reach(g, x, u);
      ReachTrans(g, y, x, u);
    }
  }

  /** Closing the root of a component: the top of the stack becomes a component. */
  lemma Popped(adj: seq<seq<nat>>, pre: seq<nat>, scc: seq<nat>, scc': seq<nat>, base: seq<nat>, top: seq<nat>,
               clock: nat, cnt: nat, grey: set<nat>, u: nat)
    requires AtRoot(adj, pre, scc, base, top, clock, cnt, grey, u)
    requires Assigned(scc, scc', top, cnt + 1)
    ensures Inv(adj, pre, scc', base, clock, cnt + 1, grey)
  {
    PoppedShape(pre, scc, scc', base, top, clock, cnt);
    PoppedLinked(adj, pre, scc, base, top, clock, cnt, grey, u);
    PoppedFinished(adj, pre, scc, scc', base, top, clock, cnt, grey, u);
  }

  lemma PoppedShape(pre: seq<nat>, scc: seq<nat>, scc': seq<nat>, base: seq<nat>, top: seq<nat>, clock: nat, cnt: nat)
    requires Shape(pre, scc, base + top, clock, cnt)
    requires Assigned(scc, scc', top, cnt + 1)
    ensures Shape(pre, scc', base, clock, cnt + 1)
  {
    StackSplit(pre, scc, base, top, clock, cnt);
    assert forall i | 0 <= i < |base| :: (base + top)[i] == base[i];
  }

  lemma PoppedLinked(adj: seq<seq<nat>>, pre: seq<nat>, scc: seq<nat>, base: seq<nat>, top: seq<nat>,
                     clock: nat, cnt: nat, grey: set<nat>, u: nat)
    requires AtRoot(adj, pre, scc, base, top, clock, cnt, grey, u)
    ensures Linked(Edges(adj), pre, base, grey)
  {
    var g, stack := Edges(adj), base + top;
    forall y | y in base ensures HasGrey(g, pre, base, grey, y) {
      assert HasGrey(g, pre, stack, grey + {u}, y);
      var x :| x in grey + {u} && x in stack && pre[x] <= pre[y] && Reach(g, y, x);
      assert pre[y] < pre[u];
      assert x in grey && x in base;
    }
    forall x, y | x in base && y in base && pre[x] <= pre[y] ensures Reach(g, x, y) {
      assert x in stack && y in stack;
    }
  }

  lemma PoppedFinished(adj: seq<seq<nat>>, pre: seq<nat>, scc: seq<nat>, scc': seq<nat>, base: seq<nat>, top: seq<nat>,
                       clock: nat, cnt: nat, grey: set<nat>, u: nat)
    requires AtRoot(adj, pre, scc, base, top, clock, cnt, grey, u)
    requires Assigned(scc, scc', top, cnt + 1)
    ensures Finished(Edges(adj), scc', cnt + 1)
  {
    var g := Edges(adj);
    forall x: nat, y: nat | (x, y) in g && x < |scc'| && scc'[x] != 0
      ensures y < |scc'| && 0 < scc'[y] <= scc'[x]
    {
      if x in top { TopClosed(adj, pre, scc, base, top, clock, cnt, grey, u, x, y); }
    }
    forall x: nat, y: nat | x < |scc'| && y < |scc'| && scc'[x] != 0 && scc'[y] != 0
      ensures scc'[x] == scc'[y] <==> Mutual(g, x, y)
    {
      if x in top && y in top {
        TopMutual(g, pre, base, top, grey, u, x);
        TopMutual(g, pre, base, top, grey, u, y);
        ReachTrans(g, x, u, y);
        ReachTrans(g, y, u, x);
      } else if x in top || y in top {
        var (a, b) := if x in top then (x, y) else (y, x);
        if Reach(g, b, a) { FinishedStays(g, scc, cnt, b, a); }
      }
    }
    forall c | 1 <= c <= cnt + 1 ensures Used(scc', c) {
      if c <= cnt {
        assert Used(scc, c);
        var x :| 0 <= x < |scc| && scc[x] == c;
        assert scc'[x] == c;
      } else {
        assert u in top && scc'[u] == c;
      }
    }
  }

  /** From a finished component only finished components are reached. */
  lemma FinishedStays(g: Graph, scc: seq<nat>, cnt: nat, x: nat, y: nat)
    requires Finished(g, scc, cnt) && Reach(g, x, y)
    requires x < |scc| && scc[x] != 0
    ensures y < |scc| && scc[y] != 0
  {
    ReachStays(g, x, y, set z: nat | z < |scc| && scc[z] != 0);
  }

  // ---------------------------------------------------------------------------
  // The result.
  // ---------------------------------------------------------------------------

  /** `scc` numbers the strongly connected components of `g` by 1..cnt, and the
      numbers never grow along an edge. */
  ghost predicate Components(g: Graph, scc: seq<nat>, cnt: nat) {
    && (forall x: nat | x < |scc| :: 1 <= scc[x] <= cnt)
    && (forall c | 1 <= c <= cnt :: Used(scc, c))
    && (forall x: nat, y: nat | x < |scc| && y < |scc| :: scc[x] == scc[y] <==> Mutual(g, x, y))
    && (forall x: nat, y: nat | (x, y) in g && x < |scc| :: y < |scc| && scc[y] <= scc[x])
  }

  lemma NothingYet(adj: seq<seq<nat>>, pre: seq<nat>, scc: seq<nat>)
    requires Closed(adj) && |adj| == |pre| == |scc|
    requires forall x | 0 <= x < |pre| :: pre[x] == 0 && scc[x] == 0
    ensures Inv(adj, pre, scc, [], 0, 0, {})
  {
  }

  lemma NoGreyNoStack(g: Graph, pre: seq<nat>, stack: seq<nat>)
    requires forall x | x in stack :: x < |pre|
    requires Linked(g, pre, stack, {})
    ensures stack == []
  {
    assert stack != [] ==> stack[0] in stack && HasGrey(g, pre, stack, {}, stack[0]);
  }

  lemma AllFinished(g: Graph, pre: seq<nat>, scc: seq<nat>, stack: seq<nat>, clock: nat, cnt: nat)
    requires Shape(pre, scc, stack, clock, cnt) && Finished(g, scc, cnt)
    requires stack == [] && forall x | 0 <= x < |pre| :: pre[x] != 0
    ensures Components(g, scc, cnt)
  {
    assert forall x: nat | x < |scc| :: pre[x] != 0 && scc[x] != 0;
  }

  /** The vertices below `n` have been visited. */
  ghost predicate AllVisited(pre: seq<nat>, n: nat) {
    n <= |pre| && forall x {:trigger pre[x]} | 0 <= x < n :: pre[x] != 0
  }

  lemma SearchDone(adj: seq<seq<nat>>, pre: seq<nat>, scc: seq<nat>, clock: nat, cnt: nat)
    requires Closed(adj) && |adj| == |pre| == |scc|
    requires Inv(adj, pre, scc, [], clock, cnt, {}) && AllVisited(pre, |pre|)
    ensures Components(Edges(adj), scc, cnt)
  {
    AllFinished(Edges(adj), pre, scc, [], clock, cnt);
  }

  // ---------------------------------------------------------------------------
  // The search itself.
  // ---------------------------------------------------------------------------

  function Min(a: nat, b: nat): (m: nat)
    ensures m <= a && m <= b && (m == a || m == b)
  {
    if a < b then a else b
  }

  /** What is known of `u`, with low-link `low`, after its first `i` edges; `base`
      is the stack below `u`. */
  ghost predicate Scanned(adj: seq<seq<nat>>, pre: seq<nat>, stack: seq<nat>, base: seq<nat>, u: nat, i: nat, low: nat)
    requires Closed(adj) && |pre| == |adj| && u < |adj| && i <= |adj[u]|
    requires forall x | x in stack :: x < |pre|
  {
    && base + [u] <= stack
    && (forall y | y in base :: y in stack)
    && low <= pre[u]
    && Witnessed(Edges(adj), pre, stack, u, low)
    && Crossing(Edges(adj), pre, stack[|base| + 1..], base, low)
    && Looked(adj, pre, base, u, i, low)
  }

  lemma ScannedStart(adj: seq<seq<nat>>, pre: seq<nat>, base: seq<nat>, u: nat, low: nat)
    requires Closed(adj) && |pre| == |adj| && u < |adj| && pre[u] == low
    requires forall x | x in base + [u] :: x < |pre|
    ensures Scanned(adj, pre, base + [u], base, u, 0, low)
  {
    ReachRefl(Edges(adj), u);
    assert u in base + [u];
  }

  /** Looking at an edge to a numbered vertex. */
  lemma ScannedKnown(adj: seq<seq<nat>>, pre: seq<nat>, stack: seq<nat>, base: seq<nat>, u: nat, i: nat, low: nat, low': nat)
    requires Closed(adj) && |pre| == |adj| && u < |adj| && i < |adj[u]|
    requires forall x | x in stack :: x < |pre|
    requires Scanned(adj, pre, stack, base, u, i, low)
    requires pre[adj[u][i]] != 0
    requires if adj[u][i] in stack then low' == Min(low, pre[adj[u][i]]) else low' == low
    ensures Scanned(adj, pre, stack, base, u, i + 1, low')
  {
    var v := adj[u][i];
    assert (u, v) in Edges(adj);
    ReachEdge(Edges(adj), u, v);
  }

  /** Coming back from the call for a white neighbour. */
  lemma ScannedChild(adj: seq<seq<nat>>, pre: seq<nat>, scc: seq<nat>, stack: seq<nat>, base: seq<nat>, u: nat, i: nat, low: nat,
                     pre': seq<nat>, scc': seq<nat>, stack': seq<nat>, lowChild: nat)
    requires Closed(adj) && |pre| == |adj| && u < |adj| && i < |adj[u]|
    requires forall x | x in stack :: x < |pre| && pre[x] != 0
    requires forall x | x in stack' :: x < |pre'|
    requires Scanned(adj, pre, stack, base, u, i, low)
    requires Extends(pre, scc, stack, pre', scc', stack')
    requires pre[u] != 0 && pre[adj[u][i]] == 0 && pre'[adj[u][i]] > pre[u]
    requires lowChild == pre'[adj[u][i]] || Witnessed(Edges(adj), pre', stack', adj[u][i], lowChild)
    requires forall y | y in stack :: y < |pre'|
    requires Crossing(Edges(adj), pre', stack'[|stack|..], stack, lowChild)
    ensures Scanned(adj, pre', stack', base, u, i + 1, Min(low, lowChild))
  {
    var g, v, low' := Edges(adj), adj[u][i], Min(low, lowChild);
    assert (u, v) in g;
    ReachEdge(g, u, v);
    assert forall y | y in stack :: y in stack';
    assert Witnessed(g, pre', stack', u, low') by {
      if low' == low {
        var y :| y in stack && y < |pre| && pre[y] == low && Reach(g, u, y);
        assert y in stack';
      } else {
        var y :| y in stack' && y < |pre'| && pre'[y] == lowChild && Reach(g, v, y);
        ReachTrans(g, u, v, y);
      }
    }
    forall x, y | x in stack'[|base| + 1..] && y in base && (x, y) in g ensures low' <= pre'[y] {
      var k :| |base| + 1 <= k < |stack'| && stack'[k] == x;
      if k < |stack| {
        assert stack[|base| + 1..][k - |base| - 1] == x;
      } else {
        assert stack'[|stack|..][k - |stack|] == x;
      }
    }
  }

  /** After all edges of `u`, a low-link equal to its number makes it a root. */
  lemma RootReady(adj: seq<seq<nat>>, pre: seq<nat>, scc: seq<nat>, stack: seq<nat>, base: seq<nat>,
                  clock: nat, cnt: nat, grey: set<nat>, u: nat)
    requires Inv(adj, pre, scc, stack, clock, cnt, grey + {u})
    requires u < |adj| && u !in base && Scanned(adj, pre, stack, base, u, |adj[u]|, pre[u])
    requires forall v | v in grey :: v in base
    ensures AtRoot(adj, pre, scc, base, stack[|base|..], clock, cnt, grey, u)
    ensures stack == base + stack[|base|..]
    ensures forall x | x in stack[|base|..] :: x < |scc| && scc[x] == 0
  {
    var top := stack[|base|..];
    assert stack == base + top;
    StackSplit(pre, scc, base, top, clock, cnt);
    assert top[1..] == stack[|base| + 1..];
    assert stack[|base|] == u;
  }

  lemma KeptTrans(pre: seq<nat>, pre': seq<nat>, low: seq<nat>, low': seq<nat>, low'': seq<nat>)
    requires Kept(pre, low, low') && Kept(pre', low', low'')
    requires forall x | 0 <= x < |pre| && pre[x] != 0 :: pre'[x] != 0
    ensures Kept(pre, low, low'')
  {
  }

  lemma KeptUpdate(pre: seq<nat>, low: seq<nat>, low': seq<nat>, u: nat, m: nat, low'': seq<nat>)
    requires Kept(pre, low, low') && u < |pre| && pre[u] == 0 && low'' == low'[u := m]
    ensures Kept(pre, low, low'')
  {
  }

  lemma ExtendsTrans(p0: seq<nat>, c0: seq<nat>, s0: seq<nat>, p1: seq<nat>, c1: seq<nat>, s1: seq<nat>,
                     p2: seq<nat>, c2: seq<nat>, s2: seq<nat>)
    requires Extends(p0, c0, s0, p1, c1, s1) && Extends(p1, c1, s1, p2, c2, s2)
    ensures Extends(p0, c0, s0, p2, c2, s2)
  {
  }

  lemma PoppedExtends(pre0: seq<nat>, scc0: seq<nat>, base: seq<nat>, pre: seq<nat>, scc: seq<nat>, top: seq<nat>,
                      scc': seq<nat>, c: nat)
    requires Extends(pre0, scc0, base, pre, scc, base + top)
    requires Assigned(scc, scc', top, c)
    requires forall x | x in top :: x < |scc| && scc[x] == 0
    ensures Extends(pre0, scc0, base, pre, scc', base)
  {
  }

  lemma CrossingFull(adj: seq<seq<nat>>, pre: seq<nat>, stack: seq<nat>, base: seq<nat>, u: nat, low: nat)
    requires Closed(adj) && |pre| == |adj| && u < |adj|
    requires forall x | x in stack :: x < |pre|
    requires Scanned(adj, pre, stack, base, u, |adj[u]|, low)
    ensures Crossing(Edges(adj), pre, stack[|base|..], base, low)
  {
    assert stack[|base|..] == [u] + stack[|base| + 1..];
  }

  lemma OnlyOnce(pre: seq<nat>, scc: seq<nat>, stack: seq<nat>, clock: nat, cnt: nat, k: nat)
    requires Shape(pre, scc, stack, clock, cnt) && k < |stack|
    ensures forall i | k < i < |stack| :: stack[i] != stack[k]
  {
  }

  /** All that closing a root establishes. */
  lemma RootClosed(adj: seq<seq<nat>>, pre0: seq<nat>, scc0: seq<nat>, base: seq<nat>,
                   pre: seq<nat>, scc: seq<nat>, stack: seq<nat>, scc': seq<nat>,
                   clock: nat, cnt: nat, grey: set<nat>, u: nat)
    requires Inv(adj, pre, scc, stack, clock, cnt, grey + {u})
    requires u < |adj| && u !in base && (forall v | v in grey :: v in base)
    requires Scanned(adj, pre, stack, base, u, |adj[u]|, pre[u])
    requires Extends(pre0, scc0, base, pre, scc, stack)
    requires Assigned(scc, scc', stack[|base|..], cnt + 1)
    ensures Inv(adj, pre, scc', base, clock, cnt + 1, grey)
    ensures Extends(pre0, scc0, base, pre, scc', base)
  {
    RootReady(adj, pre, scc, stack, base, clock, cnt, grey, u);
    var top := stack[|base|..];
    Popped(adj, pre, scc, scc', base, top, clock, cnt, grey, u);
    PoppedExtends(pre0, scc0, base, pre, scc, top, scc', cnt + 1);
  }

  lemma WhiteShrinks(pre: seq<nat>, pre': seq<nat>, u: nat)
    requires |pre| == |pre'| && u < |pre| && pre[u] == 0 && pre'[u] != 0
    requires forall x | 0 <= x < |pre| && pre[x] != 0 :: pre'[x] != 0
    ensures White(pre') < White(pre)
  {
    assert u in White(pre) && u !in White(pre');
  }

  class SccFinder {
    const adj: seq<seq<nat>>
    const pre: array<nat>
    const lowlink: array<nat>
    const sccno: array<nat>
    var stack: seq<nat>
    var dfsClock: nat
    var sccCnt: nat

    ghost predicate Valid()
      reads this
    {
      && Closed(adj)
      && pre.Length == lowlink.Length == sccno.Length == |adj|
      && pre != lowlink && pre != sccno && lowlink != sccno
    }

    ghost predicate Searching(grey: set<nat>)
      reads this, pre, sccno
    {
      Inv(adj, pre[..], sccno[..], stack, dfsClock, sccCnt, grey)
    }

    constructor (adj: seq<seq<nat>>)
      requires Closed(adj)
      ensures Valid() && this.adj == adj && fresh(pre) && fresh(lowlink) && fresh(sccno)
      ensures stack == [] && forall x | 0 <= x < |adj| :: pre[x] == 0
    {
      this.adj := adj;
      pre := new nat[|adj|](_ => 0);
      lowlink := new nat[|adj|](_ => 0);
      sccno := new nat[|adj|](_ => 0);
      stack, dfsClock, sccCnt := [], 0, 0;
    }

    /** The loop that pops a finished component, from the top down to its root `u`. */
    method PopComponent(u: nat, ghost base: seq<nat>)
      requires Valid() && base + [u] <= stack
      requires forall x | x in stack :: x < |adj|
      requires forall i | |base| < i < |stack| :: stack[i] != u
      modifies this`stack, this`sccCnt, sccno
      ensures stack == base && sccCnt == old(sccCnt) + 1
      ensures Assigned(old(sccno[..]), sccno[..], old(stack)[|base|..], sccCnt)
    {
      ghost var full := stack;
      sccCnt := sccCnt + 1;
      while true
        invariant sccCnt == old(sccCnt) + 1
        invariant |base| < |stack| <= |full| && stack == full[..|stack|]
        invariant Assigned(old(sccno[..]), sccno[..], full[|stack|..], sccCnt)
        decreases |stack|
      {
        var x := stack[|stack| - 1];
        assert x == full[|stack| - 1] && x in full;
        assert full[|stack| - 1..] == [x] + full[|stack|..];
        stack := stack[..|stack| - 1];
        sccno[x] := sccCnt;
        if x == u {
          assert stack == base;
          break;
        }
      }
    }

    /** Closing the root of a component. */
    method CloseRoot(u: nat, ghost p0: seq<nat>, ghost c0: seq<nat>, ghost base: seq<nat>, ghost grey: set<nat>)
      requires Valid() && Searching(grey + {u})
      requires u < |adj| && u !in base && (forall v | v in grey :: v in base)
      requires Scanned(adj, pre[..], stack, base, u, |adj[u]|, pre[u])
      requires Extends(p0, c0, base, pre[..], sccno[..], stack)
      modifies this`stack, this`sccCnt, sccno
      ensures Searching(grey) && Extends(p0, c0, base, pre[..], sccno[..], stack) && stack == base
    {
      ghost var c, s := sccno[..], stack;
      OnlyOnce(pre[..], c, s, dfsClock, sccCnt, |base|);
      PopComponent(u, base);
      RootClosed(adj, p0, c0, base, pre[..], c, s, sccno[..], dfsClock, sccCnt - 1, grey, u);
    }

    /** The end of the call for `u`: pop its component if `u` is the root of one. */
    method CloseVertex(u: nat, ghost p0: seq<nat>, ghost c0: seq<nat>, ghost base: seq<nat>, ghost grey: set<nat>)
      requires Valid() && Searching(grey + {u})
      requires u < |adj| && u !in base && (forall v | v in grey :: v in base)
      requires Scanned(adj, pre[..], stack, base, u, |adj[u]|, lowlink[u])
      requires Extends(p0, c0, base, pre[..], sccno[..], stack)
      modifies this`stack, this`sccCnt, sccno
      ensures Searching(grey) && Extends(p0, c0, base, pre[..], sccno[..], stack)
      ensures if lowlink[u] == pre[u] then stack == base
              else lowlink[u] < pre[u] && Witnessed(Edges(adj), pre[..], stack, u, lowlink[u])
      ensures forall y | y in base :: y < |adj|
      ensures Crossing(Edges(adj), pre[..], stack[|base|..], base, lowlink[u])
    {
      if lowlink[u] == pre[u] {
        CloseRoot(u, p0, c0, base, grey);
      } else {
        CrossingFull(adj, pre[..], stack, base, u, lowlink[u]);
        ClosedLower(adj, pre[..], sccno[..], stack, dfsClock, sccCnt, grey, u, lowlink[u]);
      }
    }

    /** The start of the call for `u`: number it and push it. */
    method OpenVertex(u: nat, ghost grey: set<nat>)
      requires Valid() && Searching(grey)
      requires u < |adj| && pre[u] == 0
      requires forall x | x in grey :: Reach(Edges(adj), x, u)
      modifies this`stack, this`dfsClock, pre, lowlink
      ensures Searching(grey + {u})
      ensures dfsClock == old(dfsClock) + 1 && stack == old(stack) + [u]
      ensures pre[..] == old(pre[..])[u := dfsClock]
      ensures lowlink[..] == old(lowlink[..])[u := dfsClock]
    {
      ghost var p0 := pre[..];
      dfsClock := dfsClock + 1;
      lowlink[u] := dfsClock;
      pre[u] := dfsClock;
      stack := stack + [u];
      assert pre[..] == p0[u := dfsClock];
      Opened(adj, p0, sccno[..], old(stack), dfsClock - 1, sccCnt, grey, u);
    }

    method Dfs(u: nat, ghost grey: set<nat>)
      requires Valid() && Searching(grey)
      requires u < |adj| && pre[u] == 0
      requires forall x | x in grey :: Reach(Edges(adj), x, u)
      modifies this`stack, this`dfsClock, this`sccCnt, pre, lowlink, sccno
      ensures Searching(grey)
      ensures Extends(old(pre[..]), old(sccno[..]), old(stack), pre[..], sccno[..], stack)
      ensures pre[u] == old(dfsClock) + 1
      ensures if lowlink[u] == pre[u] then stack == old(stack)
              else lowlink[u] < pre[u] && Witnessed(Edges(adj), pre[..], stack, u, lowlink[u])
      ensures forall y | y in old(stack) :: y < |adj|
      ensures Crossing(Edges(adj), pre[..], stack[|old(stack)|..], old(stack), lowlink[u])
      ensures Kept(old(pre[..]), old(lowlink[..]), lowlink[..])
      decreases White(pre[..]), 0
    {
      ghost var p0, c0, l0, base := pre[..], sccno[..], lowlink[..], stack;
      OpenVertex(u, grey);
      ghost var p1, l1, k := pre[..], lowlink[..], dfsClock;
      WhiteShrinks(p0, p1, u);
      ScanEdges(u, base, grey);
      KeptTrans(p0, p1[u := 0], l0, l1, lowlink[..]);
      ExtendsTrans(p0, c0, base, p1, c0, base + [u], pre[..], sccno[..], stack);
      assert p1[u] == k;
      CloseVertex(u, p0, c0, base, grey);
    }

    /** The loop over the edges of the newly opened vertex `u`. */
    method ScanEdges(u: nat, ghost base: seq<nat>, ghost grey: set<nat>)
      requires Valid() && Searching(grey + {u})
      requires u < |adj| && pre[u] != 0 && stack == base + [u] && lowlink[u] == pre[u]
      requires forall x | x in grey :: Reach(Edges(adj), x, u)
      modifies this`stack, this`dfsClock, this`sccCnt, pre, lowlink, sccno
      ensures Searching(grey + {u})
      ensures Extends(old(pre[..]), old(sccno[..]), old(stack), pre[..], sccno[..], stack)
      ensures Scanned(adj, pre[..], stack, base, u, |adj[u]|, lowlink[u])
      ensures Kept(old(pre[..])[u := 0], old(lowlink[..]), lowlink[..])
      decreases White(pre[..]), 2
    {
      ghost var p0, c0, l0, s0 := pre[..], sccno[..], lowlink[..], stack;
      ScannedStart(adj, p0, base, u, lowlink[u]);
      var i := 0;
      while i < |adj[u]|
        invariant 0 <= i <= |adj[u]|
        invariant Searching(grey + {u})
        invariant Extends(p0, c0, s0, pre[..], sccno[..], stack)
        invariant Scanned(adj, pre[..], stack, base, u, i, lowlink[u])
        invariant Kept(p0[u := 0], l0, lowlink[..])
      {
        ghost var p, c, l, st := pre[..], sccno[..], lowlink[..], stack;
        assert White(p) <= White(p0);
        Visit(u, i, base, grey);
        ExtendsTrans(p0, c0, s0, p, c, st, pre[..], sccno[..], stack);
        KeptTrans(p0[u := 0], p[u := 0], l0, l, lowlink[..]);
        i := i + 1;
      }
    }

    /** One round of the loop over the edges of `u`. */
    method Visit(u: nat, i: nat, ghost base: seq<nat>, ghost grey: set<nat>)
      requires Valid() && Searching(grey + {u})
      requires u < |adj| && i < |adj[u]| && pre[u] != 0
      requires forall x | x in grey :: Reach(Edges(adj), x, u)
      requires Scanned(adj, pre[..], stack, base, u, i, lowlink[u])
      modifies this`stack, this`dfsClock, this`sccCnt, pre, lowlink, sccno
      ensures Searching(grey + {u})
      ensures Extends(old(pre[..]), old(sccno[..]), old(stack), pre[..], sccno[..], stack)
      ensures Scanned(adj, pre[..], stack, base, u, i + 1, lowlink[u])
      ensures Kept(old(pre[..])[u := 0], old(lowlink[..]), lowlink[..])
      decreases White(pre[..]), 1
    {
      var v := adj[u][i];
      assert (u, v) in Edges(adj);
      ghost var p, c, l, st := pre[..], sccno[..], lowlink[..], stack;
      if pre[v] == 0 {
        forall x | x in grey + {u} ensures Reach(Edges(adj), x, v) {
          if x == u { ReachEdge(Edges(adj), u, v); } else { ReachStep(Edges(adj), x, u, v); }
        }
        Dfs(v, grey + {u});
        ScannedChild(adj, p, c, st, base, u, i, l[u], pre[..], sccno[..], stack, lowlink[v]);
        ghost var l' := lowlink[..];
        lowlink[u] := Min(lowlink[u], lowlink[v]);
        KeptUpdate(p[u := 0], l, l', u, lowlink[u], lowlink[..]);
      } else {
        if sccno[v] == 0 {
          lowlink[u] := Min(lowlink[u], pre[v]);
          KeptUpdate(p[u := 0], l, l, u, lowlink[u], lowlink[..]);
        }
        ScannedKnown(adj, p, st, base, u, i, l[u], lowlink[u]);
      }
    }

    /** Searches from vertex `i` unless it has been visited. */
    method Start(i: nat)
      requires Valid() && Searching({}) && stack == [] && i < |adj| && AllVisited(pre[..], i)
      modifies this`stack, this`dfsClock, this`sccCnt, pre, lowlink, sccno
      ensures Searching({}) && stack == [] && AllVisited(pre[..], i + 1)
    {
      if pre[i] == 0 {
        Dfs(i, {});
        NoGreyNoStack(Edges(adj), pre[..], stack);
      }
    }

    method StartAll(n: nat)
      requires Valid() && Searching({}) && stack == [] && n == |adj|
      modifies this`stack, this`dfsClock, this`sccCnt, pre, lowlink, sccno
      ensures Searching({}) && stack == [] && AllVisited(pre[..], n)
    {
      for i := 0 to n
        invariant Searching({}) && stack == [] && AllVisited(pre[..], i)
      {
        Start(i);
      }
    }

    /** Numbers the strongly connected components of the whole graph. */
    method FindScc(n: nat)
      requires Valid() && n == |adj| && stack == []
      requires forall x | 0 <= x < n :: pre[x] == 0
      modifies this`stack, this`dfsClock, this`sccCnt, pre, lowlink, sccno
      ensures stack == []
      ensures Components(Edges(adj), sccno[..], sccCnt)
    {
      dfsClock, sccCnt := 0, 0;
      forall x | 0 <= x < n { sccno[x] := 0; }
      NothingYet(adj, pre[..], sccno[..]);
      StartAll(n);
      SearchDone(adj, pre[..], sccno[..], dfsClock, sccCnt);
    }
  }
}
