// The scans of TFLabel::construct: what holds while a pass visits the store in
// scan order, and what each visit keeps.
module Passes {
  import opened Options
  import opened Paths
  import opened Folding
  import opened Labels

  // ---------------------------------------------------------------------------
  // Scanning the vertices in the order of the store.
  // ---------------------------------------------------------------------------

  predicate IsAfter(key: nat -> real, from: Option<nat>, x: nat) {
    from.None? || key(from.value) < key(x)
  }

  /** `r` is the first vertex of `vs` in scan order after `from`. */
  ghost predicate IsNext(key: nat -> real, vs: set<nat>, from: Option<nat>, r: Option<nat>) {
    && (r.Some? ==> r.value in vs && IsAfter(key, from, r.value))
    && (forall x | x in vs && IsAfter(key, from, x) :: r.Some? && key(r.value) <= key(x))
  }

  /** Different ids have different keys in the store. */
  ghost predicate Distinct(key: nat -> real) {
    forall x, y | key(x) == key(y) :: x == y
  }

  /** The vertices the scan has yet to visit, or the odd ones among them. */
  ghost function Ahead(key: nat -> real, level: map<nat, nat>, from: Option<nat>, odd: bool): set<nat> {
    set x | x in level && IsAfter(key, from, x) && (odd ==> level[x] % 2 == 1)
  }

  /** There is less ahead of `a` in `level'` than there was ahead of `from` in `level`. */
  ghost predicate Closer(key: nat -> real, level: map<nat, nat>, level': map<nat, nat>, from: Option<nat>, a: nat) {
    || Ahead(key, level', Some(a), true) < Ahead(key, level, from, true)
    || (&& Ahead(key, level', Some(a), true) == Ahead(key, level, from, true)
        && Ahead(key, level', Some(a), false) < Ahead(key, level, from, false))
  }

  /** Visiting `a` brings the scan forward, even if it adds even vertices when `a` is odd. */
  lemma AheadShrinks(key: nat -> real, level: map<nat, nat>, level': map<nat, nat>, from: Option<nat>, a: nat)
    requires Distinct(key)
    requires a in level && IsNext(key, level.Keys, from, Some(a)) && Grown(level, level')
    requires level[a] % 2 == 0 ==> level' == level
    ensures Closer(key, level, level', from, a)
  {
    assert level[a] % 2 == 1 ==> a in Ahead(key, level, from, true);
    assert a in Ahead(key, level, from, false);
  }

  // ---------------------------------------------------------------------------
  // Pass a.
  // ---------------------------------------------------------------------------

  /** While pass a, started in `w0`, has visited the vertices up to `before`. */
  ghost predicate MidA(key: nat -> real, dag: Graph, cnt: nat, m: nat, w0: Work, before: Option<nat>, w: Work) {
    && Inv(dag, cnt, m, w)
    && TightUpTo(key, before, w)
    && Grown(w0.level, w.level)
    && SameReach(w0.level.Keys, w0.edges, w.edges)
    && Tracks(cnt, w0, w) && KeepsStranded(w0, w)
  }

  ghost predicate TightUpTo(key: nat -> real, before: Option<nat>, w: Work) {
    forall x | x in w.level && !IsAfter(key, before, x) :: TightOut(w.level, w.edges, x)
  }

  lemma StepA(key: nat -> real, dag: Graph, cnt: nat, m: nat, w0: Work, before: Option<nat>, w: Work, a: nat)
    requires Distinct(key) && MidA(key, dag, cnt, m, w0, before, w)
    requires a in w.level && IsNext(key, w.level.Keys, before, Some(a))
    ensures MidA(key, dag, cnt, m, w0, Some(a), if Odd(w.level, a) then Above(w, a) else w)
    ensures Closer(key, w.level, (if Odd(w.level, a) then Above(w, a) else w).level, before, a)
  {
    if Odd(w.level, a) { GrownDummies(w.level, w, a); }
    AheadShrinks(key, w.level, (if Odd(w.level, a) then Above(w, a) else w).level, before, a);
    TightStepA(key, before, w, a);
    if Odd(w.level, a) {
      AboveKeeps(dag, cnt, m, w, a);
      GrownDummies(w0.level, w, a);
      AboveReach(w, a, w0.level.Keys);
      SameReachTrans(w0.level.Keys, w0.edges, w.edges, Above(w, a).edges);
      LabelsA(dag, cnt, m, w0, w, a);
    }
  }

  lemma LabelsA(dag: Graph, cnt: nat, m: nat, w0: Work, w: Work, a: nat)
    requires Inv(dag, cnt, m, w) && a in w.level && Odd(w.level, a)
    requires Tracks(cnt, w0, w) && KeepsStranded(w0, w)
    ensures Tracks(cnt, w0, Above(w, a)) && KeepsStranded(w0, Above(w, a))
  {
    AboveTracks(cnt, w, a);
    AboveStrands(w, a);
    TracksTrans(cnt, w0, w, Above(w, a));
    StrandsTrans(w0, w, Above(w, a));
  }

  lemma TightStepA(key: nat -> real, before: Option<nat>, w: Work, a: nat)
    requires Distinct(key) && TightUpTo(key, before, w)
    requires a in w.level && IsNext(key, w.level.Keys, before, Some(a))
    requires Rising(w.level, w.edges) && a < |w.fa| && |w.fa| !in w.level
    ensures TightUpTo(key, Some(a), if Odd(w.level, a) then Above(w, a) else w)
  {
    var w' := if Odd(w.level, a) then Above(w, a) else w;
    forall x | x in w'.level && !IsAfter(key, Some(a), x) ensures TightOut(w'.level, w'.edges, x) {
      assert x == a || x !in w.level || !IsAfter(key, before, x);
      if Odd(w.level, a) { AboveTight(w, a, x); }
    }
  }

  // ---------------------------------------------------------------------------
  // Pass b.
  // ---------------------------------------------------------------------------

  /** While pass b, started in `w0`, has visited the vertices up to `before`. */
  ghost predicate MidB(key: nat -> real, dag: Graph, cnt: nat, m: nat, w0: Work, before: Option<nat>, w: Work) {
    && Inv(dag, cnt, m, w)
    && AllTightOut(w.level, w.edges)
    && TightFrom(key, before, w)
    && Grown(w0.level, w.level)
    && SameReach(w0.level.Keys, w0.edges, w.edges)
    && Tracks(cnt, w0, w) && KeepsStranded(w0, w)
  }

  ghost predicate TightFrom(key: nat -> real, before: Option<nat>, w: Work) {
    forall x | x in w.level && !IsAfter(key, before, x) :: TightIn(w.level, w.edges, x)
  }

  lemma StepB(key: nat -> real, dag: Graph, cnt: nat, m: nat, w0: Work, before: Option<nat>, w: Work, a: nat)
    requires Distinct(key) && MidB(key, dag, cnt, m, w0, before, w)
    requires a in w.level && IsNext(key, w.level.Keys, before, Some(a))
    ensures MidB(key, dag, cnt, m, w0, Some(a), if Odd(w.level, a) then Below(w, a) else w)
    ensures Closer(key, w.level, (if Odd(w.level, a) then Below(w, a) else w).level, before, a)
  {
    if Odd(w.level, a) { GrownDummies(w.level, w, a); }
    AheadShrinks(key, w.level, (if Odd(w.level, a) then Below(w, a) else w).level, before, a);
    TightStepB(key, before, w, a);
    if Odd(w.level, a) {
      BelowKeeps(dag, cnt, m, w, a);
      LabelsB(dag, cnt, m, w0, w, a);
      GrownDummies(w0.level, w, a);
      BelowReach(w, a, w0.level.Keys);
      SameReachTrans(w0.level.Keys, w0.edges, w.edges, Below(w, a).edges);
      BelowKeepsOut(w, a);
    }
  }

  lemma LabelsB(dag: Graph, cnt: nat, m: nat, w0: Work, w: Work, a: nat)
    requires Inv(dag, cnt, m, w) && a in w.level && Odd(w.level, a)
    requires Tracks(cnt, w0, w) && KeepsStranded(w0, w)
    ensures Tracks(cnt, w0, Below(w, a)) && KeepsStranded(w0, Below(w, a))
  {
    BelowTracks(cnt, w, a);
    BelowStrands(w, a);
    TracksTrans(cnt, w0, w, Below(w, a));
    StrandsTrans(w0, w, Below(w, a));
  }

  lemma TightStepB(key: nat -> real, before: Option<nat>, w: Work, a: nat)
    requires Distinct(key) && TightFrom(key, before, w) && AllTightOut(w.level, w.edges)
    requires a in w.level && IsNext(key, w.level.Keys, before, Some(a))
    requires Rising(w.level, w.edges) && a < |w.fa| && |w.fa| !in w.level
    ensures TightFrom(key, Some(a), if Odd(w.level, a) then Below(w, a) else w)
  {
    var w' := if Odd(w.level, a) then Below(w, a) else w;
    forall x | x in w'.level && !IsAfter(key, Some(a), x) ensures TightIn(w'.level, w'.edges, x) {
      assert x == a || x !in w.level || !IsAfter(key, before, x);
      if Odd(w.level, a) { BelowTight(w, a, x); }
    }
  }

  // ---------------------------------------------------------------------------
  // Pass c.
  // ---------------------------------------------------------------------------

  /** The levels while pass c is under way: visited even vertices are halved,
      visited odd ones are gone. */
  ghost predicate HalfwayLevels(key: nat -> real, l0: map<nat, nat>, before: Option<nat>, l: map<nat, nat>) {
    && (forall x | x in l :: x in l0)
    && (forall x | x in l0 && IsAfter(key, before, x) :: x in l && l[x] == l0[x])
    && (forall x | x in l0 && !IsAfter(key, before, x) && Odd(l0, x) :: x !in l)
    && (forall x | x in l0 && !IsAfter(key, before, x) && !Odd(l0, x) :: x in l && l[x] == l0[x] / 2)
  }

  /** The edges meanwhile: they join remaining vertices and fit the levels at the start. */
  ghost predicate HalfwayEdges(l0: map<nat, nat>, l: map<nat, nat>, g: Graph) {
    && Rising(l0, g) && AllTightOut(l0, g) && AllTightIn(l0, g)
    && (forall x, y | (x, y) in g :: x in l && y in l)
  }

  /** Labels have grown, and pairs that were tracked at the start are noted by now, or
      still edges. */
  ghost predicate HalfwayTracks(cnt: nat, w0: Work, w: Work) {
    && Wider(w0.labelIn, w.labelIn) && Wider(w0.labelOut, w.labelOut)
    && forall up, u, v {:trigger Tracked(w0, cnt, up, u, v)} | Tracked(w0, cnt, up, u, v) :: StillTracked(w0, w, up, u, v)
  }

  ghost predicate StillTracked(w0: Work, w: Work, up: bool, u: nat, v: nat) {
    || Noted(w, up, u, v)
    || ((u, v) in w0.edges && (u, v) in w.edges && u in w0.level && v in w0.level && MeetsBy(up, w0.level[u], w0.level[v]))
  }

  /** The edges of a vertex that was stranded at the start lead to even vertices, which have
      no labels if the vertex is odd, and still miss them if it is even. */
  ghost predicate HalfwayStrands(w0: Work, w: Work, u: nat, s: nat) {
    && u in w0.level && s in w0.level && w0.level[s] % 2 == 0 && s < |w.labelIn|
    && if w0.level[u] % 2 == 1 then w.labelIn[s] == {} else 0 < w0.level[s] && Missed(w0.level[u] / 2, w0.level[s] / 2)
  }

  ghost predicate StillStranded(w0: Work, w: Work, u: nat) {
    Alone(w, u) && (u in w.level ==> forall s | s in Succs(w.edges, u) :: HalfwayStrands(w0, w, u, s))
  }

  ghost predicate HalfwayStranded(w0: Work, w: Work) {
    forall u {:trigger Stranded(w0, u)} | Stranded(w0, u) :: StillStranded(w0, w, u)
  }

  lemma BeginStranded(w: Work)
    requires AllTightOut(w.level, w.edges)
    ensures HalfwayStranded(w, w)
  {
    forall u: nat | Stranded(w, u) ensures StillStranded(w, w, u) {
      if u in w.level {
        forall s | s in Succs(w.edges, u) ensures HalfwayStrands(w, w, u, s) {
          assert Strands(w, u, s) && TightOut(w.level, w.edges, u);
        }
      }
    }
  }

  /** While pass c, started in `w0`, has visited the vertices up to `before`. */
  ghost predicate MidC(key: nat -> real, dag: Graph, cnt: nat, w0: Work, before: Option<nat>, w: Work) {
    && HalfwayLevels(key, w0.level, before, w.level)
    && HalfwayEdges(w0.level, w.level, w.edges)
    && SameReach(w.level.Keys, w0.edges, w.edges)
    && Origins(dag, cnt, w.fa, w.edges)
    && Sound(dag, cnt, w.fa, w.labelIn, w.labelOut)
    && Accounted(w.level, w.fa, w.order)
    && HalfwayTracks(cnt, w0, w) && HalfwayStranded(w0, w)
  }

  /** Pass c at an even vertex halves its level. */
  lemma StepEven(key: nat -> real, dag: Graph, cnt: nat, w0: Work, before: Option<nat>, w: Work, a: nat)
    requires Distinct(key) && MidC(key, dag, cnt, w0, before, w)
    requires a in w.level && IsNext(key, w.level.Keys, before, Some(a)) && !Odd(w.level, a)
    ensures MidC(key, dag, cnt, w0, Some(a), w.(level := w.level[a := w.level[a] / 2]))
  {
    NextIsUntouched(key, w0.level, before, w.level, a);
    var w' := w.(level := w.level[a := w.level[a] / 2]);
    assert w'.level.Keys == w.level.Keys;
    forall up, u: nat, v: nat | Tracked(w0, cnt, up, u, v) ensures StillTracked(w0, w', up, u, v) {
      assert StillTracked(w0, w, up, u, v);
    }
    StepEvenStrands(w0, w, w');
  }

  lemma StepEvenStrands(w0: Work, w: Work, w': Work)
    requires HalfwayStranded(w0, w) && w'.level.Keys == w.level.Keys && w' == w.(level := w'.level)
    ensures HalfwayStranded(w0, w')
  {
    forall u: nat | Stranded(w0, u) ensures StillStranded(w0, w', u) {
      assert StillStranded(w0, w, u);
      if u in w'.level {
        forall s | s in Succs(w'.edges, u) ensures HalfwayStrands(w0, w', u, s) {
          assert u in w.level && HalfwayStrands(w0, w, u, s);
        }
      }
    }
  }

  /** The vertex visited next still has its level, and later ones are later. */
  lemma NextIsUntouched(key: nat -> real, l0: map<nat, nat>, before: Option<nat>, l: map<nat, nat>, a: nat)
    requires Distinct(key) && HalfwayLevels(key, l0, before, l)
    requires a in l && IsNext(key, l.Keys, before, Some(a))
    ensures a in l0 && l[a] == l0[a]
    ensures forall x | x in l0 && x != a :: IsAfter(key, Some(a), x) <==> IsAfter(key, before, x)
  {
  }

  /** Pass c at an odd vertex removes it. */
  lemma StepOdd(key: nat -> real, dag: Graph, cnt: nat, w0: Work, before: Option<nat>, w: Work, a: nat)
    requires Distinct(key) && MidC(key, dag, cnt, w0, before, w)
    requires a in w.level && IsNext(key, w.level.Keys, before, Some(a)) && Odd(w.level, a)
    ensures MidC(key, dag, cnt, w0, Some(a), Drop(w, a))
  {
    NextIsUntouched(key, w0.level, before, w.level, a);
    StepOddGraph(key, w0, before, w.level, w.edges, a);
    StepOddLabels(dag, cnt, w, a);
    StepOddTracks(dag, cnt, w0, w, a);
    StepOddStrands(w0, w, a);
  }

  /** A removed vertex takes over a label that its neighbour also has. */
  lemma StepOddTracks(dag: Graph, cnt: nat, w0: Work, w: Work, a: nat)
    requires Origins(dag, cnt, w.fa, w.edges) && Sound(dag, cnt, w.fa, w.labelIn, w.labelOut)
    requires HalfwayTracks(cnt, w0, w) && a < |w.fa| && a in w0.level && w0.level[a] % 2 == 1
    ensures HalfwayTracks(cnt, w0, Drop(w, a))
  {
    forall up, u: nat, v: nat | Tracked(w0, cnt, up, u, v) ensures StillTracked(w0, Drop(w, a), up, u, v) {
      assert StillTracked(w0, w, up, u, v);
      OddTracked(w0, w, a, up, u, v);
    }
  }

  lemma OddTracked(w0: Work, w: Work, a: nat, up: bool, u: nat, v: nat)
    requires StillTracked(w0, w, up, u, v) && a in w0.level && w0.level[a] % 2 == 1
    requires a < |w.labelIn| == |w.labelOut| && forall x, y | (x, y) in w.edges :: x < |w.labelIn| && y < |w.labelIn|
    requires u < |w.labelIn| && v < |w.labelIn| && u in w.labelOut[u] && v in w.labelIn[v]
    ensures StillTracked(w0, Drop(w, a), up, u, v)
  {
    if !Noted(w, up, u, v) {
      if u == a {
        assert v in Succs(w.edges, a);
      } else if v == a {
        assert u in Preds(w.edges, a);
      }
    }
  }

  /** No stranded vertex is a neighbour of the removed one, unless it is removed itself. */
  lemma StepOddStrands(w0: Work, w: Work, a: nat)
    requires HalfwayStranded(w0, w) && a in w0.level && w0.level[a] % 2 == 1
    requires a < |w.labelIn| == |w.labelOut| && forall x, y | (x, y) in w.edges :: x < |w.labelIn| && y < |w.labelIn|
    requires a in w.level && forall x, y | (x, y) in w.edges :: x in w.level && y in w.level
    ensures HalfwayStranded(w0, Drop(w, a))
  {
    forall u: nat | Stranded(w0, u) ensures StillStranded(w0, Drop(w, a), u) {
      assert StillStranded(w0, w, u);
      if u == a {
        StrandedDropped(w0, w, a);
      } else {
        StrandedLeft(w0, w, a, u);
      }
    }
  }

  lemma StrandedDropped(w0: Work, w: Work, a: nat)
    requires StillStranded(w0, w, a) && a in w0.level && w0.level[a] % 2 == 1 && a in w.level
    requires a < |w.labelIn| == |w.labelOut| && forall x, y | (x, y) in w.edges :: x < |w.labelIn| && y < |w.labelIn|
    ensures StillStranded(w0, Drop(w, a), a)
  {
    forall s | s in Succs(w.edges, a) ensures w.labelIn[s] == {} { assert HalfwayStrands(w0, w, a, s); }
  }

  lemma StrandedUpward(w0: Work, w: Work, u: nat)
    requires StillStranded(w0, w, u) && u in w.level
    ensures forall s | s in Succs(w.edges, u) :: s in w0.level && w0.level[s] % 2 == 0
  {
    forall s | s in Succs(w.edges, u) ensures s in w0.level && w0.level[s] % 2 == 0 {
      assert HalfwayStrands(w0, w, u, s);
    }
  }

  lemma StrandedLeft(w0: Work, w: Work, a: nat, u: nat)
    requires StillStranded(w0, w, u) && a in w0.level && w0.level[a] % 2 == 1 && u != a
    requires a < |w.labelIn| == |w.labelOut| && forall x, y | (x, y) in w.edges :: x < |w.labelIn| && y < |w.labelIn|
    requires forall x, y | (x, y) in w.edges :: x in w.level && y in w.level
    ensures StillStranded(w0, Drop(w, a), u)
  {
    var w' := Drop(w, a);
    if u in w.level { StrandedUpward(w0, w, u); }
    if u in w'.level {
      forall s | s in Succs(w'.edges, u) ensures HalfwayStrands(w0, w', u, s) {
        assert s in Succs(w.edges, u) && HalfwayStrands(w0, w, u, s);
      }
    }
  }

  lemma StepOddGraph(key: nat -> real, w0: Work, before: Option<nat>, l: map<nat, nat>, g: Graph, a: nat)
    requires Distinct(key) && HalfwayLevels(key, w0.level, before, l) && HalfwayEdges(w0.level, l, g)
    requires SameReach(l.Keys, w0.edges, g)
    requires a in l && IsNext(key, l.Keys, before, Some(a)) && Odd(l, a)
    ensures HalfwayLevels(key, w0.level, Some(a), l - {a}) && HalfwayEdges(w0.level, l - {a}, Bridge(g, a))
    ensures SameReach((l - {a}).Keys, w0.edges, Bridge(g, a))
  {
    NextIsUntouched(key, w0.level, before, l, a);
    StepOddLevels(key, w0.level, before, l, a);
    DropEdges(w0.level, l, g, a);
    assert (a, a) !in g;
    StepOddReach(l, w0.edges, g, a);
  }

  lemma StepOddLevels(key: nat -> real, l0: map<nat, nat>, before: Option<nat>, l: map<nat, nat>, a: nat)
    requires Distinct(key) && HalfwayLevels(key, l0, before, l)
    requires a in l && IsNext(key, l.Keys, before, Some(a)) && Odd(l, a)
    ensures HalfwayLevels(key, l0, Some(a), l - {a})
  {
    NextIsUntouched(key, l0, before, l, a);
  }

  lemma StepOddReach(l: map<nat, nat>, g0: Graph, g: Graph, a: nat)
    requires SameReach(l.Keys, g0, g) && (a, a) !in g
    ensures SameReach((l - {a}).Keys, g0, Bridge(g, a))
  {
    assert (l - {a}).Keys == l.Keys - {a};
    BridgeReach(g, a, l.Keys - {a});
    SameReachTrans(l.Keys - {a}, g0, g, Bridge(g, a));
  }

  lemma StepOddLabels(dag: Graph, cnt: nat, w: Work, a: nat)
    requires Origins(dag, cnt, w.fa, w.edges) && Sound(dag, cnt, w.fa, w.labelIn, w.labelOut)
    requires Accounted(w.level, w.fa, w.order) && a in w.level
    ensures var w' := Drop(w, a);
      && Origins(dag, cnt, w'.fa, w'.edges) && Sound(dag, cnt, w'.fa, w'.labelIn, w'.labelOut)
      && Accounted(w'.level, w'.fa, w'.order)
  {
    OriginsBridge(dag, cnt, w.fa, w.edges, a);
    SoundGrow(dag, cnt, w.fa, w.edges, w.labelIn, w.labelOut, a);
    DropAccounted(w.level, w.fa, w.order, a);
  }

  /** What pass c does at `a`. */
  ghost function Reduce(w: Work, a: nat): Work
    requires a in w.level && a < |w.labelIn| == |w.labelOut|
    requires forall x, y | (x, y) in w.edges :: x < |w.labelIn| && y < |w.labelIn|
  {
    if w.level[a] % 2 == 0 then w.(level := w.level[a := w.level[a] / 2]) else Drop(w, a)
  }

  lemma StepC(key: nat -> real, dag: Graph, cnt: nat, w0: Work, before: Option<nat>, w: Work, a: nat)
    requires Distinct(key) && MidC(key, dag, cnt, w0, before, w)
    requires a in w.level && IsNext(key, w.level.Keys, before, Some(a))
    ensures MidC(key, dag, cnt, w0, Some(a), Reduce(w, a))
  {
    if Odd(w.level, a) {
      StepOdd(key, dag, cnt, w0, before, w, a);
    } else {
      StepEven(key, dag, cnt, w0, before, w, a);
    }
  }

  /** The scan comes forward, and what follows `a` does not change. */
  lemma ScanAdvances(key: nat -> real, level: map<nat, nat>, before: Option<nat>, a: nat, level': map<nat, nat>)
    requires a in level && IsNext(key, level.Keys, before, Some(a))
    requires level.Keys - {a} <= level'.Keys <= level.Keys
    ensures Ahead(key, level', Some(a), false) < Ahead(key, level, before, false)
    ensures forall r | IsNext(key, level.Keys, Some(a), r) :: IsNext(key, level'.Keys, Some(a), r)
  {
    var ahead, ahead' := Ahead(key, level, before, false), Ahead(key, level', Some(a), false);
    assert a in ahead && a !in ahead';
    assert ahead' <= ahead;
  }

  lemma ReduceKeys(w: Work, a: nat)
    requires a in w.level && a < |w.labelIn| == |w.labelOut|
    requires forall x, y | (x, y) in w.edges :: x < |w.labelIn| && y < |w.labelIn|
    ensures w.level.Keys - {a} <= Reduce(w, a).level.Keys <= w.level.Keys
  {
  }

  lemma DropEdges(l0: map<nat, nat>, l: map<nat, nat>, g: Graph, a: nat)
    requires HalfwayEdges(l0, l, g) && a in l0 && Odd(l0, a)
    ensures HalfwayEdges(l0, l - {a}, Bridge(g, a))
  {
    BridgeLevels(l0, g, a);
    assert Succs(Bridge(g, a), a) == {} && Preds(Bridge(g, a), a) == {};
  }

  /** After pass c: the levels are halved and still rise along the edges. */
  lemma EndC(key: nat -> real, dag: Graph, cnt: nat, m: nat, w0: Work, before: Option<nat>, w: Work)
    requires MidC(key, dag, cnt, w0, before, w) && IsNext(key, w.level.Keys, before, None)
    requires Bounded(w0.level, m)
    ensures Inv(dag, cnt, m / 2, w) && Folded(w0.level, w.level) && Tracks(cnt, w0, w) && KeepsStranded(w0, w)
  {
    forall x | x in w0.level ensures !IsAfter(key, before, x) {
      assert IsAfter(key, before, x) ==> x in w.level.Keys;
    }
    forall x | x in w.level ensures x in w0.level && !Odd(w0.level, x) && w.level[x] == w0.level[x] / 2 {}
    EndTracks(cnt, w0, w);
    EndStrands(w0, w);
  }

  lemma EndTracks(cnt: nat, w0: Work, w: Work)
    requires HalfwayTracks(cnt, w0, w) && Folded(w0.level, w.level)
    requires forall x, y | (x, y) in w.edges :: x in w.level && y in w.level
    ensures Tracks(cnt, w0, w)
  {
    forall up, u: nat, v: nat | Tracked(w0, cnt, up, u, v) ensures Tracked(w, cnt, up, u, v) {
      assert StillTracked(w0, w, up, u, v);
    }
  }

  lemma EndStrands(w0: Work, w: Work)
    requires HalfwayStranded(w0, w) && Folded(w0.level, w.level)
    requires forall x, y | (x, y) in w.edges :: x in w.level && y in w.level
    ensures KeepsStranded(w0, w)
  {
    forall u: nat | Stranded(w0, u) ensures Stranded(w, u) {
      assert StillStranded(w0, w, u);
      if u in w.level {
        forall s | s in Succs(w.edges, u) ensures Strands(w, u, s) { assert HalfwayStrands(w0, w, u, s); }
      }
    }
  }

  /** Of the vertices of `l0` exactly the even ones remain, on half their level. */
  ghost predicate Folded(l0: map<nat, nat>, l: map<nat, nat>) {
    && (forall x :: x in l <==> x in l0 && l0[x] % 2 == 0)
    && (forall x | x in l :: l[x] == l0[x] / 2)
  }
}
