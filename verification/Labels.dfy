// TFLabel::construct: topological folding with reachability labels.  The working
// state and what each step of a run keeps true of it.
module Labels {
  import opened Paths
  import opened Folding
  import Topological

  /** The working graph with its levels, the origin of each vertex, the labels,
      and the vertices removed so far. */
  datatype Work = Work(level: map<nat, nat>, edges: Graph, fa: seq<nat>,
                       labelIn: seq<set<nat>>, labelOut: seq<set<nat>>, order: seq<nat>)

  // ---------------------------------------------------------------------------
  // The invariant.  `dag` is the condensation the run started from, `cnt` the
  // number of its vertices and `m` a bound on the levels.
  // ---------------------------------------------------------------------------

  /** Every working vertex stands for a vertex of `dag`, dummies for the vertex
      they were split from, and working edges follow paths of `dag`. */
  ghost predicate Origins(dag: Graph, cnt: nat, fa: seq<nat>, edges: Graph) {
    && cnt <= |fa|
    && (forall x | 0 <= x < cnt :: fa[x] == x)
    && (forall x | 0 <= x < |fa| :: fa[x] < cnt)
    && (forall x, y | (x, y) in edges :: x < |fa| && y < |fa| && Reach(dag, fa[x], fa[y]))
  }

  /** What `x` has in its in-label is reachable from it, and what it has in its
      out-label reaches it; vertices of `dag` have themselves in both. */
  ghost predicate Sound(dag: Graph, cnt: nat, fa: seq<nat>, labelIn: seq<set<nat>>, labelOut: seq<set<nat>>) {
    && cnt <= |labelIn| == |labelOut| == |fa|
    && (forall x: nat | x < cnt :: x in labelIn[x] && x in labelOut[x])
    && (forall x, e | 0 <= x < |fa| && e in labelIn[x] :: e < cnt && Reach(dag, fa[x], e))
    && (forall x, e | 0 <= x < |fa| && e in labelOut[x] :: e < cnt && Reach(dag, e, fa[x]))
  }

  /** Every vertex is either still in the working graph or in `order`, once. */
  ghost predicate Accounted(level: map<nat, nat>, fa: seq<nat>, order: seq<nat>) {
    && (forall i, j | 0 <= i < j < |order| :: order[i] != order[j])
    && (forall x: nat :: x in order <==> x < |fa| && x !in level)
    && (forall x | x in level :: x < |fa|)
  }

  ghost predicate Inv(dag: Graph, cnt: nat, m: nat, w: Work) {
    && Rising(w.level, w.edges) && Bounded(w.level, m)
    && Origins(dag, cnt, w.fa, w.edges)
    && Sound(dag, cnt, w.fa, w.labelIn, w.labelOut)
    && Accounted(w.level, w.fa, w.order)
  }

  /** The promise of the index: a common label entry proves reachability. */
  lemma LabelsWitness(dag: Graph, cnt: nat, m: nat, w: Work, u: nat, v: nat)
    requires Inv(dag, cnt, m, w) && u < |w.fa| && v < |w.fa|
    requires w.labelIn[u] * w.labelOut[v] != {}
    ensures Reach(dag, w.fa[u], w.fa[v])
  {
    var e :| e in w.labelIn[u] * w.labelOut[v];
    ReachTrans(dag, w.fa[u], e, w.fa[v]);
  }

  function Gather(labels: seq<set<nat>>, s: set<nat>): (r: set<nat>)
    requires forall y | y in s :: y < |labels|
    ensures forall e :: e in r <==> exists y :: y in s && e in labels[y]
  {
    set y, e | y in s && e in labels[y] :: e
  }

  lemma OriginsSplitOut(dag: Graph, cnt: nat, fa: seq<nat>, edges: Graph, a: nat, far: set<nat>)
    requires Origins(dag, cnt, fa, edges) && a < |fa| && far <= Succs(edges, a)
    ensures Origins(dag, cnt, fa + [fa[a]], SplitOut(edges, a, |fa|, far))
  {
    ReachRefl(dag, fa[a]);
  }

  lemma OriginsSplitIn(dag: Graph, cnt: nat, fa: seq<nat>, edges: Graph, a: nat, near: set<nat>)
    requires Origins(dag, cnt, fa, edges) && a < |fa| && near <= Preds(edges, a)
    ensures Origins(dag, cnt, fa + [fa[a]], SplitIn(edges, a, |fa|, near))
  {
    ReachRefl(dag, fa[a]);
  }

  lemma OriginsBridge(dag: Graph, cnt: nat, fa: seq<nat>, edges: Graph, a: nat)
    requires Origins(dag, cnt, fa, edges) && a < |fa|
    ensures Origins(dag, cnt, fa, Bridge(edges, a))
  {
    forall x, y | (x, y) in Bridge(edges, a) ensures x < |fa| && y < |fa| && Reach(dag, fa[x], fa[y]) {
      if (x, y) !in edges { ReachTrans(dag, fa[x], fa[a], fa[y]); }
    }
  }

  /** Taking over the labels of neighbours is sound. */
  lemma SoundGrow(dag: Graph, cnt: nat, fa: seq<nat>, edges: Graph, labelIn: seq<set<nat>>, labelOut: seq<set<nat>>, a: nat)
    requires Origins(dag, cnt, fa, edges) && Sound(dag, cnt, fa, labelIn, labelOut) && a < |fa|
    ensures Sound(dag, cnt, fa, labelIn[a := labelIn[a] + Gather(labelIn, Succs(edges, a))],
                  labelOut[a := labelOut[a] + Gather(labelOut, Preds(edges, a))])
  {
    forall e | e in Gather(labelIn, Succs(edges, a)) ensures e < cnt && Reach(dag, fa[a], e) {
      var y :| y in Succs(edges, a) && e in labelIn[y];
      ReachTrans(dag, fa[a], fa[y], e);
    }
    forall e | e in Gather(labelOut, Preds(edges, a)) ensures e < cnt && Reach(dag, e, fa[a]) {
      var y :| y in Preds(edges, a) && e in labelOut[y];
      ReachTrans(dag, e, fa[y], fa[a]);
    }
  }

  /** Taking over the labels of one's own label entries is sound. */
  lemma SoundClose(dag: Graph, cnt: nat, fa: seq<nat>, edges: Graph, labelIn: seq<set<nat>>, labelOut: seq<set<nat>>, a: nat)
    requires Origins(dag, cnt, fa, edges) && Sound(dag, cnt, fa, labelIn, labelOut) && a < |fa|
    ensures Sound(dag, cnt, fa, labelIn[a := labelIn[a] + Gather(labelIn, labelIn[a])],
                  labelOut[a := labelOut[a] + Gather(labelOut, labelOut[a])])
  {
    forall e | e in Gather(labelIn, labelIn[a]) ensures e < cnt && Reach(dag, fa[a], e) {
      var y :| y in labelIn[a] && e in labelIn[y];
      ReachTrans(dag, fa[a], y, e);
    }
    forall e | e in Gather(labelOut, labelOut[a]) ensures e < cnt && Reach(dag, e, fa[a]) {
      var y :| y in labelOut[a] && e in labelOut[y];
      ReachTrans(dag, e, y, fa[a]);
    }
  }

  // ---------------------------------------------------------------------------
  // Which edges the labels are sure to answer.
  // ---------------------------------------------------------------------------

  /** After some common halvings the levels are neighbours. */
  ghost predicate Meets(a: nat, b: nat)
    decreases b
  {
    b == a + 1 || (a % 2 == 0 && b % 2 == 0 && 0 < b && Meets(a / 2, b / 2))
  }

  /** They do so with the lower of them odd, if `up` holds, and otherwise with it even. */
  ghost predicate MeetsBy(up: bool, a: nat, b: nat)
    decreases b
  {
    (b == a + 1 && (a % 2 == 1) == up) || (a % 2 == 0 && b % 2 == 0 && 0 < b && MeetsBy(up, a / 2, b / 2))
  }

  lemma {:induction false} MeetsSomehow(a: nat, b: nat)
    ensures Meets(a, b) <==> MeetsBy(true, a, b) || MeetsBy(false, a, b)
    decreases b
  {
    if b != a + 1 && a % 2 == 0 && b % 2 == 0 && 0 < b { MeetsSomehow(a / 2, b / 2); }
  }

  /** The upper end of an edge is in the in-label of the lower, or the lower in the
      out-label of the upper. */
  ghost predicate Noted(w: Work, up: bool, u: nat, v: nat) {
    if up then u < |w.labelIn| && v in w.labelIn[u] else v < |w.labelOut| && u in w.labelOut[v]
  }

  /** The labels prove that `u` reaches `v`. */
  ghost predicate Answered(w: Work, u: nat, v: nat) {
    u < |w.labelIn| && v < |w.labelOut| && w.labelIn[u] * w.labelOut[v] != {}
  }

  /** The pair is noted in the labels, or still an edge whose levels will meet. */
  ghost predicate Tracked(w: Work, cnt: nat, up: bool, u: nat, v: nat) {
    u < cnt && v < cnt
    && (Noted(w, up, u, v)
        || ((u, v) in w.edges && u in w.level && v in w.level && MeetsBy(up, w.level[u], w.level[v])))
  }

  /** Labels do not shrink. */
  ghost predicate Wider(l: seq<set<nat>>, l': seq<set<nat>>) {
    |l| <= |l'| && forall x | 0 <= x < |l| :: l[x] <= l'[x]
  }

  ghost predicate Tracks(cnt: nat, w0: Work, w: Work) {
    && Wider(w0.labelIn, w.labelIn) && Wider(w0.labelOut, w.labelOut)
    && forall up, u, v {:trigger Tracked(w, cnt, up, u, v)} | Tracked(w0, cnt, up, u, v) :: Tracked(w, cnt, up, u, v)
  }

  /** What has been answered stays answered. */
  lemma AnswersStay(cnt: nat, w0: Work, w: Work, u: nat, v: nat)
    requires Tracks(cnt, w0, w) && Answered(w0, u, v)
    ensures Answered(w, u, v)
  {
    var e :| e in w0.labelIn[u] * w0.labelOut[v];
    assert e in w.labelIn[u] * w.labelOut[v];
  }

  // ---------------------------------------------------------------------------
  // Which vertices the labels are sure to miss.
  // ---------------------------------------------------------------------------

  /** After some common halvings the lower level is odd, and the upper one not its neighbour. */
  ghost predicate Missed(a: nat, b: nat)
    decreases b
  {
    (a % 2 == 1 && a + 1 < b) || (a % 2 == 0 && b % 2 == 0 && 0 < b && Missed(a / 2, b / 2))
  }

  /** `u` is in no other vertex's out-label, and has nobody else in its in-label. */
  ghost predicate Alone(w: Work, u: nat) {
    u < |w.labelIn| == |w.labelOut| && w.labelIn[u] <= {u} && forall y | 0 <= y < |w.labelOut| && y != u :: u !in w.labelOut[y]
  }

  /** While `u` is a working vertex, its edges miss their upper ends, or lead to a dummy
      without labels that is removed later. */
  ghost predicate Stranded(w: Work, u: nat) {
    Alone(w, u) && (u in w.level ==> forall s | s in Succs(w.edges, u) :: Strands(w, u, s))
  }

  ghost predicate Strands(w: Work, u: nat, s: nat) {
    && u in w.level && s in w.level && s < |w.labelIn|
    && (Missed(w.level[u], w.level[s]) || (w.level[u] % 2 == 1 && w.level[s] % 2 == 0 && w.labelIn[s] == {}))
  }

  ghost predicate KeepsStranded(w0: Work, w: Work) {
    forall u {:trigger Stranded(w, u)} | Stranded(w0, u) :: Stranded(w, u)
  }

  lemma TracksTrans(cnt: nat, w0: Work, w1: Work, w2: Work)
    requires Tracks(cnt, w0, w1) && Tracks(cnt, w1, w2)
    ensures Tracks(cnt, w0, w2)
  {
    forall up, u: nat, v: nat | Tracked(w0, cnt, up, u, v) ensures Tracked(w2, cnt, up, u, v) {
      assert Tracked(w1, cnt, up, u, v);
    }
  }

  lemma StrandsTrans(w0: Work, w1: Work, w2: Work)
    requires KeepsStranded(w0, w1) && KeepsStranded(w1, w2)
    ensures KeepsStranded(w0, w2)
  {
    forall u: nat | Stranded(w0, u) ensures Stranded(w2, u) { assert Stranded(w1, u); }
  }

  // ---------------------------------------------------------------------------
  // Passes a and b at one vertex.
  // ---------------------------------------------------------------------------

  /** A dummy for `a` on level `l`, with edges `g`. */
  ghost function WithDummy(w: Work, a: nat, l: nat, g: Graph): Work
    requires a < |w.fa|
  {
    Work(w.level[|w.fa| := l], g, w.fa + [w.fa[a]], w.labelIn + [{}], w.labelOut + [{}], w.order)
  }

  /** Pass a at `a`: one dummy takes over the edges to `Far`, if there are any. */
  ghost function Above(w: Work, a: nat): Work
    requires a in w.level && a < |w.fa| && forall e | e in w.edges :: e.1 in w.level
  {
    var far := Far(w.level, w.edges, a);
    if far == {} then w
    else WithDummy(w, a, w.level[a] + 1, SplitOut(w.edges, a, |w.fa|, far))
  }

  /** Pass b at `a`: one dummy takes over the edges from `Near`, if there are any. */
  ghost function Below(w: Work, a: nat): Work
    requires a in w.level && 1 <= w.level[a] && a < |w.fa| && forall e | e in w.edges :: e.0 in w.level
  {
    var near := Near(w.level, w.edges, a);
    if near == {} then w
    else WithDummy(w, a, w.level[a] - 1, SplitIn(w.edges, a, |w.fa|, near))
  }

  /** `level'` is `level` with even vertices added. */
  ghost predicate Grown(level: map<nat, nat>, level': map<nat, nat>) {
    && (forall x | x in level :: x in level' && level'[x] == level[x])
    && (forall x | x in level' && x !in level :: level'[x] % 2 == 0)
  }

  ghost predicate AllTightOut(level: map<nat, nat>, edges: Graph) {
    forall x | x in level :: TightOut(level, edges, x)
  }

  ghost predicate AllTightIn(level: map<nat, nat>, edges: Graph) {
    forall x | x in level :: TightIn(level, edges, x)
  }

  /** A dummy is accounted for, and its empty labels are sound. */
  lemma DummyKeeps(dag: Graph, cnt: nat, w: Work, a: nat, l: nat, g: Graph)
    requires Sound(dag, cnt, w.fa, w.labelIn, w.labelOut) && Accounted(w.level, w.fa, w.order) && a < |w.fa|
    ensures var w' := WithDummy(w, a, l, g);
      Sound(dag, cnt, w'.fa, w'.labelIn, w'.labelOut) && Accounted(w'.level, w'.fa, w'.order)
  {
  }

  lemma GrownDummies(w0: map<nat, nat>, w: Work, a: nat)
    requires Grown(w0, w.level) && a in w.level && Odd(w.level, a) && a < |w.fa| && |w.fa| !in w.level
    requires forall e | e in w.edges :: e.0 in w.level && e.1 in w.level
    requires |w.fa| !in w0
    ensures Grown(w0, Above(w, a).level) && Grown(w0, Below(w, a).level)
  {
    assert w.level[a] % 2 == 1;
  }

  lemma AboveDummy(dag: Graph, cnt: nat, m: nat, w: Work, a: nat, far: set<nat>)
    requires Inv(dag, cnt, m, w) && a in w.level && Odd(w.level, a)
    requires far == Far(w.level, w.edges, a) != {}
    ensures Inv(dag, cnt, m, WithDummy(w, a, w.level[a] + 1, SplitOut(w.edges, a, |w.fa|, far)))
  {
    SplitOutLevels(w.level, w.edges, a, |w.fa|, m);
    OriginsSplitOut(dag, cnt, w.fa, w.edges, a, far);
    DummyKeeps(dag, cnt, w, a, w.level[a] + 1, SplitOut(w.edges, a, |w.fa|, far));
  }

  lemma AboveKeeps(dag: Graph, cnt: nat, m: nat, w: Work, a: nat)
    requires Inv(dag, cnt, m, w) && a in w.level && Odd(w.level, a)
    ensures Inv(dag, cnt, m, Above(w, a))
  {
    var far := Far(w.level, w.edges, a);
    if far != {} { AboveDummy(dag, cnt, m, w, a, far); }
  }

  /** Pass a at `a` makes `a` tight above and keeps the others so. */
  lemma AboveTight(w: Work, a: nat, x: nat)
    requires Rising(w.level, w.edges) && a in w.level && Odd(w.level, a)
    requires a < |w.fa| && |w.fa| !in w.level
    requires x == a || (x in Above(w, a).level && x !in w.level) || TightOut(w.level, w.edges, x)
    ensures TightOut(Above(w, a).level, Above(w, a).edges, x)
  {
    if Far(w.level, w.edges, a) == {} {
      if x == a { NotFar(w.level, w.edges, a); }
    } else if x == a {
      SplitOutTight(w.level, w.edges, a, |w.fa|);
    } else {
      SplitOutKeepsOut(w.level, w.edges, a, |w.fa|, x);
    }
  }

  lemma AboveReach(w: Work, a: nat, vs: set<nat>)
    requires Rising(w.level, w.edges) && a in w.level && a < |w.fa| && |w.fa| !in w.level
    requires forall x | x in vs :: x in w.level
    ensures SameReach(vs, w.edges, Above(w, a).edges)
  {
    SplitOutReach(w.edges, a, |w.fa|, Far(w.level, w.edges, a), vs);
  }

  lemma AboveTracks(cnt: nat, w: Work, a: nat)
    requires Rising(w.level, w.edges) && a in w.level && Odd(w.level, a) && a < |w.fa|
    requires |w.fa| !in w.level && cnt <= |w.fa|
    ensures Tracks(cnt, w, Above(w, a))
  {
  }

  lemma AboveStrands(w: Work, a: nat)
    requires Rising(w.level, w.edges) && a in w.level && Odd(w.level, a) && a < |w.fa|
    requires |w.fa| !in w.level && |w.fa| == |w.labelIn| == |w.labelOut|
    ensures KeepsStranded(w, Above(w, a))
  {
    forall u: nat | Stranded(w, u) ensures Stranded(Above(w, a), u) {
      StrandedAbove(w, a, u);
    }
  }

  lemma StrandedAbove(w: Work, a: nat, u: nat)
    requires Rising(w.level, w.edges) && a in w.level && Odd(w.level, a) && a < |w.fa|
    requires |w.fa| !in w.level && |w.fa| == |w.labelIn| == |w.labelOut| && Stranded(w, u)
    ensures Stranded(Above(w, a), u)
  {
    var w' := Above(w, a);
    if u in w'.level {
      forall s | s in Succs(w'.edges, u) ensures Strands(w', u, s) {
        if s in Succs(w.edges, u) { assert Strands(w, u, s); }
      }
    }
  }

  lemma NotFar(level: map<nat, nat>, g: Graph, a: nat)
    requires Rising(level, g) && a in level && Far(level, g, a) == {}
    ensures TightOut(level, g, a)
  {
    forall y | y in Succs(g, a) ensures y in level && level[y] == level[a] + 1 {
      assert (a, y) in g && y !in Far(level, g, a);
    }
  }

  lemma BelowDummy(dag: Graph, cnt: nat, m: nat, w: Work, a: nat, near: set<nat>)
    requires Inv(dag, cnt, m, w) && a in w.level && Odd(w.level, a)
    requires near == Near(w.level, w.edges, a) != {}
    ensures Inv(dag, cnt, m, WithDummy(w, a, w.level[a] - 1, SplitIn(w.edges, a, |w.fa|, near)))
  {
    SplitInLevels(w.level, w.edges, a, |w.fa|, m);
    OriginsSplitIn(dag, cnt, w.fa, w.edges, a, near);
    DummyKeeps(dag, cnt, w, a, w.level[a] - 1, SplitIn(w.edges, a, |w.fa|, near));
  }

  lemma BelowKeeps(dag: Graph, cnt: nat, m: nat, w: Work, a: nat)
    requires Inv(dag, cnt, m, w) && a in w.level && Odd(w.level, a)
    ensures Inv(dag, cnt, m, Below(w, a))
  {
    var near := Near(w.level, w.edges, a);
    if near != {} { BelowDummy(dag, cnt, m, w, a, near); }
  }

  /** Pass b at `a` makes `a` tight below and keeps the others so. */
  lemma BelowTight(w: Work, a: nat, x: nat)
    requires Rising(w.level, w.edges) && a in w.level && Odd(w.level, a)
    requires a < |w.fa| && |w.fa| !in w.level && AllTightOut(w.level, w.edges)
    requires x == a || (x in Below(w, a).level && x !in w.level) || TightIn(w.level, w.edges, x)
    ensures TightIn(Below(w, a).level, Below(w, a).edges, x)
  {
    if Near(w.level, w.edges, a) == {} {
      if x == a { NotNear(w.level, w.edges, a); }
    } else if x == a {
      SplitInTight(w.level, w.edges, a, |w.fa|);
    } else {
      SplitInKeepsIn(w.level, w.edges, a, |w.fa|, x);
    }
  }

  lemma BelowKeepsOut(w: Work, a: nat)
    requires Rising(w.level, w.edges) && a in w.level && Odd(w.level, a)
    requires a < |w.fa| && |w.fa| !in w.level && AllTightOut(w.level, w.edges)
    ensures AllTightOut(Below(w, a).level, Below(w, a).edges)
  {
    SplitInKeepsOut(w.level, w.edges, a, |w.fa|);
  }

  lemma BelowReach(w: Work, a: nat, vs: set<nat>)
    requires Rising(w.level, w.edges) && a in w.level && a < |w.fa| && |w.fa| !in w.level
    requires forall x | x in vs :: x in w.level
    ensures SameReach(vs, w.edges, Below(w, a).edges)
  {
    SplitInReach(w.edges, a, |w.fa|, Near(w.level, w.edges, a), vs);
  }

  lemma BelowTracks(cnt: nat, w: Work, a: nat)
    requires Rising(w.level, w.edges) && a in w.level && Odd(w.level, a) && a < |w.fa|
    requires |w.fa| !in w.level && cnt <= |w.fa|
    ensures Tracks(cnt, w, Below(w, a))
  {
  }

  lemma BelowStrands(w: Work, a: nat)
    requires Rising(w.level, w.edges) && a in w.level && Odd(w.level, a) && a < |w.fa|
    requires |w.fa| !in w.level && |w.fa| == |w.labelIn| == |w.labelOut|
    ensures KeepsStranded(w, Below(w, a))
  {
    forall u: nat | Stranded(w, u) ensures Stranded(Below(w, a), u) {
      StrandedBelow(w, a, u);
    }
  }

  lemma StrandedBelow(w: Work, a: nat, u: nat)
    requires Rising(w.level, w.edges) && a in w.level && Odd(w.level, a) && a < |w.fa|
    requires |w.fa| !in w.level && |w.fa| == |w.labelIn| == |w.labelOut| && Stranded(w, u)
    ensures Stranded(Below(w, a), u)
  {
    var w' := Below(w, a);
    if u in w'.level {
      forall s | s in Succs(w'.edges, u) ensures Strands(w', u, s) {
        if s in Succs(w.edges, u) { assert Strands(w, u, s); }
      }
    }
  }

  lemma NotNear(level: map<nat, nat>, g: Graph, a: nat)
    requires Rising(level, g) && a in level && Odd(level, a) && Near(level, g, a) == {}
    requires AllTightOut(level, g)
    ensures TightIn(level, g, a)
  {
    forall y | y in Preds(g, a) ensures y in level && level[y] + 1 == level[a] {
      assert (y, a) in g;
      LowerNeighbour(level, g, a, y);
    }
  }

  // ---------------------------------------------------------------------------
  // Pass c at one vertex, and the closing of the labels.
  // ---------------------------------------------------------------------------

  /** Pass c at an odd vertex: its labels grow by those of its neighbours, which are
      joined in its place. */
  ghost function Drop(w: Work, a: nat): Work
    requires a < |w.labelIn| == |w.labelOut|
    requires forall x, y | (x, y) in w.edges :: x < |w.labelIn| && y < |w.labelIn|
  {
    Work(w.level - {a}, Bridge(w.edges, a), w.fa,
         w.labelIn[a := w.labelIn[a] + Gather(w.labelIn, Succs(w.edges, a))],
         w.labelOut[a := w.labelOut[a] + Gather(w.labelOut, Preds(w.edges, a))],
         w.order + [a])
  }

  /** Each entry of the labels of `i` brings its own labels along. */
  ghost function CloseAt(w: Work, i: nat): Work
    requires i < |w.labelIn| == |w.labelOut|
    requires forall e | e in w.labelIn[i] :: e < |w.labelIn|
    requires forall e | e in w.labelOut[i] :: e < |w.labelOut|
  {
    w.(labelIn := w.labelIn[i := w.labelIn[i] + Gather(w.labelIn, w.labelIn[i])],
       labelOut := w.labelOut[i := w.labelOut[i] + Gather(w.labelOut, w.labelOut[i])])
  }

  lemma DropAccounted(level: map<nat, nat>, fa: seq<nat>, order: seq<nat>, a: nat)
    requires Accounted(level, fa, order) && a in level
    ensures Accounted(level - {a}, fa, order + [a])
  {
    assert forall x: nat :: x in order + [a] <==> x in order || x == a;
  }

  lemma CloseTracks(cnt: nat, w: Work, i: nat)
    requires i < |w.labelIn| == |w.labelOut|
    requires forall e | e in w.labelIn[i] :: e < |w.labelIn|
    requires forall e | e in w.labelOut[i] :: e < |w.labelOut|
    ensures Tracks(cnt, w, CloseAt(w, i))
  {
  }

  /** `l'` is `l` with the labels 0 to n-1 closed, from the last one down: each entry brings
      its own labels along, which are closed already if it has a larger number. */
  ghost predicate ClosedOver(l: seq<set<nat>>, l': seq<set<nat>>, n: nat) {
    ClosedFrom(l, l', 0, n)
  }

  /** The same for the labels from `i` on. */
  ghost predicate ClosedFrom(l: seq<set<nat>>, l': seq<set<nat>>, i: nat, n: nat) {
    && i <= n <= |l| == |l'| && (forall k, e | 0 <= k < |l| && e in l[k] :: e < |l|)
    && (forall k | i <= k < n :: l'[k] == l[k] + Gather(l[..k + 1] + l'[k + 1..], l[k]))
    && (forall k | 0 <= k < |l| && !(i <= k < n) :: l'[k] == l[k])
  }

  lemma ClosedNext(l: seq<set<nat>>, l': seq<set<nat>>, i: nat, n: nat)
    requires ClosedFrom(l, l', i + 1, n)
    ensures ClosedFrom(l, l'[i := l'[i] + Gather(l', l'[i])], i, n)
  {
    var l'' := l'[i := l'[i] + Gather(l', l'[i])];
    assert l' == l[..i + 1] + l'[i + 1..];
    forall k | i <= k < n ensures l''[k] == l[k] + Gather(l[..k + 1] + l''[k + 1..], l[k]) {
      assert l''[k + 1..] == l'[k + 1..];
    }
  }

  /** Each entry has brought its own labels along. */
  lemma ClosedBrings(l: seq<set<nat>>, l': seq<set<nat>>, n: nat, i: nat, e: nat)
    requires ClosedOver(l, l', n) && i < n && e in l[i]
    ensures e < |l| && l[e] <= l'[i]
  {
    var mid := l[..i + 1] + l'[i + 1..];
    assert e > i ==> mid[e] == l'[e] && l[e] <= l'[e];
    assert l[e] <= mid[e];
  }

  ghost predicate Closes(w: Work, w': Work) {
    && w' == w.(labelIn := w'.labelIn, labelOut := w'.labelOut)
    && ClosedOver(w.labelIn, w'.labelIn, |w.order|) && ClosedOver(w.labelOut, w'.labelOut, |w.order|)
  }

  lemma CloseStrands(w: Work, i: nat)
    requires i < |w.labelIn| == |w.labelOut|
    requires forall e | e in w.labelIn[i] :: e < |w.labelIn|
    requires forall e | e in w.labelOut[i] :: e < |w.labelOut|
    ensures KeepsStranded(w, CloseAt(w, i))
  {
    var w' := CloseAt(w, i);
    forall u: nat | Stranded(w, u) ensures Stranded(w', u) {
      if u in w.level {
        forall s | s in Succs(w'.edges, u) ensures Strands(w', u, s) { assert Strands(w, u, s); }
      }
    }
  }

  // ---------------------------------------------------------------------------
  // What the labels answer in the end.
  // ---------------------------------------------------------------------------

  /** Every edge of `dag` whose levels meet is noted. */
  ghost predicate NotesEdges(dag: Graph, tln: seq<nat>, w: Work) {
    forall up, u, v {:trigger Noted(w, up, u, v)} |
      (u, v) in dag && u < |tln| && v < |tln| && MeetsBy(up, tln[u], tln[v]) :: Noted(w, up, u, v)
  }

  ghost predicate Chain(dag: Graph, tln: seq<nat>, up: bool, up': bool, u: nat, v: nat, x: nat) {
    && (u, v) in dag && (v, x) in dag && u < |tln| && v < |tln| && x < |tln|
    && MeetsBy(up, tln[u], tln[v]) && MeetsBy(up', tln[v], tln[x])
  }

  /** And so are the ends of every two such edges, one behind the other, of the same kind. */
  ghost predicate NotesChains(dag: Graph, tln: seq<nat>, w: Work) {
    forall up, u, v, x {:trigger Chain(dag, tln, up, up, u, v, x)} | Chain(dag, tln, up, up, u, v, x) :: Noted(w, up, u, x)
  }

  /** All edges of `u` miss their upper ends. */
  ghost predicate Misses(dag: Graph, tln: seq<nat>, u: nat) {
    u < |tln| && forall v | (u, v) in dag :: v < |tln| && Missed(tln[u], tln[v])
  }

  /** A vertex all of whose edges miss their upper ends is answered for itself only. */
  ghost predicate LosesMissed(dag: Graph, tln: seq<nat>, w: Work) {
    forall u: nat, v: nat {:trigger Answered(w, u, v)} | Misses(dag, tln, u) && v < |tln| :: Answered(w, u, v) <==> u == v
  }

  /** Once the working graph is used up, everything tracked is noted. */
  lemma AllNoted(dag: Graph, cnt: nat, tln: seq<nat>, w0: Work, w: Work)
    requires Tracks(cnt, w0, w) && w.level == map[] && w0.edges == dag && |tln| == cnt
    requires forall x: nat | x < cnt :: x in w0.level && w0.level[x] == tln[x]
    ensures NotesEdges(dag, tln, w)
  {
    forall up, u: nat, v: nat | (u, v) in dag && u < |tln| && v < |tln| && MeetsBy(up, tln[u], tln[v]) ensures Noted(w, up, u, v) {
      assert Tracked(w0, cnt, up, u, v);
      assert Tracked(w, cnt, up, u, v);
    }
  }

  /** The last closure, over all vertices, joins the notes of neighbouring edges. */
  lemma ChainsNoted(dag: Graph, tln: seq<nat>, w: Work, w': Work)
    requires NotesEdges(dag, tln, w) && Closes(w, w') && |tln| <= |w.order|
    ensures NotesChains(dag, tln, w')
  {
    forall up, u: nat, v: nat, x: nat | Chain(dag, tln, up, up, u, v, x) ensures Noted(w', up, u, x) {
      assert Noted(w, up, u, v) && Noted(w, up, v, x);
      if up {
        ClosedBrings(w.labelIn, w'.labelIn, |w.order|, u, v);
      } else {
        ClosedBrings(w.labelOut, w'.labelOut, |w.order|, x, v);
      }
    }
  }

  lemma ClosingNotes(dag: Graph, tln: seq<nat>, w: Work, w': Work)
    requires NotesEdges(dag, tln, w) && Wider(w.labelIn, w'.labelIn) && Wider(w.labelOut, w'.labelOut)
    ensures NotesEdges(dag, tln, w')
  {
    forall up, u: nat, v: nat | (u, v) in dag && u < |tln| && v < |tln| && MeetsBy(up, tln[u], tln[v]) ensures Noted(w', up, u, v) {
      assert Noted(w, up, u, v);
    }
  }

  /** What is noted is answered. */
  lemma NotedAnswered(dag: Graph, cnt: nat, m: nat, w: Work, up: bool, u: nat, v: nat)
    requires Inv(dag, cnt, m, w) && u < cnt && v < cnt && Noted(w, up, u, v)
    ensures Answered(w, u, v)
  {
    if up {
      assert v in w.labelIn[u] * w.labelOut[v];
    } else {
      assert u in w.labelIn[u] * w.labelOut[v];
    }
  }

  /** Edges whose levels meet are answered. */
  lemma EdgeAnswered(dag: Graph, cnt: nat, m: nat, tln: seq<nat>, w: Work, u: nat, v: nat)
    requires Inv(dag, cnt, m, w) && NotesEdges(dag, tln, w) && |tln| == cnt
    requires (u, v) in dag && u < cnt && v < cnt && Meets(tln[u], tln[v])
    ensures Answered(w, u, v)
  {
    MeetsSomehow(tln[u], tln[v]);
    var up := MeetsBy(true, tln[u], tln[v]);
    assert Noted(w, up, u, v);
    NotedAnswered(dag, cnt, m, w, up, u, v);
  }

  /** Two edges one behind the other whose levels meet are answered, unless they meet below
      the middle vertex with an even, and above it with an odd lower end. */
  lemma ChainAnswered(dag: Graph, cnt: nat, m: nat, tln: seq<nat>, w: Work, up: bool, up': bool, u: nat, v: nat, x: nat)
    requires Inv(dag, cnt, m, w) && NotesEdges(dag, tln, w) && NotesChains(dag, tln, w) && |tln| == cnt
    requires Chain(dag, tln, up, up', u, v, x) && (up || !up')
    ensures Answered(w, u, x)
  {
    if up == up' {
      NotedAnswered(dag, cnt, m, w, up, u, x);
    } else {
      assert Noted(w, true, u, v) && Noted(w, false, v, x);
      assert v in w.labelIn[u] * w.labelOut[x];
    }
  }

  /** A stranded vertex reaches others, but is answered for itself only. */
  lemma StrandedLost(dag: Graph, cnt: nat, m: nat, w: Work, u: nat, v: nat)
    requires Inv(dag, cnt, m, w) && Stranded(w, u) && u < cnt && v < cnt
    ensures Answered(w, u, v) <==> u == v
  {
    if u == v { assert u in w.labelIn[u] * w.labelOut[u]; }
  }

  lemma MissesStranded(dag: Graph, cnt: nat, tln: seq<nat>, w: Work, u: nat)
    requires Misses(dag, tln, u) && w.edges == dag && |tln| == cnt
    requires |w.labelIn| == |w.labelOut| == cnt && forall x: nat | x < cnt :: w.labelIn[x] == {x} && w.labelOut[x] == {x}
    requires forall x: nat :: x in w.level <==> x < cnt
    requires forall x: nat | x < cnt :: w.level[x] == tln[x]
    ensures Stranded(w, u)
  {
    forall s | s in Succs(w.edges, u) ensures Strands(w, u, s) { assert (u, s) in dag; }
  }

  /** Label entries are vertices of the original graph, which stand for themselves. */
  lemma OwnOrigin(fa: seq<nat>, cnt: nat, s: set<nat>)
    requires cnt <= |fa| && (forall x | 0 <= x < cnt :: fa[x] == x) && forall e | e in s :: e < cnt
    ensures s == set e | e in s :: fa[e]
  {
    var t := set e | e in s :: fa[e];
    assert forall e | e in s :: fa[e] == e;
    assert forall e :: e in s ==> fa[e] in t;
  }

  /** The removed vertices are no more than there are. */
  lemma OrderFits(level: map<nat, nat>, fa: seq<nat>, order: seq<nat>)
    requires Accounted(level, fa, order)
    ensures |order| <= |fa|
  {
    Topological.DistinctBound(order, |fa|);
  }

  // ---------------------------------------------------------------------------
  // The number of rounds.
  // ---------------------------------------------------------------------------

  function FloorLog2(m: nat): nat {
    if m < 2 then 0 else 1 + FloorLog2(m / 2)
  }

  /** `m` halved `k` times, rounding down each time. */
  function Halved(m: nat, k: nat): nat {
    if k == 0 then m else Halved(m, k - 1) / 2
  }

  lemma {:induction false} HalvedShift(m: nat, k: nat)
    requires 0 < k
    ensures Halved(m, k) == Halved(m / 2, k - 1)
  {
    if k > 1 { HalvedShift(m, k - 1); }
  }

  /** That many halvings bring `m` to zero, and one fewer do not. */
  lemma {:induction false} RoundsSuffice(m: nat)
    requires 1 <= m
    ensures Halved(m, FloorLog2(m) + 1) == 0 && Halved(m, FloorLog2(m)) == 1
  {
    if m >= 2 {
      RoundsSuffice(m / 2);
      HalvedShift(m, FloorLog2(m) + 1);
      HalvedShift(m, FloorLog2(m));
    }
  }
}
