// TFLabel::construct: topological folding with reachability labels.
module TfLabel {
  import opened Options
  import opened Paths
  import opened Folding
  import opened Labels
  import opened Passes

  /** All of 0..n-1 on level 1, as they are stored at first. */
  function Flat(n: nat): (level: map<nat, nat>)
    ensures forall x: nat :: x in level <==> x < n
    ensures forall x | x in level :: level[x] == 1
  {
    if n == 0 then map[] else Flat(n - 1)[n - 1 := 1]
  }

  class Folder {
    // The scan order of the store on vertex ids, as positions on a line.
    const key: nat -> real
    // The graph the construction starts from, with vertices below `sccCnt`.
    ghost const dag: Graph
    const sccCnt: nat

    // The working graph: vertex levels and edges between its vertices.
    var level: map<nat, nat>
    var edges: Graph
    var fa: seq<nat>
    var labelIn: seq<set<nat>>
    var labelOut: seq<set<nat>>
    var order: seq<nat>

    ghost function Now(): Work
      reads this
    {
      Work(level, edges, fa, labelIn, labelOut, order)
    }

    /** `m` bounds the levels. */
    ghost predicate Valid(m: nat)
      reads this
    {
      Distinct(key) && Inv(dag, sccCnt, m, Now())
    }

    constructor (key: nat -> real, dag: seq<seq<nat>>)
      requires Closed(dag)
      ensures this.key == key && this.dag == Edges(dag) && sccCnt == |dag|
      ensures level == Flat(|dag|) && edges == Edges(dag) && order == []
      ensures fa == seq(|dag|, i => i)
      ensures labelIn == labelOut == seq(|dag|, i => {})
    {
      this.key, this.sccCnt := key, |dag|;
      this.dag := Edges(dag);
      level, edges := Flat(|dag|), Edges(dag);
      fa := seq(|dag|, i => i);
      labelIn := seq(|dag|, i => {});
      labelOut := seq(|dag|, i => {});
      order := [];
    }

    /** The scan of the store: the next vertex id after `from`. */
    method NextNode(from: Option<nat>) returns (r: Option<nat>)
      ensures IsNext(key, level.Keys, from, r)
    {
      r := None;
      var todo := level.Keys;
      while todo != {}
        invariant todo <= level.Keys
        invariant IsNext(key, level.Keys - todo, from, r)
        decreases todo
      {
        var x :| x in todo;
        todo := todo - {x};
        if IsAfter(key, from, x) && (r.None? || key(x) < key(r.value)) {
          r := Some(x);
        }
      }
    }

    /** Stores a dummy for `a` on level `l`. */
    method AddDummy(a: nat, l: nat)
      requires a < |fa|
      modifies this`level, this`fa, this`labelIn, this`labelOut
      ensures level == old(level)[|old(fa)| := l] && fa == old(fa) + [old(fa)[a]]
      ensures labelIn == old(labelIn) + [{}] && labelOut == old(labelOut) + [{}]
    {
      level := level[|fa| := l];
      fa := fa + [fa[a]];
      labelIn, labelOut := labelIn + [{}], labelOut + [{}];
    }

    /** Pass a at the vertex `a`: one dummy takes over the edges that go up more
        than one level. */
    method SplitAbove(a: nat)
      requires a in level && a < |fa| && |fa| !in level
      requires forall e | e in edges :: e.1 in level
      modifies this`level, this`edges, this`fa, this`labelIn, this`labelOut
      ensures Now() == Above(old(Now()), a)
    {
      var curl, n := level[a], |fa|;
      ghost var far := Far(level, edges, a);
      var todo, removed := Succs(edges, a), {};
      while todo != {}
        invariant todo <= Succs(old(edges), a) && removed == far - todo
        invariant removed == {} ==> Now() == old(Now())
        invariant removed != {} ==> Now() == WithDummy(old(Now()), a, curl + 1, old(edges) + {(a, n)} + FanOut(n, removed))
        decreases todo
      {
        var y :| y in todo;
        todo := todo - {y};
        if level[y] > curl + 1 {
          if removed == {} {
            AddDummy(a, curl + 1);
          }
          removed := removed + {y};
          edges := edges + {(a, n), (n, y)};
        }
      }
      edges := edges - FanOut(a, removed);
    }

    /** Pass b at the vertex `a`: one dummy takes over the edges that come from even
        vertices more than one level below. */
    method SplitBelow(a: nat)
      requires a in level && 1 <= level[a] && a < |fa| && |fa| !in level
      requires forall e | e in edges :: e.0 in level
      modifies this`level, this`edges, this`fa, this`labelIn, this`labelOut
      ensures Now() == Below(old(Now()), a)
    {
      var curl, n := level[a], |fa|;
      ghost var near := Near(level, edges, a);
      var todo, removed := Preds(edges, a), {};
      while todo != {}
        invariant todo <= Preds(old(edges), a) && removed == near - todo
        invariant removed == {} ==> Now() == old(Now())
        invariant removed != {} ==> Now() == WithDummy(old(Now()), a, curl - 1, old(edges) + {(n, a)} + FanIn(removed, n))
        decreases todo
      {
        var y :| y in todo;
        todo := todo - {y};
        var tmp := level[y];
        if tmp < curl - 1 && tmp % 2 == 0 {
          if removed == {} {
            AddDummy(a, curl - 1);
          }
          removed := removed + {y};
          edges := edges + {(n, a), (y, n)};
        }
      }
      edges := edges - FanIn(removed, a);
    }

    /** Adds the in-labels of `outNode` to that of `a`. */
    method GrowIn(a: nat, outNode: set<nat>)
      requires a < |labelIn| && a !in outNode && forall y | y in outNode :: y < |labelIn|
      modifies this`labelIn
      ensures labelIn == old(labelIn)[a := old(labelIn)[a] + Gather(old(labelIn), outNode)]
    {
      ghost var l := labelIn;
      var todo := outNode;
      assert l[a] + Gather(l, outNode - todo) == l[a];
      while todo != {}
        invariant todo <= outNode
        invariant labelIn == l[a := l[a] + Gather(l, outNode - todo)]
        decreases todo
      {
        var y :| y in todo;
        labelIn := labelIn[a := labelIn[a] + labelIn[y]];
        assert l[a] + Gather(l, outNode - todo) + l[y] == l[a] + Gather(l, outNode - (todo - {y}));
        todo := todo - {y};
      }
      assert outNode - todo == outNode;
    }

    /** Adds the out-labels of `inNode` to that of `a`. */
    method GrowOut(a: nat, inNode: set<nat>)
      requires a < |labelOut| && a !in inNode && forall y | y in inNode :: y < |labelOut|
      modifies this`labelOut
      ensures labelOut == old(labelOut)[a := old(labelOut)[a] + Gather(old(labelOut), inNode)]
    {
      ghost var l := labelOut;
      var todo := inNode;
      assert l[a] + Gather(l, inNode - todo) == l[a];
      while todo != {}
        invariant todo <= inNode
        invariant labelOut == l[a := l[a] + Gather(l, inNode - todo)]
        decreases todo
      {
        var y :| y in todo;
        labelOut := labelOut[a := labelOut[a] + labelOut[y]];
        assert l[a] + Gather(l, inNode - todo) + l[y] == l[a] + Gather(l, inNode - (todo - {y}));
        todo := todo - {y};
      }
      assert inNode - todo == inNode;
    }

    /** Pass c at the odd vertex `a`: it takes over its neighbours' labels, its
        neighbours are joined, and it leaves the working graph. */
    method RemoveOdd(a: nat)
      requires a in level && a < |labelIn| == |labelOut|
      requires forall x, y | (x, y) in edges :: x < |labelIn| && y < |labelIn| && x != y
      modifies this`level, this`edges, this`labelIn, this`labelOut, this`order
      ensures Now() == Drop(old(Now()), a)
    {
      var outNode, inNode := Succs(edges, a), Preds(edges, a);
      GrowIn(a, outNode);
      GrowOut(a, inNode);
      edges := edges + Product(inNode, outNode);
      order := order + [a];
      level := level - {a};
      edges := edges - Incident(edges, a);
      assert edges == Bridge(old(edges), a);
    }

    /** Pass a: afterwards the edges that leave odd levels go one level up, and the
        old vertices reach each other as before. */
    method PassA(ghost m: nat)
      requires Valid(m)
      modifies this`level, this`edges, this`fa, this`labelIn, this`labelOut
      ensures Valid(m) && AllTightOut(level, edges)
      ensures Grown(old(level), level)
      ensures SameReach(old(level).Keys, old(edges), edges)
      ensures Tracks(sccCnt, old(Now()), Now()) && KeepsStranded(old(Now()), Now())
    {
      ghost var w0 := Now();
      var it := NextNode(None);
      ghost var before: Option<nat> := None;
      while it.Some?
        invariant MidA(key, dag, sccCnt, m, w0, before, Now()) && IsNext(key, level.Keys, before, it)
        decreases Ahead(key, level, before, true), Ahead(key, level, before, false)
      {
        var a := it.value;
        ghost var w := Now();
        if level[a] % 2 == 1 {
          SplitAbove(a);
        }
        StepA(key, dag, sccCnt, m, w0, before, w, a);
        before := it;
        it := NextNode(it);
      }
    }

    /** Pass b: afterwards also the edges that enter odd levels come from one level below. */
    method PassB(ghost m: nat)
      requires Valid(m) && AllTightOut(level, edges)
      modifies this`level, this`edges, this`fa, this`labelIn, this`labelOut
      ensures Valid(m) && AllTightOut(level, edges) && AllTightIn(level, edges)
      ensures Grown(old(level), level)
      ensures SameReach(old(level).Keys, old(edges), edges)
      ensures Tracks(sccCnt, old(Now()), Now()) && KeepsStranded(old(Now()), Now())
    {
      ghost var w0 := Now();
      var it := NextNode(None);
      ghost var before: Option<nat> := None;
      while it.Some?
        invariant MidB(key, dag, sccCnt, m, w0, before, Now()) && IsNext(key, level.Keys, before, it)
        decreases Ahead(key, level, before, true), Ahead(key, level, before, false)
      {
        var a := it.value;
        ghost var w := Now();
        if level[a] % 2 == 1 {
          SplitBelow(a);
        }
        StepB(key, dag, sccCnt, m, w0, before, w, a);
        before := it;
        it := NextNode(it);
      }
    }

    /** Pass c: exactly the even vertices remain, on half their levels, edges rise
        again, and the remaining vertices reach each other as before. */
    method PassC(ghost m: nat)
      requires Valid(m) && AllTightOut(level, edges) && AllTightIn(level, edges)
      modifies this`level, this`edges, this`labelIn, this`labelOut, this`order
      ensures Valid(m / 2) && Folded(old(level), level)
      ensures SameReach(level.Keys, old(edges), edges)
      ensures Tracks(sccCnt, old(Now()), Now()) && KeepsStranded(old(Now()), Now())
    {
      ghost var w0 := Now();
      BeginStranded(w0);
      var it := NextNode(None);
      ghost var before: Option<nat> := None;
      while it.Some?
        invariant MidC(key, dag, sccCnt, w0, before, Now()) && IsNext(key, level.Keys, before, it)
        decreases Ahead(key, level, before, false)
      {
        var a := it.value;
        ghost var w := Now();
        var following := NextNode(it);
        if level[a] % 2 == 0 {
          level := level[a := level[a] / 2];
        } else {
          RemoveOdd(a);
        }
        assert Now() == Reduce(w, a);
        StepC(key, dag, sccCnt, w0, before, w, a);
        ReduceKeys(w, a);
        ScanAdvances(key, w.level, before, a, level);
        before := it;
        it := following;
      }
      EndC(key, dag, sccCnt, m, w0, before, Now());
    }

    /** The closure: from the last index down, label entries bring their labels along. */
    method CloseLabels(ghost m: nat)
      requires Valid(m)
      modifies this`labelIn, this`labelOut
      ensures Valid(m) && Closes(old(Now()), Now())
      ensures forall i, e | 0 <= i < |order| && e in old(labelIn)[i] :: e < |labelIn| && old(labelIn)[e] <= labelIn[i]
      ensures forall i, e | 0 <= i < |order| && e in old(labelOut)[i] :: e < |labelOut| && old(labelOut)[e] <= labelOut[i]
      ensures Tracks(sccCnt, old(Now()), Now()) && KeepsStranded(old(Now()), Now())
    {
      ghost var w0 := Now();
      OrderFits(level, fa, order);
      var i: nat := |order|;
      while 0 < i
        invariant i <= |order| <= |fa| && Valid(m) && Now() == w0.(labelIn := labelIn, labelOut := labelOut)
        invariant ClosedFrom(w0.labelIn, labelIn, i, |order|) && ClosedFrom(w0.labelOut, labelOut, i, |order|)
        invariant Tracks(sccCnt, w0, Now()) && KeepsStranded(w0, Now())
      {
        i := i - 1;
        ghost var w := Now();
        CloseOne(i, m);
        CloseNext(sccCnt, w0, w, i);
      }
      ClosesBring(w0, Now());
    }

    method CloseOne(i: nat, ghost m: nat)
      requires Valid(m) && i < |fa|
      modifies this`labelIn, this`labelOut
      ensures Valid(m) && Now() == CloseAt(old(Now()), i)
    {
      ghost var w := Now();
      CloseOneIn(i);
      CloseOneOut(i);
      SoundClose(dag, sccCnt, fa, edges, w.labelIn, w.labelOut, i);
    }

    method CloseOneIn(i: nat)
      requires i < |labelIn| && forall e | e in labelIn[i] :: e < |labelIn|
      modifies this`labelIn
      ensures labelIn == old(labelIn)[i := old(labelIn)[i] + Gather(old(labelIn), old(labelIn)[i])]
    {
      ghost var l := labelIn;
      var tmp := labelIn[i];
      var todo := tmp;
      assert l[i] + Gather(l, tmp - todo) == l[i];
      while todo != {}
        invariant todo <= tmp
        invariant labelIn == l[i := l[i] + Gather(l, tmp - todo)]
        decreases todo
      {
        var e :| e in todo;
        assert labelIn[i] + labelIn[e] == labelIn[i] + l[e];
        labelIn := labelIn[i := labelIn[i] + labelIn[e]];
        assert l[i] + Gather(l, tmp - todo) + l[e] == l[i] + Gather(l, tmp - (todo - {e}));
        todo := todo - {e};
      }
      assert tmp - todo == tmp;
    }

    method CloseOneOut(i: nat)
      requires i < |labelOut| && forall e | e in labelOut[i] :: e < |labelOut|
      modifies this`labelOut
      ensures labelOut == old(labelOut)[i := old(labelOut)[i] + Gather(old(labelOut), old(labelOut)[i])]
    {
      ghost var l := labelOut;
      var tmp := labelOut[i];
      var todo := tmp;
      assert l[i] + Gather(l, tmp - todo) == l[i];
      while todo != {}
        invariant todo <= tmp
        invariant labelOut == l[i := l[i] + Gather(l, tmp - todo)]
        decreases todo
      {
        var e :| e in todo;
        assert labelOut[i] + labelOut[e] == labelOut[i] + l[e];
        labelOut := labelOut[i := labelOut[i] + labelOut[e]];
        assert l[i] + Gather(l, tmp - todo) + l[e] == l[i] + Gather(l, tmp - (todo - {e}));
        todo := todo - {e};
      }
      assert tmp - todo == tmp;
    }

    /** Label entries are replaced by the vertices they stand for; these are themselves. */
    method Relabel()
      requires sccCnt <= |fa| == |labelIn| == |labelOut|
      requires forall x | 0 <= x < sccCnt :: fa[x] == x && Within(labelIn[x]) && Within(labelOut[x])
      modifies this`labelIn, this`labelOut
      ensures Now() == old(Now())
    {
      ghost var lin, lout := labelIn, labelOut;
      for i := 0 to sccCnt
        invariant labelIn == lin && labelOut == lout
      {
        assert Within(lin[i]) && Within(lout[i]);
        OwnOrigin(fa, sccCnt, lin[i]);
        OwnOrigin(fa, sccCnt, lout[i]);
        labelIn := labelIn[i := set e | e in labelIn[i] :: fa[e]];
        labelOut := labelOut[i := set e | e in labelOut[i] :: fa[e]];
        assert lin[i := lin[i]] == lin && lout[i := lout[i]] == lout;
      }
    }

    ghost predicate Within(s: set<nat>) {
      forall e | e in s :: e < sccCnt
    }

    /** One round of folding.  `mid` is the state before the closure. */
    method Round(ghost m: nat) returns (ghost mid: Work)
      requires Valid(m)
      modifies this
      ensures Valid(m / 2)
      ensures forall x | x in old(level) :: x in level <==> old(level)[x] % 2 == 0
      ensures forall x | x in old(level) && x in level :: level[x] == old(level)[x] / 2
      ensures SameReach(old(level).Keys * level.Keys, old(edges), edges)
      ensures Tracks(sccCnt, old(Now()), mid) && Tracks(sccCnt, mid, Now()) && Closes(mid, Now())
      ensures KeepsStranded(old(Now()), Now())
    {
      ghost var w0 := Now();
      PassA(m);
      ghost var w1 := Now();
      PassB(m);
      ghost var w2 := Now();
      PassC(m);
      mid := Now();
      CloseLabels(m / 2);
      Relabel();
      RoundTracks(sccCnt, w0, w1, w2, mid, Now());
    }

    /** The store as `read` leaves it, before any level or label is known. */
    ghost predicate Initial()
      reads this
    {
      && (forall x: nat :: x in level <==> x < sccCnt)
      && edges == dag && order == [] && fa == seq(sccCnt, i => i)
      && labelIn == labelOut == seq(sccCnt, i => {})
    }

    /** The first loop of the construction: stores the level of each vertex. */
    method AssignLevels(tln: seq<nat>)
      requires Distinct(key) && |tln| == sccCnt && Initial()
      modifies this`level
      ensures Initial() && forall x | 0 <= x < sccCnt :: level[x] == tln[x]
    {
      var it := NextNode(None);
      ghost var before: Option<nat> := None;
      while it.Some?
        invariant Initial() && IsNext(key, level.Keys, before, it)
        invariant forall x | 0 <= x < sccCnt && !IsAfter(key, before, x) :: level[x] == tln[x]
        decreases Ahead(key, level, before, false)
      {
        var a := it.value;
        ghost var l := level;
        assert a in Ahead(key, l, before, false);
        level := level[a := tln[a]];
        assert level.Keys == l.Keys;
        before := it;
        it := NextNode(it);
      }
      assert forall x: nat | x < sccCnt :: IsAfter(key, before, x) ==> x in level.Keys;
    }

    /** The second loop: every vertex labels itself. */
    method SelfLabels()
      requires |labelIn| == |labelOut| == sccCnt
      modifies this`labelIn, this`labelOut
      ensures |labelIn| == |labelOut| == sccCnt
      ensures forall x | 0 <= x < sccCnt :: labelIn[x] == old(labelIn[x]) + {x} && labelOut[x] == old(labelOut[x]) + {x}
    {
      for i := 0 to sccCnt
        invariant |labelIn| == |labelOut| == sccCnt
        invariant forall x | 0 <= x < i :: labelIn[x] == old(labelIn[x]) + {x} && labelOut[x] == old(labelOut[x]) + {x}
        invariant forall x | i <= x < sccCnt :: labelIn[x] == old(labelIn[x]) && labelOut[x] == old(labelOut[x])
      {
        labelIn := labelIn[i := labelIn[i] + {i}];
        labelOut := labelOut[i := labelOut[i] + {i}];
      }
    }

    /** The whole construction: after the rounds the working graph is used up, every
        vertex has been removed exactly once, the labels are sound, and they answer
        every edge whose levels meet. */
    method Construct(tln: seq<nat>, maxx: nat)
      requires Distinct(key) && Initial()
      requires 1 <= maxx && |tln| == sccCnt
      requires forall x | 0 <= x < sccCnt :: 1 <= tln[x] <= maxx
      requires forall x, y | (x, y) in dag :: x < sccCnt && y < sccCnt && tln[x] < tln[y]
      modifies this
      ensures level == map[] && Valid(0)
      ensures forall x: nat :: x in order <==> x < |fa|
      ensures forall i, j | 0 <= i < j < |order| :: order[i] != order[j]
      ensures forall u, v | (u, v) in dag && Meets(tln[u], tln[v]) :: Answered(Now(), u, v)
      ensures NotesEdges(dag, tln, Now()) && NotesChains(dag, tln, Now()) && LosesMissed(dag, tln, Now())
    {
      AssignLevels(tln);
      SelfLabels();
      Started(dag, sccCnt, maxx, Now());
      ghost var w0 := Now();
      ghost var mid := Rounds(maxx);
      RoundsSuffice(maxx);
      assert level.Keys == {};
      EverythingOrdered(dag, sccCnt, Now());
      Finished(dag, sccCnt, tln, w0, mid, Now());
    }

    /** All rounds.  `mid` is the state before the last closure. */
    method Rounds(maxx: nat) returns (ghost mid: Work)
      requires Valid(maxx) && 1 <= maxx
      modifies this
      ensures Valid(Halved(maxx, FloorLog2(maxx) + 1))
      ensures Tracks(sccCnt, old(Now()), mid) && Tracks(sccCnt, mid, Now()) && Closes(mid, Now())
      ensures KeepsStranded(old(Now()), Now())
    {
      ghost var w0 := Now();
      var tf := FloorLog2(maxx) + 1;
      mid := w0;
      for ii := 1 to tf + 1
        invariant Valid(Halved(maxx, ii - 1)) && Tracks(sccCnt, w0, Now()) && KeepsStranded(w0, Now())
        invariant ii > 1 ==> Tracks(sccCnt, w0, mid) && Tracks(sccCnt, mid, Now()) && Closes(mid, Now())
      {
        ghost var w := Now();
        mid := Round(Halved(maxx, ii - 1));
        TracksTrans(sccCnt, w0, w, mid);
        TracksTrans(sccCnt, w0, mid, Now());
        StrandsTrans(w0, w, Now());
      }
    }
  }

  /** With levels and self labels in place the invariant holds. */
  lemma Started(dag: Graph, cnt: nat, m: nat, w: Work)
    requires forall x: nat :: x in w.level <==> x < cnt
    requires w.edges == dag && w.order == [] && w.fa == seq(cnt, i => i)
    requires |w.labelIn| == |w.labelOut| == cnt
    requires forall x: nat | x < cnt :: 1 <= w.level[x] <= m && w.labelIn[x] == {x} && w.labelOut[x] == {x}
    requires forall x, y | (x, y) in dag :: x < cnt && y < cnt && w.level[x] < w.level[y]
    ensures Inv(dag, cnt, m, w)
  {
    forall x: nat | x < cnt ensures Reach(dag, x, x) { ReachRefl(dag, x); }
    forall x, y | (x, y) in dag ensures Reach(dag, x, y) { ReachEdge(dag, x, y); }
  }

  lemma CloseNext(cnt: nat, w0: Work, w: Work, i: nat)
    requires i < |w.order| <= |w.labelIn| == |w.labelOut| && w == w0.(labelIn := w.labelIn, labelOut := w.labelOut)
    requires forall e | e in w.labelIn[i] :: e < |w.labelIn|
    requires forall e | e in w.labelOut[i] :: e < |w.labelOut|
    requires ClosedFrom(w0.labelIn, w.labelIn, i + 1, |w.order|) && ClosedFrom(w0.labelOut, w.labelOut, i + 1, |w.order|)
    requires Tracks(cnt, w0, w) && KeepsStranded(w0, w)
    ensures var w' := CloseAt(w, i);
      && ClosedFrom(w0.labelIn, w'.labelIn, i, |w.order|) && ClosedFrom(w0.labelOut, w'.labelOut, i, |w.order|)
      && Tracks(cnt, w0, w') && KeepsStranded(w0, w')
  {
    var w' := CloseAt(w, i);
    ClosedNext(w0.labelIn, w.labelIn, i, |w.order|);
    ClosedNext(w0.labelOut, w.labelOut, i, |w.order|);
    CloseTracks(cnt, w, i);
    CloseStrands(w, i);
    TracksTrans(cnt, w0, w, w');
    StrandsTrans(w0, w, w');
  }

  lemma ClosesBring(w: Work, w': Work)
    requires Closes(w, w')
    ensures forall i, e | 0 <= i < |w.order| && e in w.labelIn[i] :: e < |w.labelIn| && w.labelIn[e] <= w'.labelIn[i]
    ensures forall i, e | 0 <= i < |w.order| && e in w.labelOut[i] :: e < |w.labelOut| && w.labelOut[e] <= w'.labelOut[i]
  {
    forall i, e | 0 <= i < |w.order| && e in w.labelIn[i] ensures e < |w.labelIn| && w.labelIn[e] <= w'.labelIn[i] {
      ClosedBrings(w.labelIn, w'.labelIn, |w.order|, i, e);
    }
    forall i, e | 0 <= i < |w.order| && e in w.labelOut[i] ensures e < |w.labelOut| && w.labelOut[e] <= w'.labelOut[i] {
      ClosedBrings(w.labelOut, w'.labelOut, |w.order|, i, e);
    }
  }

  lemma RoundTracks(cnt: nat, w0: Work, w1: Work, w2: Work, mid: Work, w: Work)
    requires Tracks(cnt, w0, w1) && Tracks(cnt, w1, w2) && Tracks(cnt, w2, mid)
    requires KeepsStranded(w0, w1) && KeepsStranded(w1, w2) && KeepsStranded(w2, mid) && KeepsStranded(mid, w)
    ensures Tracks(cnt, w0, mid) && KeepsStranded(w0, w)
  {
    TracksTrans(cnt, w0, w1, w2);
    TracksTrans(cnt, w0, w2, mid);
    StrandsTrans(w0, w1, w2);
    StrandsTrans(w0, w2, mid);
    StrandsTrans(w0, mid, w);
  }

  /** In the end as many vertices have been removed as there are, so that the last closure
      covers all of them. */
  lemma EverythingOrdered(dag: Graph, cnt: nat, w: Work)
    requires Inv(dag, cnt, 0, w) && w.level == map[]
    ensures cnt <= |w.order|
  {
    assert forall x: nat | x < cnt :: x in w.order;
    ListsAll(w.order, cnt);
  }

  lemma {:induction false} ListsAll(s: seq<nat>, n: nat)
    requires forall x: nat | x < n :: x in s
    ensures n <= |s|
  {
    if n > 0 {
      var last: nat := n - 1;
      assert last in s;
      var k :| 0 <= k < |s| && s[k] == last;
      var rest := s[..k] + s[k + 1..];
      forall x: nat | x < last ensures x in rest {
        assert x in s;
        assert s == s[..k] + [s[k]] + s[k + 1..];
      }
      ListsAll(rest, n - 1);
    }
  }

  /** The state in which the rounds begin. */
  ghost predicate Fresh(dag: Graph, tln: seq<nat>, w: Work) {
    && w.edges == dag && |w.labelIn| == |w.labelOut| == |tln|
    && (forall x: nat | x < |tln| :: w.labelIn[x] == {x} && w.labelOut[x] == {x})
    && (forall x: nat :: x in w.level <==> x < |tln|)
    && (forall x: nat | x < |tln| :: w.level[x] == tln[x])
  }

  /** What the labels answer once the working graph is used up. */
  lemma Finished(dag: Graph, cnt: nat, tln: seq<nat>, w0: Work, mid: Work, w: Work)
    requires Fresh(dag, tln, w0) && |tln| == cnt && forall x, y | (x, y) in dag :: x < cnt && y < cnt
    requires Tracks(cnt, w0, mid) && Tracks(cnt, mid, w) && Closes(mid, w) && KeepsStranded(w0, w)
    requires w.level == map[] && Inv(dag, cnt, 0, w) && cnt <= |w.order|
    ensures NotesEdges(dag, tln, w) && NotesChains(dag, tln, w) && LosesMissed(dag, tln, w)
    ensures forall u, v | (u, v) in dag && Meets(tln[u], tln[v]) :: Answered(w, u, v)
  {
    AllNoted(dag, cnt, tln, w0, mid);
    ChainsNoted(dag, tln, mid, w);
    ClosingNotes(dag, tln, mid, w);
    forall u, v | (u, v) in dag && Meets(tln[u], tln[v]) ensures Answered(w, u, v) {
      EdgeAnswered(dag, cnt, 0, tln, w, u, v);
    }
    MissedLost(dag, cnt, tln, w0, w);
  }

  lemma MissedLost(dag: Graph, cnt: nat, tln: seq<nat>, w0: Work, w: Work)
    requires Fresh(dag, tln, w0) && |tln| == cnt && KeepsStranded(w0, w) && Inv(dag, cnt, 0, w)
    ensures LosesMissed(dag, tln, w)
  {
    forall u: nat, v: nat | Misses(dag, tln, u) && v < |tln| ensures Answered(w, u, v) <==> u == v {
      MissesStranded(dag, cnt, tln, w0, u);
      assert Stranded(w, u);
      StrandedLost(dag, cnt, 0, w, u, v);
    }
  }
}
