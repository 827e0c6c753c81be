// The index from the input graph to the labels: TFLabel::read and
// TFLabel::preprocess run one after the other.
module Pipeline {
  import opened Paths
  import opened Tarjan
  import opened Condensation
  import opened Numbering
  import opened Topological
  import Labels
  import Passes
  import TfLabel

  /** Components and condensation of the input graph. */
  method Read(adj: seq<seq<nat>>) returns (scc: seq<nat>, dag: seq<seq<nat>>)
    requires Closed(adj)
    ensures |scc| == |adj| && Components(Edges(adj), scc, |dag|)
    ensures IsCondensation(adj, scc, |dag|, dag)
    ensures Closed(dag) && Acyclic(Edges(dag))
  {
    var finder := new SccFinder(adj);
    finder.FindScc(|adj|);
    var d, fa := Condense(adj, finder.sccno, finder.sccCnt);
    scc, dag := finder.sccno[..], d[..];
    CondensationAcyclic(adj, scc, |dag|, dag);
  }

  /** Levels of the condensation: lengths of longest paths, and their maximum. */
  method Level(dag: seq<seq<nat>>) returns (tln: seq<nat>, maxx: nat)
    requires Closed(dag) && Acyclic(Edges(dag))
    ensures |tln| == |dag| && MaxLevel(tln, maxx)
    ensures forall v: nat | v < |tln| :: LongestTo(Edges(dag), v, tln[v])
  {
    var levels := new nat[|dag|](_ => 0);
    var deg, m, done := Toposort(dag, levels);
    tln, maxx := levels[..], m;
  }

  /** Longest paths get longer along edges. */
  lemma LevelsRise(g: Graph, tln: seq<nat>)
    requires forall v: nat | v < |tln| :: LongestTo(g, v, tln[v])
    requires forall x, y | (x, y) in g :: x < |tln| && y < |tln|
    ensures forall x: nat | x < |tln| :: 1 <= tln[x]
    ensures forall x, y | (x, y) in g :: tln[x] < tln[y]
  {
    forall x: nat | x < |tln| ensures 1 <= tln[x] {
      assert EndsIn(g, x, tln[x]);
    }
    forall x: nat, y: nat | (x, y) in g ensures tln[x] < tln[y] {
      EndsInExtend(g, x, y, tln[x]);
      var u, p :| IsPath(g, u, y, p) && |p| == tln[x] + 1;
      assert AtMost(g, y, tln[y]);
    }
  }

  /** The labels of the condensation. */
  method Preprocess(dag: seq<seq<nat>>, key: nat -> real) returns (tln: seq<nat>, index: TfLabel.Folder)
    requires Closed(dag) && Acyclic(Edges(dag)) && Edges(dag) != {} && Passes.Distinct(key)
    ensures fresh(index) && |tln| == |dag|
    ensures forall v: nat | v < |tln| :: LongestTo(Edges(dag), v, tln[v])
    ensures index.dag == Edges(dag) && index.sccCnt == |dag| && index.level == map[] && index.Valid(0)
    ensures forall u, v | (u, v) in Edges(dag) && Labels.Meets(tln[u], tln[v]) :: Labels.Answered(index.Now(), u, v)
    ensures Labels.NotesEdges(Edges(dag), tln, index.Now()) && Labels.NotesChains(Edges(dag), tln, index.Now())
    ensures Labels.LosesMissed(Edges(dag), tln, index.Now())
  {
    var maxx;
    tln, maxx := Level(dag);
    LevelsRise(Edges(dag), tln);
    index := new TfLabel.Folder(key, dag);
    ghost var e :| e in Edges(dag);
    assert tln[e.0] < tln[e.1] <= Max(1, maxx);
    index.Construct(tln, maxx);
  }

  /** The index answers truthfully for the input graph: if the components of `u` and
      `v` share a label entry, then `u` reaches `v`. */
  lemma IndexIsTruthful(adj: seq<seq<nat>>, scc: seq<nat>, dag: seq<seq<nat>>, w: Labels.Work, u: nat, v: nat)
    requires Closed(adj) && |scc| == |adj| && Components(Edges(adj), scc, |dag|)
    requires IsCondensation(adj, scc, |dag|, dag) && Labels.Inv(Edges(dag), |dag|, 0, w)
    requires u < |adj| && v < |adj|
    requires w.labelIn[scc[u] - 1] * w.labelOut[scc[v] - 1] != {}
    ensures Reach(Edges(adj), u, v)
  {
    Labels.LabelsWitness(Edges(dag), |dag|, 0, w, scc[u] - 1, scc[v] - 1);
    CondensationReach(adj, scc, |dag|, dag, u, v);
  }

  /** Within a component, and along edges whose levels meet, it answers completely. */
  lemma IndexAnswers(adj: seq<seq<nat>>, scc: seq<nat>, dag: seq<seq<nat>>, tln: seq<nat>, w: Labels.Work, u: nat, v: nat)
    requires Closed(adj) && |scc| == |adj| && Components(Edges(adj), scc, |dag|)
    requires IsCondensation(adj, scc, |dag|, dag) && Labels.Inv(Edges(dag), |dag|, 0, w) && |tln| == |dag|
    requires Closed(dag) && forall x, y | (x, y) in Edges(dag) && Labels.Meets(tln[x], tln[y]) :: Labels.Answered(w, x, y)
    requires (u, v) in Edges(adj)
    requires scc[u] == scc[v] || Labels.Meets(tln[scc[u] - 1], tln[scc[v] - 1])
    ensures w.labelIn[scc[u] - 1] * w.labelOut[scc[v] - 1] != {}
  {
    if scc[u] == scc[v] {
      assert scc[u] - 1 in w.labelIn[scc[u] - 1] * w.labelOut[scc[v] - 1];
    } else {
      assert (scc[u] - 1, scc[v] - 1) in Edges(dag);
    }
  }

  /** The labels of the components of `u` and `v` meet. */
  ghost predicate SharesLabel(scc: seq<nat>, w: Labels.Work, u: nat, v: nat) {
    && u < |scc| && v < |scc| && 0 < scc[u] <= |w.labelIn| && 0 < scc[v] <= |w.labelOut|
    && w.labelIn[scc[u] - 1] * w.labelOut[scc[v] - 1] != {}
  }

  /** Some number in the file is not reached back from where a pair leads. */
  ghost predicate HasOneWay(pairs: seq<(nat, nat)>) {
    exists p :: p in pairs && !Reach(PairGraph(pairs), p.1, p.0)
  }

  lemma OneWayCrosses(pairs: seq<(nat, nat)>, names: seq<nat>, adj: seq<seq<nat>>, scc: seq<nat>, dag: seq<seq<nat>>)
    requires Numbers(pairs, names, adj) && HasOneWay(pairs)
    requires |scc| == |adj| && Components(Edges(adj), scc, |dag|) && IsCondensation(adj, scc, |dag|, dag)
    ensures Edges(dag) != {}
  {
    var p :| p in pairs && !Reach(PairGraph(pairs), p.1, p.0);
    var i :| 0 <= i < |pairs| && pairs[i] == p;
    assert Mentioned(pairs, p.0) && Mentioned(pairs, p.1) && pairs[..|pairs|] == pairs;
    var x :| 0 <= x < |names| && names[x] == p.0;
    var y :| 0 <= y < |names| && names[y] == p.1;
    NumberingReach(pairs, names, adj, y, x);
    assert (x, y) in Edges(adj);
    CrossingEdge(adj, scc, dag, x, y);
  }

  lemma CrossingEdge(adj: seq<seq<nat>>, scc: seq<nat>, dag: seq<seq<nat>>, x: nat, y: nat)
    requires |scc| == |adj| && Closed(adj) && Components(Edges(adj), scc, |dag|) && IsCondensation(adj, scc, |dag|, dag)
    requires (x, y) in Edges(adj) && x < |adj| && y < |adj| && !Reach(Edges(adj), y, x)
    ensures Edges(dag) != {}
  {
    assert !Mutual(Edges(adj), x, y);
    assert (scc[x] - 1, scc[y] - 1) in Edges(dag);
  }

  /** From the pairs in the file to the labels.  If the labels of two numbers meet, there is
      a way from the first to the second along the pairs; they do meet within a component and
      along a pair whose levels meet; and for a number all of whose ways out of its component
      begin with an edge that misses its upper end, they meet within the component only. */
  method BuildIndex(pairs: seq<(nat, nat)>, key: nat -> real)
      returns (names: seq<nat>, adj: seq<seq<nat>>, scc: seq<nat>, dag: seq<seq<nat>>, tln: seq<nat>, index: TfLabel.Folder)
    requires HasOneWay(pairs) && Passes.Distinct(key)
    ensures fresh(index) && Ascending(names) && (forall a :: a in names <==> Mentioned(pairs, a))
    ensures LeveledComponents(pairs, names, adj, scc, dag, tln)
    ensures Numbered(scc, |names|, |tln|) && Labels.NotesChains(Edges(dag), tln, index.Now())
    ensures forall x: nat, y: nat | x < |names| && y < |names| && SharesLabel(scc, index.Now(), x, y) ::
      Reach(PairGraph(pairs), names[x], names[y])
    ensures forall x: nat, y: nat | x < |names| && y < |names| && (names[x], names[y]) in pairs && Near(scc, tln, x, y) ::
      SharesLabel(scc, index.Now(), x, y)
    ensures forall x: nat, y: nat | x < |names| && y < |names| && Labels.Misses(Edges(dag), tln, scc[x] - 1) ::
      SharesLabel(scc, index.Now(), x, y) <==> scc[x] == scc[y]
  {
    names, adj := Compress(pairs);
    scc, dag := Read(adj);
    OneWayCrosses(pairs, names, adj, scc, dag);
    tln, index := Preprocess(dag, key);
    forall x: nat, y: nat | x < |names| && y < |names| && SharesLabel(scc, index.Now(), x, y)
      ensures Reach(PairGraph(pairs), names[x], names[y])
    {
      IndexIsTruthful(adj, scc, dag, index.Now(), x, y);
      NumberingReach(pairs, names, adj, x, y);
    }
    forall x: nat, y: nat | x < |names| && y < |names| && (names[x], names[y]) in pairs && Near(scc, tln, x, y)
      ensures SharesLabel(scc, index.Now(), x, y)
    {
      assert pairs[..|pairs|] == pairs;
      assert (x, y) in Edges(adj);
      IndexAnswers(adj, scc, dag, tln, index.Now(), x, y);
    }
    forall x: nat, y: nat | x < |names| && y < |names| && Labels.Misses(Edges(dag), tln, scc[x] - 1)
      ensures SharesLabel(scc, index.Now(), x, y) <==> scc[x] == scc[y]
    {
      assert Labels.Answered(index.Now(), scc[x] - 1, scc[y] - 1) <==> scc[x] == scc[y];
    }
  }

  /** `adj` are the pairs between numbered vertices, `scc` its components, `dag` their
      condensation, and `tln` the longest paths in it. */
  ghost predicate LeveledComponents(pairs: seq<(nat, nat)>, names: seq<nat>, adj: seq<seq<nat>>, scc: seq<nat>,
                                    dag: seq<seq<nat>>, tln: seq<nat>) {
    && Numbers(pairs, names, adj) && Closed(adj) && |scc| == |adj| == |names|
    && Components(Edges(adj), scc, |dag|) && IsCondensation(adj, scc, |dag|, dag)
    && |tln| == |dag| && forall v: nat | v < |tln| :: LongestTo(Edges(dag), v, tln[v])
  }

  ghost predicate Numbered(scc: seq<nat>, n: nat, cnt: nat) {
    |scc| == n && forall x | 0 <= x < n :: 1 <= scc[x] <= cnt
  }

  /** Two vertices are in one component, or the levels of their components meet. */
  ghost predicate Near(scc: seq<nat>, tln: seq<nat>, x: nat, y: nat)
    requires Numbered(scc, |scc|, |tln|) && x < |scc| && y < |scc|
  {
    scc[x] == scc[y] || Labels.Meets(tln[scc[x] - 1], tln[scc[y] - 1])
  }

  /** Levels that rise along edges rise along paths. */
  lemma {:induction false} PathRises(g: Graph, tln: seq<nat>, u: nat, v: nat, p: seq<nat>)
    requires forall x, y | (x, y) in g :: x < |tln| && y < |tln| && tln[x] < tln[y]
    requires IsPath(g, u, v, p) && (u < |tln| || 1 < |p|)
    ensures u < |tln| && v < |tln| && tln[u] + |p| - 1 <= tln[v]
    decreases |p|
  {
    if |p| > 1 {
      PathInit(g, u, v, p);
      if |p| == 2 { assert p[..1] == [u]; }
      PathRises(g, tln, u, p[|p| - 2], p[..|p| - 1]);
    }
  }

  const GAP_GRAPH: seq<seq<nat>> := [[3], [2], [3], []]
  const GAP_LEVELS: seq<nat> := [1, 1, 2, 3]

  lemma GapLevels()
    ensures Acyclic(Edges(GAP_GRAPH)) && forall v: nat | v < 4 :: LongestTo(Edges(GAP_GRAPH), v, GAP_LEVELS[v])
  {
    var g := Edges(GAP_GRAPH);
    forall v: nat, p: seq<nat> | IsPath(g, v, v, p) ensures |p| == 1 {
      if |p| > 1 { PathRises(g, GAP_LEVELS, v, v, p); }
    }
    assert IsPath(g, 0, 0, [0]) && IsPath(g, 1, 1, [1]) && IsPath(g, 1, 2, [1, 2]) && IsPath(g, 1, 3, [1, 2, 3]);
    forall v: nat | v < 4 ensures LongestTo(g, v, GAP_LEVELS[v]) {
      assert EndsIn(g, v, GAP_LEVELS[v]) by {
        assert |[0]| == |[1]| == 1 && |[1, 2]| == 2 && |[1, 2, 3]| == 3;
      }
      forall u: nat, p: seq<nat> | IsPath(g, u, v, p) ensures |p| <= GAP_LEVELS[v] {
        if |p| > 1 { PathRises(g, GAP_LEVELS, u, v, p); }
      }
    }
  }

  /** The index is not complete: with a chain of three vertices, and an edge from a fourth to
      its last, no labels that the construction can make answer that edge. */
  lemma GapUnanswered(tln: seq<nat>, w: Labels.Work)
    requires |tln| == 4 && forall v: nat | v < 4 :: LongestTo(Edges(GAP_GRAPH), v, tln[v])
    requires Labels.LosesMissed(Edges(GAP_GRAPH), tln, w)
    ensures Reach(Edges(GAP_GRAPH), 0, 3) && !Labels.Answered(w, 0, 3)
  {
    GapLevels();
    forall v: nat | v < 4 ensures tln[v] == GAP_LEVELS[v] { LongestUnique(Edges(GAP_GRAPH), v, tln[v], GAP_LEVELS[v]); }
    ReachEdge(Edges(GAP_GRAPH), 0, 3);
    assert Labels.Misses(Edges(GAP_GRAPH), tln, 0);
  }

  lemma LongestUnique(g: Graph, v: nat, k: nat, l: nat)
    requires LongestTo(g, v, k) && LongestTo(g, v, l)
    ensures k == l
  {
    var u, p :| IsPath(g, u, v, p) && |p| == k;
    var u', p' :| IsPath(g, u', v, p') && |p'| == l;
  }
}
