// The edges of the input file and their compression to the vertices 0, 1, ..., as in the
// first part of TFLabel::read.
module Numbering {
  import opened Paths

  ghost predicate Ascending(s: seq<nat>) {
    forall i, j | 0 <= i < j < |s| :: s[i] < s[j]
  }

  /** The numbers in the file. */
  predicate Mentioned(pairs: seq<(nat, nat)>, a: nat) {
    exists i :: 0 <= i < |pairs| && (a == pairs[i].0 || a == pairs[i].1)
  }

  function PairGraph(pairs: seq<(nat, nat)>): Graph {
    set p | p in pairs
  }

  /** The place of `a` in an ascending sequence. */
  function Place(s: seq<nat>, a: nat): (r: nat)
    ensures r <= |s| && (forall i | 0 <= i < r :: s[i] < a) && (r < |s| ==> a <= s[r])
  {
    if s == [] || a <= s[0] then 0
    else
      var r := Place(s[1..], a);
      assert forall i | 0 < i < r + 1 :: s[i] == s[1..][i - 1];
      r + 1
  }

  /** Sorting with duplicates removed, one number at a time. */
  method SortUnique(v: seq<nat>) returns (s: seq<nat>)
    ensures Ascending(s) && forall a :: a in s <==> a in v
  {
    s := [];
    for i := 0 to |v|
      invariant Ascending(s) && forall a :: a in s <==> a in v[..i]
    {
      var k := Place(s, v[i]);
      if k == |s| || s[k] != v[i] {
        InsertAscends(s, k, v[i]);
        s := s[..k] + [v[i]] + s[k..];
      }
      assert v[..i + 1] == v[..i] + [v[i]];
    }
    assert v[..|v|] == v;
  }

  lemma InsertAscends(s: seq<nat>, k: nat, a: nat)
    requires Ascending(s) && k <= |s| && (forall i | 0 <= i < k :: s[i] < a) && (k < |s| ==> a < s[k])
    ensures var t := s[..k] + [a] + s[k..]; Ascending(t) && forall b :: b in t <==> b == a || b in s
  {
    var t := s[..k] + [a] + s[k..];
    assert s == s[..k] + s[k..];
    forall i, j | 0 <= i < j < |t| ensures t[i] < t[j] {
      assert i > k ==> t[i] == s[i - 1];
      assert j > k ==> t[j] == s[j - 1];
    }
  }

  /** The adjacency lists hold the pairs before number `k`, by the places of their ends. */
  ghost predicate Renamed(pairs: seq<(nat, nat)>, names: seq<nat>, adj: seq<seq<nat>>, k: nat)
    requires k <= |pairs|
  {
    && |adj| == |names| && Closed(adj)
    && forall x: nat, y: nat | x < |names| && y < |names| :: y in adj[x] <==> (names[x], names[y]) in pairs[..k]
  }

  /** The vertices stand for the numbers in the file, and the edges for its pairs. */
  ghost predicate Numbers(pairs: seq<(nat, nat)>, names: seq<nat>, adj: seq<seq<nat>>) {
    Ascending(names) && (forall a :: a in names <==> Mentioned(pairs, a)) && Renamed(pairs, names, adj, |pairs|)
  }

  method Compress(pairs: seq<(nat, nat)>) returns (names: seq<nat>, adj: seq<seq<nat>>)
    ensures Numbers(pairs, names, adj)
  {
    var v := [];
    for i := 0 to |pairs|
      invariant forall a :: a in v <==> Mentioned(pairs[..i], a)
    {
      MentionedNext(pairs, i);
      v := v + [pairs[i].0] + [pairs[i].1];
    }
    assert pairs[..|pairs|] == pairs;
    names := SortUnique(v);
    var toNew: map<nat, nat> := map[];
    for i := 0 to |names|
      invariant forall j | 0 <= j < i :: names[j] in toNew && toNew[names[j]] == j
    {
      toNew := toNew[names[i] := i];
    }
    adj := seq(|names|, _ => []);
    for i := 0 to |pairs|
      invariant Renamed(pairs, names, adj, i)
    {
      assert pairs[i].0 in names && pairs[i].1 in names by {
        assert Mentioned(pairs, pairs[i].0) && Mentioned(pairs, pairs[i].1);
      }
      var xx, yy := toNew[pairs[i].0], toNew[pairs[i].1];
      RenamedNext(pairs, names, adj, i, xx, yy);
      adj := adj[xx := adj[xx] + [yy]];
    }
  }

  lemma MentionedNext(pairs: seq<(nat, nat)>, i: nat)
    requires i < |pairs|
    ensures forall a :: Mentioned(pairs[..i + 1], a) <==> Mentioned(pairs[..i], a) || a == pairs[i].0 || a == pairs[i].1
  {
    var few, more := pairs[..i], pairs[..i + 1];
    forall a ensures Mentioned(more, a) <==> Mentioned(few, a) || a == pairs[i].0 || a == pairs[i].1 {
      if Mentioned(few, a) {
        var j :| 0 <= j < |few| && (a == few[j].0 || a == few[j].1);
        assert more[j] == few[j];
      }
      if a == pairs[i].0 || a == pairs[i].1 { assert more[i] == pairs[i]; }
      if Mentioned(more, a) {
        var j :| 0 <= j < |more| && (a == more[j].0 || a == more[j].1);
        if j < i { assert few[j] == more[j]; }
      }
    }
  }

  lemma RenamedNext(pairs: seq<(nat, nat)>, names: seq<nat>, adj: seq<seq<nat>>, i: nat, x: nat, y: nat)
    requires i < |pairs| && Ascending(names) && Renamed(pairs, names, adj, i)
    requires x < |names| && y < |names| && names[x] == pairs[i].0 && names[y] == pairs[i].1
    ensures Renamed(pairs, names, adj[x := adj[x] + [y]], i + 1)
  {
    assert pairs[..i + 1] == pairs[..i] + [pairs[i]];
    var adj' := adj[x := adj[x] + [y]];
    forall u: nat, w: nat | u < |names| && w < |names|
      ensures w in adj'[u] <==> (names[u], names[w]) in pairs[..i + 1]
    {
      assert names[u] == names[x] <==> u == x;
      assert names[w] == names[y] <==> w == y;
    }
  }

  /** The number of a vertex. */
  function NameOf(names: seq<nat>, x: nat): nat {
    if x < |names| then names[x] else 0
  }

  function VertexOf(names: seq<nat>, a: nat): nat {
    Place(names, a)
  }

  lemma VertexNamed(names: seq<nat>, x: nat)
    requires Ascending(names) && x < |names|
    ensures VertexOf(names, names[x]) == x
  {
  }

  /** Vertices reach each other as their numbers do along the pairs of the file. */
  lemma NumberingReach(pairs: seq<(nat, nat)>, names: seq<nat>, adj: seq<seq<nat>>, x: nat, y: nat)
    requires Numbers(pairs, names, adj) && x < |names| && y < |names|
    ensures Reach(Edges(adj), x, y) <==> Reach(PairGraph(pairs), names[x], names[y])
  {
    var g, h := Edges(adj), PairGraph(pairs);
    if Reach(g, x, y) { ReachOut(pairs, names, adj, x, y); }
    if Reach(h, names[x], names[y]) { ReachIn(pairs, names, adj, x, y); }
  }

  lemma ReachOut(pairs: seq<(nat, nat)>, names: seq<nat>, adj: seq<seq<nat>>, x: nat, y: nat)
    requires Numbers(pairs, names, adj) && x < |names| && y < |names| && Reach(Edges(adj), x, y)
    ensures Reach(PairGraph(pairs), names[x], names[y])
  {
    var g, h := Edges(adj), PairGraph(pairs);
    var f := (u: nat) => NameOf(names, u);
    forall u: nat, w: nat | (u, w) in g ensures Reach(h, f(u), f(w)) {
      assert w in adj[u];
      assert pairs[..|pairs|] == pairs;
      ReachEdge(h, f(u), f(w));
    }
    ReachMap(g, h, f, x, y);
  }

  lemma ReachIn(pairs: seq<(nat, nat)>, names: seq<nat>, adj: seq<seq<nat>>, x: nat, y: nat)
    requires Numbers(pairs, names, adj) && x < |names| && y < |names|
    requires Reach(PairGraph(pairs), names[x], names[y])
    ensures Reach(Edges(adj), x, y)
  {
    var g, h := Edges(adj), PairGraph(pairs);
    var f := (a: nat) => VertexOf(names, a);
    forall a: nat, b: nat | (a, b) in h ensures Reach(g, f(a), f(b)) {
      var i :| 0 <= i < |pairs| && pairs[i] == (a, b);
      assert Mentioned(pairs, a) && Mentioned(pairs, b);
      var u :| 0 <= u < |names| && names[u] == a;
      var w :| 0 <= w < |names| && names[w] == b;
      VertexNamed(names, u);
      VertexNamed(names, w);
      assert pairs[..|pairs|] == pairs;
      assert w in adj[u];
      ReachEdge(g, u, w);
    }
    VertexNamed(names, x);
    VertexNamed(names, y);
    ReachMap(h, g, f, names[x], names[y]);
  }
}
