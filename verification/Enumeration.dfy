// The engine's choices for a query: which assignments they lead to, and in which order.
module Enumeration {
  import opened Planner
  import opened Backtracking
  import opened Matching

  /** Everything that the engine's choices lead to, in order. */
  function All(q: Setting): seq<seq<Id>>
    requires |q.direct| == 2 * |q.dirs| + 1
  {
    Prefixes(Choices(q, Steps(q)), |Steps(q)|)
  }

  lemma TriesAre(q: Setting, st: seq<Step>, k: nat, m: seq<Id>)
    requires PlanFor(q, st) && k < |st| && |m| == |q.direct|
    ensures Choices(q, st).tries(k, m) == Cands(q, st[k], m)
  {
  }

  /** `pr` is the backtracking problem of the plan. */
  ghost predicate Plans(pr: Problem<Id>, q: Setting, st: seq<Step>) {
    && |pr.at| == |st| && pr.blank == Blank(q)
    && (forall k: nat {:trigger pr.at[k]} | k < |st| :: pr.at[k] == st[k].id)
    && forall k: nat, m {:trigger PlansAt(pr, q, st, k, m)} | k < |st| && |m| == |q.direct| :: PlansAt(pr, q, st, k, m)
  }

  ghost predicate PlansAt(pr: Problem<Id>, q: Setting, st: seq<Step>, k: nat, m: seq<Id>)
    requires k < |st| == |pr.at| && |m| == |q.direct|
  {
    InRange(q, st[k]) && pr.tries(k, m) == Cands(q, st[k], m)
  }

  lemma ChoicesPlan(q: Setting, st: seq<Step>)
    requires PlanFor(q, st)
    ensures Plans(Choices(q, st), q, st)
  {
    forall k: nat, m | k < |st| && |m| == |q.direct| ensures PlansAt(Choices(q, st), q, st, k, m) {
      TriesAre(q, st, k, m);
    }
  }

  // ---------------------------------------------------------------------------
  // The choices for the first steps are the partial matches.
  // ---------------------------------------------------------------------------

  lemma BlankPartial(q: Setting, st: seq<Step>, m: seq<Id>)
    requires PlanFor(q, st)
    ensures Partial(q, st, 0, m) <==> m == Blank(q)
  {
    assert Ids(st[..0]) == {};
    if Partial(q, st, 0, m) {
      forall p: nat | p < |m| ensures m[p] == UNSET { assert FilledRight(q, Ids(st[..0]), m, p); }
    }
  }

  lemma ContinuesPartial(pr: Problem<Id>, q: Setting, st: seq<Step>, k: nat, m0: seq<Id>, m: seq<Id>)
    requires WellFormed(q) && PlanFor(q, st) && Plans(pr, q, st) && Sure(st) && k < |st|
    requires Partial(q, st, k, m0) && Continues(pr, k, m0, m)
    ensures Partial(q, st, k + 1, m)
  {
    assert PlansAt(pr, q, st, k, m0);
    var c :| c in pr.tries(k, m0) && m == Put(m0, pr.at[k], c);
    PartialNext(q, st, k, m0, c);
  }

  lemma PartialContinues(pr: Problem<Id>, q: Setting, st: seq<Step>, k: nat, m: seq<Id>)
    requires WellFormed(q) && PlanFor(q, st) && Plans(pr, q, st) && Sure(st) && k < |st| && Partial(q, st, k + 1, m)
    ensures Partial(q, st, k, m[st[k].id := UNSET])
    ensures Continues(pr, k, m[st[k].id := UNSET], m)
  {
    var p := st[k].id;
    var m0 := m[p := UNSET];
    PartialBefore(q, st, k, m);
    assert m == m0[p := m[p]];
    PartialNext(q, st, k, m0, m[p]);
    assert PlansAt(pr, q, st, k, m0);
    assert m == Put(m0, pr.at[k], m[p]);
  }

  /** If `ms` are the partial matches before step `k`, their continuations are those after it. */
  lemma ExtendPartial(pr: Problem<Id>, q: Setting, st: seq<Step>, k: nat, ms: seq<seq<Id>>, m: seq<Id>)
    requires WellFormed(q) && PlanFor(q, st) && Plans(pr, q, st) && Sure(st) && k < |st|
    requires forall m0 {:trigger m0 in ms} :: m0 in ms <==> Partial(q, st, k, m0)
    ensures m in ExtendAll(pr, k, ms) <==> Partial(q, st, k + 1, m)
  {
    ExtendAllMember(pr, k, ms, m);
    if Arises(pr, k, ms, m) {
      var m0 :| m0 in ms && Continues(pr, k, m0, m);
      ContinuesPartial(pr, q, st, k, m0, m);
    }
    if Partial(q, st, k + 1, m) { PartialContinues(pr, q, st, k, m); }
  }

  lemma {:induction false} PrefixesPartial(pr: Problem<Id>, q: Setting, st: seq<Step>, k: nat, m: seq<Id>)
    requires WellFormed(q) && PlanFor(q, st) && Plans(pr, q, st) && Sure(st) && k <= |st|
    ensures m in Prefixes(pr, k) <==> Partial(q, st, k, m)
    decreases k
  {
    if k == 0 {
      BlankPartial(q, st, m);
    } else {
      var ms := Prefixes(pr, k - 1);
      forall m0 ensures m0 in ms <==> Partial(q, st, k - 1, m0) { PrefixesPartial(pr, q, st, k - 1, m0); }
      ExtendPartial(pr, q, st, k - 1, ms, m);
      PrefixesNext(pr, k - 1);
    }
  }

  lemma PartialIsMatch(q: Setting, st: seq<Step>, m: seq<Id>)
    requires PlanFor(q, st)
    ensures Partial(q, st, |st|, m) <==> Match(q, m)
  {
    assert st[..|st|] == st;
    var done := Ids(st);
    if Partial(q, st, |st|, m) {
      forall p: nat | p < |m| ensures Stands(q, p, m[p]) { assert FilledRight(q, done, m, p); }
      forall p: nat | p + 1 < |m| ensures Linked(q, p, m[p], m[p + 1]) { assert LinkedSoFar(q, done, m, p); }
    }
  }

  // ---------------------------------------------------------------------------
  // Order.
  // ---------------------------------------------------------------------------

  /** The elements for a position, in the order of the store. */
  function Stored(q: Setting, p: nat): seq<Id> {
    if p % 2 == 0 then q.nodes else q.edgeIds
  }

  /** The place of `x` in `s`. */
  function Rank(s: seq<Id>, x: Id): (r: nat)
    ensures r <= |s| && (r < |s| ==> s[r] == x) && (x in s ==> r < |s|)
  {
    if s == [] || s[0] == x then 0 else 1 + Rank(s[1..], x)
  }

  /** The order of elements for a position. */
  function StoreOrder(q: Setting): (nat, Id) -> int {
    (p: nat, x: Id) => Rank(Stored(q, p), x)
  }

  ghost predicate Climbs(s: seq<Id>, r: seq<Id>) {
    forall i, j {:trigger Rank(s, r[i]), Rank(s, r[j])} | 0 <= i < j < |r| :: Rank(s, r[i]) < Rank(s, r[j])
  }

  lemma ClimbsSnoc(s: seq<Id>, r: seq<Id>, init: seq<Id>, x: Id)
    requires Climbs(s, init + [x]) && Climbs(s, r) && forall i | 0 <= i < |r| :: r[i] in init
    ensures Climbs(s, r + [x])
  {
    var t := init + [x];
    forall i | 0 <= i < |r| ensures Rank(s, r[i]) < Rank(s, x) {
      var h :| 0 <= h < |init| && init[h] == r[i];
      assert t[h] == r[i] && t[|init|] == x;
    }
  }

  lemma {:induction false} FittingRises(q: Setting, p: nat, s: seq<Id>, t: seq<Id>)
    requires Climbs(s, t)
    ensures Climbs(s, Fitting(q, p, t))
  {
    if t != [] {
      var init, x := t[..|t| - 1], t[|t| - 1];
      FittingRises(q, p, s, init);
      assert t == init + [x];
      var r := Fitting(q, p, init);
      forall i | 0 <= i < |r| ensures r[i] in init { InFitting(q, p, init, r[i]); }
      ClimbsSnoc(s, r, init, x);
    }
  }

  lemma {:induction false} EdgesRise(q: Setting, x: Id, out: bool, s: seq<Id>, t: seq<Id>)
    requires Climbs(s, t)
    ensures Climbs(s, EdgesAt(q, x, out, t))
  {
    if t != [] {
      var init, e := t[..|t| - 1], t[|t| - 1];
      EdgesRise(q, x, out, s, init);
      assert t == init + [e];
      var r := EdgesAt(q, x, out, init);
      forall i | 0 <= i < |r| ensures r[i] in init { InEdgesAt(q, x, out, init, r[i]); }
      ClimbsSnoc(s, r, init, e);
    }
  }

  lemma {:induction false} CommonRises(s: seq<Id>, t: seq<Id>, u: seq<Id>)
    requires Climbs(s, t)
    ensures Climbs(s, Common(t, u))
  {
    if t != [] {
      var init, x := t[..|t| - 1], t[|t| - 1];
      CommonRises(s, init, u);
      assert t == init + [x];
      var r := Common(init, u);
      forall i | 0 <= i < |r| ensures r[i] in init { InCommon(init, u, r[i]); }
      ClimbsSnoc(s, r, init, x);
    }
  }

  lemma RankIs(s: seq<Id>, i: nat)
    requires Distinct(s) && i < |s|
    ensures Rank(s, s[i]) == i
  {
    RankFirst(s, i);
    assert Apart(s, Rank(s, s[i]), i);
  }

  lemma RankFirst(s: seq<Id>, i: nat)
    requires i < |s|
    ensures Rank(s, s[i]) <= i
  {
    if i > 0 { RankFirst(s[1..], i - 1); }
  }

  lemma RisesItself(s: seq<Id>)
    requires Distinct(s)
    ensures Climbs(s, s)
  {
    forall i, j | 0 <= i < j < |s| ensures Rank(s, s[i]) < Rank(s, s[j]) {
      RankIs(s, i);
      RankIs(s, j);
    }
  }

  /** The candidates for a step come in the order of the store. */
  lemma CandsRise(q: Setting, s: Step, m: seq<Id>)
    requires InRange(q, s) && |m| == |q.direct| && Distinct(q.nodes) && Distinct(q.edgeIds)
    ensures Climbs(Stored(q, s.id), Cands(q, s, m))
  {
    TriedRise(q, s, m);
    FittingRises(q, s.id, Stored(q, s.id), Tried(q, s, m));
  }

  lemma TriedRise(q: Setting, s: Step, m: seq<Id>)
    requires InRange(q, s) && |m| == |q.direct| && Distinct(q.nodes) && Distinct(q.edgeIds)
    ensures Climbs(Stored(q, s.id), Tried(q, s, m))
  {
    if s.constraint == NotConstrained && !s.direct {
      RisesItself(Stored(q, s.id));
    } else if s.direct || s.id % 2 == 0 {
      assert |Tried(q, s, m)| <= 1;
    } else {
      EdgesTriedRise(q, s, m);
    }
  }

  lemma EdgesTriedRise(q: Setting, s: Step, m: seq<Id>)
    requires InRange(q, s) && |m| == |q.direct| && Distinct(q.edgeIds)
    requires s.id % 2 == 1 && !s.direct && s.constraint != NotConstrained
    ensures Climbs(q.edgeIds, Tried(q, s, m))
  {
    if IsLeft(s.constraint) {
      BesideRise(q, s.id, m[s.id - 1]);
    } else {
      BesideRise(q, s.id, m[s.id + 1]);
    }
    if s.constraint == BothConstrained {
      CommonRises(q.edgeIds, RightOf(q, s.id, m[s.id - 1]), LeftOf(q, s.id, m[s.id + 1]));
    }
  }

  lemma BesideRise(q: Setting, p: nat, x: Id)
    requires p / 2 < |q.dirs| && Distinct(q.edgeIds)
    ensures Climbs(q.edgeIds, RightOf(q, p, x)) && Climbs(q.edgeIds, LeftOf(q, p, x))
  {
    RisesItself(q.edgeIds);
    EdgesRise(q, x, q.dirs[p / 2] == Next, q.edgeIds, q.edgeIds);
    EdgesRise(q, x, q.dirs[p / 2] == Prev, q.edgeIds, q.edgeIds);
  }

  lemma StepsDiffer(q: Setting, st: seq<Step>, h: nat, k: nat)
    requires PlanFor(q, st) && h < k < |st|
    ensures st[h].id != st[k].id
  {
    assert ExactAfter(st[..k], st[k]);
    assert st[..k][h] == st[h];
  }

  /** The plan fills in every position once, with candidates in the order of the store. */
  lemma ChoicesOrderly(q: Setting, st: seq<Step>)
    requires WellFormed(q) && PlanFor(q, st)
    ensures Proper(Choices(q, st)) && Ranked(Choices(q, st), StoreOrder(q))
  {
    var p := Choices(q, st);
    forall h, k | 0 <= h < k < |p.at| ensures p.at[h] != p.at[k] { StepsDiffer(q, st, h, k); }
    forall k: nat, m | k < |p.at| && |m| == |p.blank| ensures Rising(StoreOrder(q), p.at[k], p.tries(k, m)) {
      TriesAre(q, st, k, m);
      CandsRise(q, st[k], m);
    }
  }

  /** For a safe plan the engine's choices lead to exactly the matches, each once, in
      the lexicographic order of the plan. */
  lemma AllMatches(q: Setting)
    requires WellFormed(q) && Safe(Steps(q))
    ensures forall m :: m in All(q) <==> Match(q, m)
    ensures forall i, j | 0 <= i < j < |All(q)| :: All(q)[i] != All(q)[j]
    ensures var p := Choices(q, Steps(q)); Proper(p) && InOrder(p, StoreOrder(q), |p.at|, All(q))
  {
    var st := Steps(q);
    var p := Choices(q, st);
    StepsArePlan(q);
    SafeIsSure(q);
    ChoicesPlan(q, st);
    forall m ensures m in All(q) <==> Match(q, m) {
      PrefixesPartial(p, q, st, |st|, m);
      PartialIsMatch(q, st, m);
    }
    ChoicesOrderly(q, st);
    PrefixesOrdered(p, StoreOrder(q), |p.at|);
    forall i, j | 0 <= i < j < |All(q)| ensures All(q)[i] != All(q)[j] {
      OrderedDistinct(p, StoreOrder(q), All(q), i, j);
    }
  }
}
