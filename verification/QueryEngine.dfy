// The query iterator for directed graphs (leveldbgraph_iterator.inc): it searches the
// first match by recursive backtracking, and goes from each match to the next one.
module QueryEngine {
  import opened Planner
  import opened Backtracking
  import opened Matching
  import opened Enumeration
  import opened Visits
  import opened Failures

  // ---------------------------------------------------------------------------
  // What the engine has chosen so far, and the prefix that stands for it.
  // ---------------------------------------------------------------------------

  /** At the positions of the first `k` steps, `ids` is the prefix `m` and fits the query. */
  ghost predicate Agrees(q: Setting, st: seq<Step>, k: nat, m: seq<Id>, ids: seq<Id>)
    requires k <= |st|
  {
    && |m| == |ids| == |q.direct|
    && forall h: nat {:trigger AgreesAt(q, st[h].id, m, ids)} | h < k :: AgreesAt(q, st[h].id, m, ids)
  }

  ghost predicate AgreesAt(q: Setting, p: nat, m: seq<Id>, ids: seq<Id>) {
    p < |m| == |ids| && ids[p] == m[p] && Fits(q, p, ids[p])
  }

  lemma VisitedBefore(st: seq<Step>, k: nat, p: int) returns (h: nat)
    requires k <= |st| && p in Ids(st[..k])
    ensures h < k && st[h].id == p
  {
    var s :| s in st[..k] && s.id == p;
    h :| 0 <= h < k && st[..k][h] == s;
  }

  /** A step tries the same elements for the engine's state as for the prefix. */
  lemma AgreeTried(pr: Problem<Id>, q: Setting, st: seq<Step>, k: nat, m: seq<Id>, ids: seq<Id>)
    requires PlanFor(q, st) && Plans(pr, q, st) && k < |st| && Agrees(q, st, k, m, ids)
    ensures pr.tries(k, m) == Fitting(q, st[k].id, Tried(q, st[k], ids))
  {
    assert ExactAfter(st[..k], st[k]);
    if IsLeft(st[k].constraint) {
      var h := VisitedBefore(st, k, st[k].id - 1);
      assert AgreesAt(q, st[h].id, m, ids);
    }
    if IsRight(st[k].constraint) {
      var h := VisitedBefore(st, k, st[k].id + 1);
      assert AgreesAt(q, st[h].id, m, ids);
    }
    CandsSame(q, st[k], ids, m);
    assert PlansAt(pr, q, st, k, m);
  }

  lemma AgreeStays(q: Setting, st: seq<Step>, k: nat, m: seq<Id>, ids: seq<Id>, x: Id)
    requires PlanFor(q, st) && k < |st| && |ids| == |q.direct| && Agrees(q, st, k, m, ids)
    ensures Agrees(q, st, k, m, ids[st[k].id := x])
    ensures Fits(q, st[k].id, x) ==> Agrees(q, st, k + 1, Put(m, st[k].id, x), ids[st[k].id := x])
  {
    var p := st[k].id;
    var ids' := ids[p := x];
    forall h: nat | h < k ensures AgreesAt(q, st[h].id, m, ids') && AgreesAt(q, st[h].id, Put(m, p, x), ids') {
      StepsDiffer(q, st, h, k);
      assert AgreesAt(q, st[h].id, m, ids);
    }
  }

  lemma AgreeBack(q: Setting, st: seq<Step>, k: nat, m0: seq<Id>, x: Id, ids: seq<Id>)
    requires PlanFor(q, st) && k < |st| && |ids| == |q.direct| && Agrees(q, st, k + 1, Put(m0, st[k].id, x), ids)
    ensures Agrees(q, st, k, m0, ids) && ids[st[k].id] == x
  {
    var m := Put(m0, st[k].id, x);
    forall h: nat | h < k ensures AgreesAt(q, st[h].id, m0, ids) {
      StepsDiffer(q, st, h, k);
      assert AgreesAt(q, st[h].id, m, ids);
    }
    assert AgreesAt(q, st[k].id, m, ids);
  }

  /** The neighbours that a step looks at have been chosen; if they are edges, they are stored. */
  lemma NeighboursStored(q: Setting, st: seq<Step>, k: nat, m: seq<Id>, ids: seq<Id>)
    requires PlanFor(q, st) && k < |st| && Agrees(q, st, k, m, ids) && st[k].id % 2 == 0
    ensures IsLeft(st[k].constraint) ==> ids[st[k].id - 1] in q.ends
    ensures IsRight(st[k].constraint) ==> ids[st[k].id + 1] in q.ends
  {
    assert ExactAfter(st[..k], st[k]);
    if IsLeft(st[k].constraint) {
      var h := VisitedBefore(st, k, st[k].id - 1);
      assert AgreesAt(q, st[h].id, m, ids);
    }
    if IsRight(st[k].constraint) {
      var h := VisitedBefore(st, k, st[k].id + 1);
      assert AgreesAt(q, st[h].id, m, ids);
    }
  }

  lemma AgreeAll(q: Setting, st: seq<Step>, m: seq<Id>, ids: seq<Id>)
    requires PlanFor(q, st) && |ids| == |q.direct| && Agrees(q, st, |st|, m, ids)
    ensures ids == m
  {
    assert st[..|st|] == st;
    forall p | 0 <= p < |ids| ensures ids[p] == m[p] {
      var h := VisitedBefore(st, |st|, p);
      assert AgreesAt(q, st[h].id, m, ids);
    }
  }

  lemma {:induction false} FittingAppend(q: Setting, p: nat, a: seq<Id>, b: seq<Id>)
    ensures Fitting(q, p, a + b) == Fitting(q, p, a) + Fitting(q, p, b)
  {
    if b == [] {
      assert a + b == a;
    } else {
      var c, r := b[..|b| - 1], a + b;
      FittingAppend(q, p, a, c);
      assert r[..|r| - 1] == a + c && r[|r| - 1] == b[|b| - 1];
    }
  }

  /** Trying one more element of a list. */
  lemma FittingNext(q: Setting, p: nat, s: seq<Id>, i: nat)
    requires i < |s|
    ensures Fitting(q, p, s[..i + 1]) == Fitting(q, p, s[..i]) + if Fits(q, p, s[i]) then [s[i]] else []
    ensures Fitting(q, p, s) == Fitting(q, p, s[..i + 1]) + Fitting(q, p, s[i + 1..])
  {
    assert s[..i + 1][..i] == s[..i];
    assert s == s[..i + 1] + s[i + 1..];
    FittingAppend(q, p, s[..i + 1], s[i + 1..]);
  }

  /** If the candidates `a` led to nothing and the next candidate `c` leads to results,
      these are the first results; if not, there is still nothing. */
  lemma ResultsUpTo(p: Problem<Id>, k: nat, m: seq<Id>, a: seq<Id>, c: Id, b: seq<Id>)
    requires k < |p.at| && p.tries(k, m) == a + [c] + b && ResultsFor(p, k, m, a) == []
    ensures Results(p, k, m) == Results(p, k + 1, Put(m, p.at[k], c)) + ResultsFor(p, k, m, b)
    ensures ResultsFor(p, k, m, a + [c]) == Results(p, k + 1, Put(m, p.at[k], c))
  {
    ResultsByCandidates(p, k, m);
    ResultsForAppend(p, k, m, a + [c], b);
    ResultsForAppend(p, k, m, a, [c]);
    ResultsForOne(p, k, m, c);
  }

  lemma NoResults(p: Problem<Id>, k: nat, m: seq<Id>)
    requires k < |p.at| && p.tries(k, m) == []
    ensures Results(p, k, m) == []
  {
    ResultsByCandidates(p, k, m);
    ResultsForNone(p, k, m);
  }

  lemma OneCandidate(p: Problem<Id>, k: nat, m: seq<Id>, c: Id)
    requires k < |p.at| && p.tries(k, m) == [c]
    ensures Results(p, k, m) == Results(p, k + 1, Put(m, p.at[k], c))
  {
    ResultsByCandidates(p, k, m);
    ResultsForOne(p, k, m, c);
  }

  lemma FittingOne(q: Setting, p: nat, c: Id)
    ensures Fitting(q, p, [c]) == if Fits(q, p, c) then [c] else []
  {
    assert [c][..0] == [] && Fitting(q, p, []) == [];
  }

  /** The checks for a directly named element decide whether it is a candidate. */
  lemma DirectTries(q: Setting, s: Step, ids: seq<Id>, c: Id, ok: bool)
    requires InRange(q, s) && |ids| == |q.direct| && s.direct && c == q.direct[s.id].value
    requires ok == (
      && Fits(q, s.id, c)
      && (IsLeft(s.constraint) ==> s.id % 2 == 1 && c in RightOf(q, s.id, ids[s.id - 1]))
      && (IsRight(s.constraint) ==> if s.id % 2 == 1 then c in LeftOf(q, s.id, ids[s.id + 1])
                                    else ids[s.id + 1] in q.ends && LeftEnd(q, s.id + 1, ids[s.id + 1]) == c))
    ensures Fitting(q, s.id, Tried(q, s, ids)) == if ok then [c] else []
  {
    FittingOne(q, s.id, c);
  }

  /** A node position with edges chosen on both sides. */
  predicate InBetween(q: Setting, p: nat, ids: seq<Id>) {
    && |ids| == |q.direct| == 2 * |q.dirs| + 1
    && p % 2 == 0 && 0 < p && p + 1 < |ids| && ids[p - 1] in q.ends && ids[p + 1] in q.ends
  }

  function BothEnds(q: Setting, p: nat, ids: seq<Id>): seq<Id>
    requires InBetween(q, p, ids)
  {
    var c := RightEnd(q, p - 1, ids[p - 1]);
    if c == RightEnd(q, p + 1, ids[p + 1]) && Fits(q, p, c) then [c] else []
  }

  lemma BothTried(q: Setting, s: Step, ids: seq<Id>)
    requires InRange(q, s) && !s.direct && s.constraint == BothConstrained && InBetween(q, s.id, ids)
    ensures Fitting(q, s.id, Tried(q, s, ids)) == BothEnds(q, s.id, ids)
  {
    FittingOne(q, s.id, RightEnd(q, s.id - 1, ids[s.id - 1]));
    assert Fitting(q, s.id, []) == [];
  }

  // ---------------------------------------------------------------------------
  // Going on from a prefix.
  // ---------------------------------------------------------------------------

  /** The engine's state is the prefix number `j` for the first `k` steps. */
  ghost predicate AtPrefix(pr: Problem<Id>, q: Setting, st: seq<Step>, k: nat, j: nat, ids: seq<Id>)
    requires k <= |st| == |pr.at|
  {
    var ms := Prefixes(pr, k);
    j < |ms| && Agrees(q, st, k, ms[j], ids)
  }

  lemma {:induction false} FittingShorter(q: Setting, p: nat, s: seq<Id>)
    ensures |Fitting(q, p, s)| <= |s|
  {
    if s != [] { FittingShorter(q, p, s[..|s| - 1]); }
  }

  /** Up to a direct step there is at most one choice. */
  lemma {:induction false} DirectSingle(pr: Problem<Id>, q: Setting, st: seq<Step>, k: nat)
    requires Plans(pr, q, st) && DirectFirst(st) && k <= |st| && (0 < k ==> st[k - 1].direct)
    ensures |Prefixes(pr, k)| <= 1
    ensures Sized(pr, Prefixes(pr, k))
  {
    if 0 < k {
      assert 1 < k ==> st[k - 2].direct;
      DirectSingle(pr, q, st, k - 1);
      PrefixesNext(pr, k - 1);
      var ms := Prefixes(pr, k - 1);
      if ms != [] {
        assert ms[0] in ms && ms[..0] == [];
        assert PlansAt(pr, q, st, k - 1, ms[0]);
        FittingShorter(q, st[k - 1].id, Tried(q, st[k - 1], ms[0]));
        OffsetNext(pr, k - 1, ms, 0);
      }
      forall m | m in Prefixes(pr, k) ensures |m| == |pr.blank| {
        ExtendAllMember(pr, k - 1, ms, m);
      }
    }
  }

  /** Where the current prefix comes from: it fills in the candidate number `t` in the
      prefix number `i`. */
  lemma ComesFrom(pr: Problem<Id>, q: Setting, st: seq<Step>, k: nat, j: nat, ids: seq<Id>) returns (i: nat, t: nat)
    requires PlanFor(q, st) && Plans(pr, q, st) && k < |st| && AtPrefix(pr, q, st, k + 1, j, ids)
    ensures AtPrefix(pr, q, st, k, i, ids)
    ensures var cs := Fitting(q, st[k].id, Tried(q, st[k], ids));
      t < |cs| && ids[st[k].id] == cs[t] && j == Offset(pr, k, Prefixes(pr, k), i) + t
  {
    var ms := Prefixes(pr, k);
    PrefixesNext(pr, k);
    i, t := Locate(pr, k, ms, j);
    AgreeBack(q, st, k, ms[i], pr.tries(k, ms[i])[t], ids);
    AgreeTried(pr, q, st, k, ms[i], ids);
  }

  /** Filling in the candidate number `t` in the prefix number `i`. */
  lemma LeadsTo(pr: Problem<Id>, q: Setting, st: seq<Step>, k: nat, i: nat, t: nat, ids: seq<Id>)
    requires PlanFor(q, st) && Plans(pr, q, st) && k < |st| && AtPrefix(pr, q, st, k, i, ids)
    requires var cs := Fitting(q, st[k].id, Tried(q, st[k], ids)); t < |cs| && ids[st[k].id] == cs[t]
    ensures AtPrefix(pr, q, st, k + 1, Offset(pr, k, Prefixes(pr, k), i) + t, ids)
  {
    AgreeTried(pr, q, st, k, Prefixes(pr, k)[i], ids);
    CandidateFits(q, st[k].id, Tried(q, st[k], ids), t);
    AgreeMore(q, st, k, Prefixes(pr, k)[i], ids);
    PrefixAt(pr, k, i, t, ids[st[k].id]);
  }

  lemma PrefixAt(p: Problem<Id>, k: nat, i: nat, t: nat, x: Id)
    requires k < |p.at| && i < |Prefixes(p, k)|
    requires t < |p.tries(k, Prefixes(p, k)[i])| && x == p.tries(k, Prefixes(p, k)[i])[t]
    ensures var j := Offset(p, k, Prefixes(p, k), i) + t;
      j < |Prefixes(p, k + 1)| && Prefixes(p, k + 1)[j] == Put(Prefixes(p, k)[i], p.at[k], x)
  {
    PrefixesNext(p, k);
    OffsetAt(p, k, Prefixes(p, k), i, t);
  }

  lemma CandidateFits(q: Setting, p: nat, s: seq<Id>, t: nat)
    requires t < |Fitting(q, p, s)|
    ensures Fits(q, p, Fitting(q, p, s)[t])
  {
    assert Fitting(q, p, s)[t] in Fitting(q, p, s);
    InFitting(q, p, s, Fitting(q, p, s)[t]);
  }

  lemma AgreeMore(q: Setting, st: seq<Step>, k: nat, m: seq<Id>, ids: seq<Id>)
    requires PlanFor(q, st) && k < |st| && Agrees(q, st, k, m, ids) && Fits(q, st[k].id, ids[st[k].id])
    ensures Agrees(q, st, k + 1, Put(m, st[k].id, ids[st[k].id]), ids)
  {
    AgreeStays(q, st, k, m, ids, ids[st[k].id]);
    assert ids[st[k].id := ids[st[k].id]] == ids;
  }

  /** After the last candidate for the prefix number `i` comes the next prefix. */
  lemma UsedUp(pr: Problem<Id>, q: Setting, st: seq<Step>, k: nat, i: nat, ids: seq<Id>)
    requires PlanFor(q, st) && Plans(pr, q, st) && k < |st| && AtPrefix(pr, q, st, k, i, ids)
    ensures Offset(pr, k, Prefixes(pr, k), i + 1)
         == Offset(pr, k, Prefixes(pr, k), i) + |Fitting(q, st[k].id, Tried(q, st[k], ids))|
    ensures i + 1 == |Prefixes(pr, k)| ==> Offset(pr, k, Prefixes(pr, k), i + 1) == |Prefixes(pr, k + 1)|
  {
    PrefixesNext(pr, k);
    AgreeTried(pr, q, st, k, Prefixes(pr, k)[i], ids);
    OffsetNext(pr, k, Prefixes(pr, k), i);
  }

  /** A prefix does not depend on the position that is filled in after it. */
  lemma StillThere(pr: Problem<Id>, q: Setting, st: seq<Step>, k: nat, i: nat, ids: seq<Id>, ids': seq<Id>)
    requires PlanFor(q, st) && Plans(pr, q, st) && k < |st| && AtPrefix(pr, q, st, k, i, ids)
    requires |ids'| == |ids| && ids' == ids[st[k].id := ids'[st[k].id]]
    ensures AtPrefix(pr, q, st, k, i, ids')
    ensures Tried(q, st[k], ids') == Tried(q, st[k], ids)
  {
    AgreeStays(q, st, k, Prefixes(pr, k)[i], ids, ids'[st[k].id]);
    CandsSame(q, st[k], ids, ids');
  }

  /** A node position whose element is the far end of the edge on one side. */
  predicate OneSided(s: Step) {
    s.id % 2 == 0 && !s.direct && (s.constraint == LeftConstrained || s.constraint == RightConstrained)
  }

  /** The edge that a one-sided node is derived from, and its far end. */
  function Beside(s: Step): int {
    if IsLeft(s.constraint) then s.id - 1 else s.id + 1
  }

  function Derived(q: Setting, s: Step, ids: seq<Id>): Id
    requires InRange(q, s) && |ids| == |q.direct| && OneSided(s) && ids[Beside(s)] in q.ends
  {
    RightEnd(q, Beside(s), ids[Beside(s)])
  }

  /** A one-sided node has one element to try. */
  lemma DerivedTried(q: Setting, st: seq<Step>, k: nat, m: seq<Id>, ids: seq<Id>)
    requires PlanFor(q, st) && k < |st| && Agrees(q, st, k, m, ids) && OneSided(st[k])
    ensures ids[Beside(st[k])] in q.ends
    ensures Fitting(q, st[k].id, Tried(q, st[k], ids))
         == var c := Derived(q, st[k], ids); if Fits(q, st[k].id, c) then [c] else []
  {
    NeighboursStored(q, st, k, m, ids);
    FittingOne(q, st[k].id, Derived(q, st[k], ids));
  }

  /** The prefix number `i` has no more continuations after number `j`. */
  ghost predicate Passed(pr: Problem<Id>, q: Setting, st: seq<Step>, k: nat, i: nat, j: nat, ids: seq<Id>)
    requires k < |st| == |pr.at|
  {
    && AtPrefix(pr, q, st, k, i, ids) && Offset(pr, k, Prefixes(pr, k), i + 1) == j + 1
    && (i + 1 == |Prefixes(pr, k)| ==> j + 1 == |Prefixes(pr, k + 1)|)
  }

  /** Before and behind the prefix number `i`, whose continuations begin at number `j`. */
  ghost predicate Around(pr: Problem<Id>, k: nat, i: nat, j: nat)
    requires k < |pr.at|
  {
    && i <= |Prefixes(pr, k)| && Offset(pr, k, Prefixes(pr, k), i) <= j
    && (i < |Prefixes(pr, k)| ==> j < Offset(pr, k, Prefixes(pr, k), i + 1))
  }

  lemma AroundPrefix(pr: Problem<Id>, q: Setting, st: seq<Step>, k: nat, i: nat, t: nat, ids: seq<Id>)
    requires PlanFor(q, st) && Plans(pr, q, st) && k < |st| && AtPrefix(pr, q, st, k, i, ids)
    requires t < |Fitting(q, st[k].id, Tried(q, st[k], ids))|
    ensures Around(pr, k, i, Offset(pr, k, Prefixes(pr, k), i) + t)
  {
    UsedUp(pr, q, st, k, i, ids);
  }

  lemma NodePassed(pr: Problem<Id>, q: Setting, st: seq<Step>, k: nat, j: nat, ids: seq<Id>) returns (i: nat)
    requires PlanFor(q, st) && Plans(pr, q, st) && k < |st| && AtPrefix(pr, q, st, k + 1, j, ids) && OneSided(st[k])
    ensures Passed(pr, q, st, k, i, j, ids) && Around(pr, k, i, j)
  {
    var t;
    i, t := ComesFrom(pr, q, st, k, j, ids);
    AroundPrefix(pr, q, st, k, i, t, ids);
    DerivedTried(q, st, k, Prefixes(pr, k)[i], ids);
    UsedUp(pr, q, st, k, i, ids);
  }

  lemma NodeTaken(pr: Problem<Id>, q: Setting, st: seq<Step>, k: nat, i: nat, j: nat, before: seq<Id>, ids: seq<Id>)
    requires PlanFor(q, st) && Plans(pr, q, st) && k < |st| && AtPrefix(pr, q, st, k, i, before) && OneSided(st[k])
    requires Offset(pr, k, Prefixes(pr, k), i) == j + 1 && before[Beside(st[k])] in q.ends
    requires ids == before[st[k].id := Derived(q, st[k], before)]
    ensures if Fits(q, st[k].id, ids[st[k].id]) then AtPrefix(pr, q, st, k + 1, j + 1, ids) && Around(pr, k, i, j + 1)
            else Passed(pr, q, st, k, i, j, ids)
  {
    DerivedTried(q, st, k, Prefixes(pr, k)[i], before);
    StillThere(pr, q, st, k, i, before, ids);
    if Fits(q, st[k].id, ids[st[k].id]) {
      LeadsTo(pr, q, st, k, i, 0, ids);
      AroundPrefix(pr, q, st, k, i, 0, ids);
    } else {
      UsedUp(pr, q, st, k, i, ids);
    }
  }

  /** The place of a candidate in the list of the tried elements tells its number. */
  lemma PlaceOf(q: Setting, p: nat, s: seq<Id>, list: seq<Id>, i: nat, t: nat)
    requires Climbs(s, Fitting(q, p, list)) && i < |list|
    requires t < |Fitting(q, p, list)| && Fitting(q, p, list)[t] == list[i]
    ensures |Fitting(q, p, list[..i + 1])| == t + 1
  {
    var cs, a := Fitting(q, p, list), Fitting(q, p, list[..i]);
    FittingNext(q, p, list, i);
    assert cs[t] in cs;
    InFitting(q, p, list, list[i]);
    assert cs[|a|] == list[i] == cs[t];
    assert Rank(s, cs[|a|]) == Rank(s, cs[t]);
  }

  /** The current element is in the list of the tried elements. */
  lemma Listed(pr: Problem<Id>, q: Setting, st: seq<Step>, k: nat, j: nat, ids: seq<Id>)
    requires PlanFor(q, st) && Plans(pr, q, st) && k < |st| && AtPrefix(pr, q, st, k + 1, j, ids)
    ensures ids[st[k].id] in Tried(q, st[k], ids)
  {
    var i, t := ComesFrom(pr, q, st, k, j, ids);
    InFitting(q, st[k].id, Tried(q, st[k], ids), ids[st[k].id]);
  }

  /** The continuations of the prefix number `i` with elements of `list` from `start` on
      come after number `j`. */
  ghost predicate Pending(pr: Problem<Id>, q: Setting, st: seq<Step>, k: nat, i: nat, j: nat,
                          ids: seq<Id>, list: seq<Id>, start: nat)
    requires PlanFor(q, st) && k < |st| == |pr.at|
  {
    && AtPrefix(pr, q, st, k, i, ids) && start <= |list| && list == Tried(q, st[k], ids)
    && j + 1 == Offset(pr, k, Prefixes(pr, k), i) + |Fitting(q, st[k].id, list[..start])|
  }

  lemma FromStart(pr: Problem<Id>, q: Setting, st: seq<Step>, k: nat, i: nat, j: nat, ids: seq<Id>, list: seq<Id>)
    requires PlanFor(q, st) && k < |st| == |pr.at| && AtPrefix(pr, q, st, k, i, ids) && list == Tried(q, st[k], ids)
    requires j + 1 == Offset(pr, k, Prefixes(pr, k), i)
    ensures Pending(pr, q, st, k, i, j, ids, list, 0)
  {
    assert Fitting(q, st[k].id, list[..0]) == [];
  }

  lemma ListPassed(pr: Problem<Id>, q: Setting, st: seq<Step>, k: nat, j: nat, ids: seq<Id>, list: seq<Id>, start: nat)
    returns (i: nat)
    requires WellFormed(q) && PlanFor(q, st) && Plans(pr, q, st) && k < |st| && AtPrefix(pr, q, st, k + 1, j, ids)
    requires list == Tried(q, st[k], ids) && start < |list| && list[start] == ids[st[k].id]
    ensures Pending(pr, q, st, k, i, j, ids, list, start + 1) && Around(pr, k, i, j)
  {
    var p, t := st[k].id, 0;
    i, t := ComesFrom(pr, q, st, k, j, ids);
    AroundPrefix(pr, q, st, k, i, t, ids);
    TriedRise(q, st[k], ids);
    FittingRises(q, p, Stored(q, p), list);
    PlaceOf(q, p, Stored(q, p), list, start, t);
  }

  /** After a scan of the list the engine is at the next prefix, or done with this one. */
  lemma Scanned(pr: Problem<Id>, q: Setting, st: seq<Step>, k: nat, i: nat, j: nat,
                before: seq<Id>, ids: seq<Id>, list: seq<Id>, start: nat, ok: bool)
    requires PlanFor(q, st) && Plans(pr, q, st) && k < |st| && Pending(pr, q, st, k, i, j, before, list, start)
    requires |ids| == |before| && ids == before[st[k].id := ids[st[k].id]]
    requires if ok then Fitting(q, st[k].id, list[..start]) + [ids[st[k].id]] <= Fitting(q, st[k].id, list)
             else Fitting(q, st[k].id, list) == Fitting(q, st[k].id, list[..start])
    ensures if ok then AtPrefix(pr, q, st, k + 1, j + 1, ids) && Around(pr, k, i, j + 1)
            else Passed(pr, q, st, k, i, j, ids)
  {
    StillThere(pr, q, st, k, i, before, ids);
    if ok {
      AroundPrefix(pr, q, st, k, i, |Fitting(q, st[k].id, list[..start])|, ids);
      LeadsTo(pr, q, st, k, i, |Fitting(q, st[k].id, list[..start])|, ids);
    } else {
      UsedUp(pr, q, st, k, i, ids);
    }
  }

  // ---------------------------------------------------------------------------
  // Failing assertions on the way to a prefix.
  // ---------------------------------------------------------------------------

  /** A step fails for the engine's state if and only if it fails for the prefix. */
  lemma FailsSame(q: Setting, st: seq<Step>, k: nat, m: seq<Id>, ids: seq<Id>)
    requires PlanFor(q, st) && k < |st| && Agrees(q, st, k, m, ids)
    ensures Fails(q, st[k], m) == Fails(q, st[k], ids)
  {
    assert ExactAfter(st[..k], st[k]);
    if IsLeft(st[k].constraint) {
      var h := VisitedBefore(st, k, st[k].id - 1);
      assert AgreesAt(q, st[h].id, m, ids);
    }
    if IsRight(st[k].constraint) {
      var h := VisitedBefore(st, k, st[k].id + 1);
      assert AgreesAt(q, st[h].id, m, ids);
    }
  }

  /** A step that goes through a list never fails. */
  predicate Lists(s: Step) {
    !s.direct && (s.id % 2 == 1 || s.constraint == NotConstrained)
  }

  lemma MetAround(pr: Problem<Id>, fails: (nat, seq<Id>) -> bool, k: nat, i: nat, j: nat)
    requires k < |pr.at| && Around(pr, k, i, j)
    ensures Met(pr, fails, k + 1, j) <==> Met(pr, fails, k, i) || MetAt(pr, fails, k, i)
  {
    MetParent(pr, fails, k, i, j);
  }

  /** Going through a list, nothing fails. */
  lemma ListMet(pr: Problem<Id>, fails: (nat, seq<Id>) -> bool, q: Setting, st: seq<Step>, k: nat, i: nat, j: nat)
    requires Watches(fails, q, st) && k < |st| == |pr.at| && Lists(st[k]) && Around(pr, k, i, j)
    ensures Met(pr, fails, k + 1, j) <==> Met(pr, fails, k, i)
  {
    MetAround(pr, fails, k, i, j);
  }

  /** Behind the last prefix. */
  lemma MetBehindLast(pr: Problem<Id>, fails: (nat, seq<Id>) -> bool, k: nat, i: nat)
    requires k < |pr.at| && i + 1 == |Prefixes(pr, k)|
    ensures Met(pr, fails, k + 1, |Prefixes(pr, k + 1)|) <==> Met(pr, fails, k, i + 1) || MetAt(pr, fails, k, i)
  {
    AroundEnd(pr, k);
    MetAround(pr, fails, k, |Prefixes(pr, k)|, |Prefixes(pr, k + 1)|);
  }

  lemma AroundEnd(pr: Problem<Id>, k: nat)
    requires k < |pr.at|
    ensures Around(pr, k, |Prefixes(pr, k)|, |Prefixes(pr, k + 1)|)
  {
    var ms := Prefixes(pr, k);
    assert ms[..|ms|] == ms;
    PrefixesNext(pr, k);
  }

  /** Trying one more element of a list, after those before it led to nothing. */
  lemma AheadStep(pr: Problem<Id>, fails: (nat, seq<Id>) -> bool, q: Setting, k: nat, m: seq<Id>, p: nat, list: seq<Id>, i: nat)
    requires k < |pr.at| && i < |list| && pr.tries(k, m) == Fitting(q, p, list)
    requires ResultsFor(pr, k, m, Fitting(q, p, list[..i])) == []
    ensures AheadWith(pr, fails, k, m, Fitting(q, p, list[..i + 1])) <==>
      || AheadWith(pr, fails, k, m, Fitting(q, p, list[..i]))
      || AheadWith(pr, fails, k, m, if Fits(q, p, list[i]) then [list[i]] else [])
    ensures ResultsFor(pr, k, m, Fitting(q, p, list[..i + 1])) != [] ==>
      (AheadWith(pr, fails, k, m, pr.tries(k, m)) <==> AheadWith(pr, fails, k, m, Fitting(q, p, list[..i + 1])))
  {
    FittingNext(q, p, list, i);
    AheadAppend(pr, fails, k, m, Fitting(q, p, list[..i]), if Fits(q, p, list[i]) then [list[i]] else []);
    AheadAppend(pr, fails, k, m, Fitting(q, p, list[..i + 1]), Fitting(q, p, list[i + 1..]));
  }

  lemma NothingAhead(pr: Problem<Id>, fails: (nat, seq<Id>) -> bool, k: nat, m: seq<Id>)
    requires k < |pr.at| && pr.tries(k, m) == []
    ensures Ahead(pr, fails, k, m) <==> fails(k, m)
  {
    AheadByCandidates(pr, fails, k, m);
    AheadNone(pr, fails, k, m);
  }

  /** On direct steps a run comes to its only prefix at once. */
  lemma DirectMet(pr: Problem<Id>, fails: (nat, seq<Id>) -> bool, q: Setting, st: seq<Step>, n: nat, j: nat)
    requires Plans(pr, q, st) && DirectFirst(st) && n <= |st| && (0 < n ==> st[n - 1].direct)
    ensures Met(pr, fails, n, j) <==> exists h: nat {:trigger Prefixes(pr, h)} :: h < n && Prefixes(pr, h) != [] && fails(h, Prefixes(pr, h)[0])
  {
    forall h: nat | h < n ensures |Prefixes(pr, h)| <= 1 {
      assert 0 < h ==> st[h - 1].direct;
      DirectSingle(pr, q, st, h);
    }
    MetSingle(pr, fails, n, j);
  }

  // ---------------------------------------------------------------------------
  // The iterator.
  // ---------------------------------------------------------------------------

  /** What holds before the search for the first match. */
  lemma SearchBegins(q: Setting)
    requires WellFormed(q)
    ensures var st := Steps(q);
      && PlanFor(q, st) && Plans(Choices(q, st), q, st) && DirectFirst(st) && |st| == 2 * |q.dirs| + 1
      && Agrees(q, st, 0, Blank(q), Blank(q))
  {
    StepsArePlan(q);
    StepsDirectFirst(q);
    PlanLength(Flags(q));
    ChoicesPlan(q, Steps(q));
  }

  class PathIterator {
    const q: Setting
    const steps: seq<Step>
    ghost const pr: Problem<Id>
    /** Which steps fail an assertion, after which choices. */
    ghost const fails: (nat, seq<Id>) -> bool
    /** The chosen elements by position: nodes at even, edges at odd positions. */
    var ids: seq<Id>
    var found: bool
    var isEnd: bool
    /** An assertion of the engine has failed. */
    var stopped: bool
    /** All that the engine's choices lead to, and the number of the current one. */
    ghost const all: seq<seq<Id>>
    ghost var pos: nat

    ghost predicate Ready() {
      WellFormed(q) && PlanFor(q, steps) && Plans(pr, q, steps) && Watches(fails, q, steps)
    }

    /** The index entry with the edges that may stand at edge position `p`, seen from the
        node chosen to the left of it, and from the node to the right. */
    function LeftSet(p: nat): (r: seq<Id>)
      requires 0 < p && p / 2 < |q.dirs| && p - 1 < |ids|
      reads this`ids
      ensures r == RightOf(q, p, ids[p - 1])
    {
      if q.dirs[p / 2] == Next then EdgesAt(q, ids[p - 1], true, q.edgeIds)
      else EdgesAt(q, ids[p - 1], false, q.edgeIds)
    }

    function RightSet(p: nat): (r: seq<Id>)
      requires p / 2 < |q.dirs| && p + 1 < |ids|
      reads this`ids
      ensures r == LeftOf(q, p, ids[p + 1])
    {
      if q.dirs[p / 2] == Prev then EdgesAt(q, ids[p + 1], true, q.edgeIds)
      else EdgesAt(q, ids[p + 1], false, q.edgeIds)
    }

    /** The properties asked for at position `p` hold of the chosen element. */
    predicate IsSelfConstrained(p: nat)
      requires p < |ids|
      reads this`ids
    {
      Fits(q, p, ids[p])
    }

    /** Looks at the properties of the chosen element; for a node an assertion says that
        it is stored. */
    method CheckSelf(p: nat) returns (ok: bool)
      requires p < |ids|
      modifies this`stopped
      ensures ok == Fits(q, p, ids[p])
      ensures stopped == (old(stopped) || (p % 2 == 0 && ids[p] !in q.nodes))
    {
      if p % 2 == 0 && ids[p] !in q.nodes { stopped := true; }
      ok := IsSelfConstrained(p);
    }

    /** The far end of the edge to the left, and of the edge to the right. */
    function NodeFromLeftEdge(p: nat): (r: Id)
      requires 0 < p && (p - 1) / 2 < |q.dirs| && p - 1 < |ids| && ids[p - 1] in q.ends
      reads this`ids
      ensures r == RightEnd(q, p - 1, ids[p - 1])
    {
      match q.dirs[(p - 1) / 2]
      case Next => q.ends[ids[p - 1]].to
      case Prev => q.ends[ids[p - 1]].from
    }

    function NodeFromRightEdge(p: nat): (r: Id)
      requires (p + 1) / 2 < |q.dirs| && p + 1 < |ids| && ids[p + 1] in q.ends
      reads this`ids
      ensures r == RightEnd(q, p + 1, ids[p + 1])
    {
      match q.dirs[(p + 1) / 2]
      case Next => q.ends[ids[p + 1]].to
      case Prev => q.ends[ids[p + 1]].from
    }

    /** What a search from step `k` on, continuing the prefix `m`, has to establish. */
    ghost predicate Searched(k: nat, m: seq<Id>)
      requires Ready() && k <= |steps|
      reads this`ids, this`found
    {
      var r := Results(pr, k, m);
      Agrees(q, steps, k, m, ids) && found == (r != []) && (found ==> Agrees(q, steps, |steps|, r[0], ids))
    }

    method SearchPossible(k: nat, ghost m: seq<Id>)
      requires Ready() && k <= |steps| && Agrees(q, steps, k, m, ids)
      modifies this`ids, this`found, this`stopped
      ensures if old(found) then found && ids == old(ids) else Searched(k, m)
      ensures stopped == (old(stopped) || (!old(found) && Ahead(pr, fails, k, m)))
      decreases |steps| - k, 2
    {
      if found { return; }
      if k >= |steps| {
        found := true;
        return;
      }
      AgreeTried(pr, q, steps, k, m, ids);
      FailsSame(q, steps, k, m, ids);
      if steps[k].direct {
        SearchDirect(k, m);
      } else if steps[k].id % 2 == 0 {
        SearchNode(k, m);
      } else {
        SearchEdge(k, m);
      }
    }

    method SearchNode(k: nat, ghost m: seq<Id>)
      requires Ready() && !found && k < |steps| && Agrees(q, steps, k, m, ids)
      requires steps[k].id % 2 == 0 && !steps[k].direct
      requires pr.tries(k, m) == Fitting(q, steps[k].id, Tried(q, steps[k], ids)) && fails(k, m) == Fails(q, steps[k], ids)
      modifies this`ids, this`found, this`stopped
      ensures Searched(k, m)
      ensures stopped == (old(stopped) || Ahead(pr, fails, k, m))
      decreases |steps| - k, 1
    {
      var p := steps[k].id;
      NeighboursStored(q, steps, k, m, ids);
      match steps[k].constraint
      case LeftConstrained => SearchOne(k, m, NodeFromLeftEdge(p));
      case RightConstrained => SearchOne(k, m, NodeFromRightEdge(p));
      case BothConstrained =>
        BothTried(q, steps[k], ids);
        SearchBoth(k, m);
      case NotConstrained => SearchList(k, m, q.nodes);
    }

    method SearchEdge(k: nat, ghost m: seq<Id>)
      requires Ready() && !found && k < |steps| && Agrees(q, steps, k, m, ids)
      requires steps[k].id % 2 == 1 && !steps[k].direct
      requires pr.tries(k, m) == Fitting(q, steps[k].id, Tried(q, steps[k], ids)) && fails(k, m) == Fails(q, steps[k], ids)
      modifies this`ids, this`found, this`stopped
      ensures Searched(k, m)
      ensures stopped == (old(stopped) || Ahead(pr, fails, k, m))
      decreases |steps| - k, 1
    {
      var p := steps[k].id;
      match steps[k].constraint
      case LeftConstrained => SearchList(k, m, LeftSet(p));
      case RightConstrained => SearchList(k, m, RightSet(p));
      case BothConstrained => SearchList(k, m, Common(LeftSet(p), RightSet(p)));
      // A plan leaves no edge without constraint.
      case NotConstrained => assert false;
    }

    method SearchBoth(k: nat, ghost m: seq<Id>)
      requires Ready() && !found && k < |steps| && Agrees(q, steps, k, m, ids)
      requires steps[k].id % 2 == 0 && steps[k].constraint == BothConstrained && !steps[k].direct
      requires InBetween(q, steps[k].id, ids)
      requires pr.tries(k, m) == BothEnds(q, steps[k].id, ids) && fails(k, m) == Fails(q, steps[k], ids)
      modifies this`ids, this`found, this`stopped
      ensures Searched(k, m)
      ensures stopped == (old(stopped) || Ahead(pr, fails, k, m))
      decreases |steps| - k, 0
    {
      var p := steps[k].id;
      AgreeStays(q, steps, k, m, ids, NodeFromLeftEdge(p));
      ids := ids[p := NodeFromLeftEdge(p)];
      var ok := ids[p] == NodeFromRightEdge(p);
      if ok { ok := CheckSelf(p); }
      if ok {
        SearchChosen(k, m, ids[p]);
      } else {
        NoResults(pr, k, m);
        NothingAhead(pr, fails, k, m);
      }
    }

    /** A directly named element is checked against the neighbours visited before. */
    method SearchDirect(k: nat, ghost m: seq<Id>)
      requires Ready() && !found && k < |steps| && Agrees(q, steps, k, m, ids)
      requires steps[k].direct
      requires pr.tries(k, m) == Fitting(q, steps[k].id, Tried(q, steps[k], ids)) && fails(k, m) == Fails(q, steps[k], ids)
      modifies this`ids, this`found, this`stopped
      ensures Searched(k, m)
      ensures stopped == (old(stopped) || Ahead(pr, fails, k, m))
      decreases |steps| - k, 1
    {
      var p := steps[k].id;
      AgreeStays(q, steps, k, m, ids, q.direct[p].value);
      var ok := CheckDirect(k);
      if ok {
        SearchChosen(k, m, q.direct[p].value);
      } else {
        NoResults(pr, k, m);
        NothingAhead(pr, fails, k, m);
      }
    }

    method CheckDirect(k: nat) returns (ok: bool)
      requires Ready() && k < |steps| && steps[k].direct && |ids| == |q.direct|
      modifies this`ids, this`stopped
      ensures ids == old(ids)[steps[k].id := q.direct[steps[k].id].value]
      ensures Fitting(q, steps[k].id, Tried(q, steps[k], old(ids))) == if ok then [q.direct[steps[k].id].value] else []
      ensures ok ==> Fits(q, steps[k].id, q.direct[steps[k].id].value)
      ensures stopped == (old(stopped) || Fails(q, steps[k], old(ids)))
    {
      var p, c := steps[k].id, steps[k].constraint;
      ids := ids[p := q.direct[p].value];
      ok := IsSelfConstrained(p);
      if ok && IsLeft(c) { ok := CheckLeftConstrained(k); }
      if ok && IsRight(c) { ok := CheckRightConstrained(k); }
      DirectTries(q, steps[k], old(ids), ids[p], ok);
    }

    /** The element at step `k` against its left neighbour.  For a node the engine asks for
        the edge number of the node's own position, which fails. */
    method CheckLeftConstrained(k: nat) returns (ok: bool)
      requires Ready() && |ids| == |q.direct| && k < |steps| && IsLeft(steps[k].constraint) && steps[k].direct
      modifies this`stopped
      ensures ok == (steps[k].id % 2 == 1 && ids[steps[k].id] in RightOf(q, steps[k].id, ids[steps[k].id - 1]))
      ensures stopped == (old(stopped) || steps[k].id % 2 == 0)
    {
      var p := steps[k].id;
      if p % 2 == 1 {
        ok := ids[p] in LeftSet(p);
      } else {
        ok, stopped := false, true;
      }
    }

    method CheckRightConstrained(k: nat) returns (ok: bool)
      requires Ready() && |ids| == |q.direct| && k < |steps| && IsRight(steps[k].constraint)
      ensures ok == if steps[k].id % 2 == 1 then ids[steps[k].id] in LeftOf(q, steps[k].id, ids[steps[k].id + 1])
                    else ids[steps[k].id + 1] in q.ends && LeftEnd(q, steps[k].id + 1, ids[steps[k].id + 1]) == ids[steps[k].id]
    {
      var p := steps[k].id;
      if p % 2 == 1 {
        ok := ids[p] in RightSet(p);
      } else {
        var e := ids[p + 1];
        ok := e in q.ends && ids[p] == if q.dirs[(p + 1) / 2] == Next then q.ends[e].from else q.ends[e].to;
      }
    }

    /** A list of elements to try, one after the other. */
    method SearchList(k: nat, ghost m: seq<Id>, list: seq<Id>)
      requires Ready() && !found && k < |steps| && Agrees(q, steps, k, m, ids)
      requires pr.tries(k, m) == Fitting(q, steps[k].id, list) && !fails(k, m)
      modifies this`ids, this`found, this`stopped
      ensures Searched(k, m)
      ensures stopped == (old(stopped) || Ahead(pr, fails, k, m))
      decreases |steps| - k, 0, |list| + 1
    {
      ghost var p := steps[k].id;
      ResultsForNone(pr, k, m);
      AheadNone(pr, fails, k, m);
      AheadByCandidates(pr, fails, k, m);
      for i := 0 to |list|
        invariant !found && Agrees(q, steps, k, m, ids)
        invariant ResultsFor(pr, k, m, Fitting(q, p, list[..i])) == []
        invariant stopped == (old(stopped) || AheadWith(pr, fails, k, m, Fitting(q, p, list[..i])))
      {
        FittingNext(q, p, list, i);
        AheadStep(pr, fails, q, k, m, p, list, i);
        SearchNext(k, m, Fitting(q, p, list[..i]), list[i], Fitting(q, p, list[i + 1..]));
        if found { return; }
      }
      assert list[..|list|] == list;
      ResultsByCandidates(pr, k, m);
    }

    /** One element of a list, after the candidates `a` have led to nothing. */
    method SearchNext(k: nat, ghost m: seq<Id>, ghost a: seq<Id>, c: Id, ghost b: seq<Id>)
      requires Ready() && !found && k < |steps| && Agrees(q, steps, k, m, ids)
      requires pr.tries(k, m) == a + (if Fits(q, steps[k].id, c) then [c] else []) + b
      requires ResultsFor(pr, k, m, a) == []
      modifies this`ids, this`found, this`stopped
      ensures Agrees(q, steps, k, m, ids)
      ensures found ==> Searched(k, m)
      ensures var cs := if Fits(q, steps[k].id, c) then [c] else [];
        && found == (ResultsFor(pr, k, m, a + cs) != [])
        && stopped == (old(stopped) || AheadWith(pr, fails, k, m, cs))
      decreases |steps| - k, 0, 0
    {
      var p := steps[k].id;
      AgreeStays(q, steps, k, m, ids, c);
      ids := ids[p := c];
      if IsSelfConstrained(p) {
        ResultsUpTo(pr, k, m, a, c, b);
        AheadOne(pr, fails, k, m, c);
        SearchPossible(k + 1, Put(m, p, c));
        AgreeBack(q, steps, k, m, c, ids);
      } else {
        assert a + [] == a;
        AheadNone(pr, fails, k, m);
      }
    }

    /** The only candidate has been filled in. */
    method SearchChosen(k: nat, ghost m: seq<Id>, ghost c: Id)
      requires Ready() && !found && k < |steps| && Agrees(q, steps, k, m, ids)
      requires pr.tries(k, m) == [c] && ids[steps[k].id] == c && Fits(q, steps[k].id, c) && !fails(k, m)
      modifies this`ids, this`found, this`stopped
      ensures Searched(k, m)
      ensures stopped == (old(stopped) || Ahead(pr, fails, k, m))
      decreases |steps| - k, 0, 0
    {
      AgreeMore(q, steps, k, m, ids);
      OneCandidate(pr, k, m, c);
      AheadByCandidates(pr, fails, k, m);
      AheadOne(pr, fails, k, m, c);
      SearchPossible(k + 1, Put(m, steps[k].id, c));
      AgreeBack(q, steps, k, m, c, ids);
    }

    method SearchOne(k: nat, ghost m: seq<Id>, c: Id)
      requires Ready() && !found && k < |steps| && Agrees(q, steps, k, m, ids)
      requires pr.tries(k, m) == Fitting(q, steps[k].id, [c])
      requires steps[k].id % 2 == 0 && fails(k, m) == (c !in q.nodes)
      modifies this`ids, this`found, this`stopped
      ensures Searched(k, m)
      ensures stopped == (old(stopped) || Ahead(pr, fails, k, m))
      decreases |steps| - k, 0, 1
    {
      var p := steps[k].id;
      FittingOne(q, p, c);
      AgreeStays(q, steps, k, m, ids, c);
      ids := ids[p := c];
      var ok := CheckSelf(p);
      if ok {
        SearchChosen(k, m, c);
      } else {
        NoResults(pr, k, m);
        NothingAhead(pr, fails, k, m);
      }
    }

    // -------------------------------------------------------------------------
    // The next match.
    // -------------------------------------------------------------------------

    /** The elements to try at step `k`: all nodes, or the edges of the index entries. */
    method ListFor(k: nat) returns (list: seq<Id>)
      requires Ready() && |ids| == |q.direct| && k < |steps| && Lists(steps[k])
      ensures list == Tried(q, steps[k], ids)
    {
      var p := steps[k].id;
      if p % 2 == 0 { return q.nodes; }
      match steps[k].constraint
      case LeftConstrained => list := LeftSet(p);
      case RightConstrained => list := RightSet(p);
      case BothConstrained => list := Common(LeftSet(p), RightSet(p));
      // A plan leaves no edge without constraint.
      case NotConstrained => assert false;
    }

    /** The elements to try at step `k`, and the place after the current one. */
    method AfterCurrent(k: nat, ghost j: nat) returns (list: seq<Id>, start: nat, ghost i: nat)
      requires k < |steps| && Ready() && Lists(steps[k])
      requires AtPrefix(pr, q, steps, k + 1, j, ids)
      ensures Pending(pr, q, steps, k, i, j, ids, list, start)
      ensures Met(pr, fails, k + 1, j) <==> Met(pr, fails, k, i)
    {
      list := ListFor(k);
      Listed(pr, q, steps, k, j, ids);
      start := Find(list, ids[steps[k].id]);
      i := ListPassed(pr, q, steps, k, j, ids, list, start);
      ListMet(pr, fails, q, steps, k, i, j);
      start := start + 1;
    }

    /** The first element of `list` from `start` on that has the properties asked for. */
    method Scan(p: nat, list: seq<Id>, start: nat) returns (ok: bool)
      requires p < |ids| && start <= |list|
      modifies this`ids
      ensures |ids| == |old(ids)| && ids == old(ids)[p := ids[p]]
      ensures ok ==> Fitting(q, p, list[..start]) + [ids[p]] <= Fitting(q, p, list)
      ensures !ok ==> Fitting(q, p, list) == Fitting(q, p, list[..start])
    {
      var i := start;
      while i < |list|
        invariant start <= i <= |list| && |ids| == |old(ids)| && ids == old(ids)[p := ids[p]]
        invariant Fitting(q, p, list[..i]) == Fitting(q, p, list[..start])
      {
        FittingNext(q, p, list, i);
        ids := ids[p := list[i]];
        if IsSelfConstrained(p) { return true; }
        i := i + 1;
      }
      assert list[..i] == list;
      return false;
    }

    method Find(list: seq<Id>, x: Id) returns (i: nat)
      requires x in list
      ensures i < |list| && list[i] == x
    {
      i := 0;
      while list[i] != x
        invariant i < |list| && x in list[i..]
        decreases |list| - i
      {
        i := i + 1;
      }
    }

    /** From the prefix number `j` of the first `n` steps, of which step `k` is the last, to
        the next one, if there is one. */
    method FindNextPossible(k: int, ghost n: nat, ghost j: nat, ghost b: bool) returns (ok: bool)
      requires k == n - 1 && n <= |steps| && Ready() && NoneBetween(steps) && DirectFirst(steps)
      requires AtPrefix(pr, q, steps, n, j, ids) && stopped == (b || Met(pr, fails, n, j))
      modifies this`ids, this`stopped
      ensures if ok then AtPrefix(pr, q, steps, n, j + 1, ids) else j + 1 == |Prefixes(pr, n)|
      ensures stopped == (b || Met(pr, fails, n, j + 1))
      decreases n, 1
    {
      if k < 0 {
        return false;
      }
      if steps[k].direct {
        DirectSingle(pr, q, steps, n);
        DirectMet(pr, fails, q, steps, n, j);
        DirectMet(pr, fails, q, steps, n, j + 1);
        return false;
      }
      if steps[k].id % 2 == 0 && steps[k].constraint != NotConstrained {
        assert steps[k] in steps;
        ok := NextNode(k, j, b);
      } else {
        ok := NextInList(k, j, b);
      }
    }

    /** A node that is derived from the edge on its left, or on its right. */
    method NextNode(k: nat, ghost j: nat, ghost b: bool) returns (ok: bool)
      requires k < |steps| && Ready() && NoneBetween(steps) && DirectFirst(steps) && OneSided(steps[k])
      requires AtPrefix(pr, q, steps, k + 1, j, ids) && stopped == (b || Met(pr, fails, k + 1, j))
      modifies this`ids, this`stopped
      ensures if ok then AtPrefix(pr, q, steps, k + 1, j + 1, ids) else j + 1 == |Prefixes(pr, k + 1)|
      ensures stopped == (b || Met(pr, fails, k + 1, j + 1))
      decreases k + 1, 0, 1
    {
      ghost var i := NodePassed(pr, q, steps, k, j, ids);
      MetAround(pr, fails, k, i, j);
      while true
        invariant Passed(pr, q, steps, k, i, j, ids)
        invariant stopped == (b || MetAt(pr, fails, k, i) || Met(pr, fails, k, i))
        decreases |Prefixes(pr, k)| - i
      {
        ok := NextEdge(k, i, j, b);
        if !ok { return; }
        i := i + 1;
        ok := TakeNode(k, i, j, b);
        if ok { return; }
      }
    }

    /** From the prefix number `i`, all of whose continuations have been found, to the next. */
    method NextEdge(k: nat, ghost i: nat, ghost j: nat, ghost b: bool) returns (ok: bool)
      requires k < |steps| && Ready() && NoneBetween(steps) && DirectFirst(steps)
      requires Passed(pr, q, steps, k, i, j, ids) && stopped == (b || MetAt(pr, fails, k, i) || Met(pr, fails, k, i))
      modifies this`ids, this`stopped
      ensures if ok then AtPrefix(pr, q, steps, k, i + 1, ids) else j + 1 == |Prefixes(pr, k + 1)|
      ensures stopped == (b || if ok then MetAt(pr, fails, k, i) || Met(pr, fails, k, i + 1) else Met(pr, fails, k + 1, j + 1))
      decreases k + 1, 0, 0
    {
      ok := FindNextPossible(k - 1, k, i, b || MetAt(pr, fails, k, i));
      if !ok { MetBehindLast(pr, fails, k, i); }
    }

    /** Fills in the far end of the edge on one side, and looks at its properties. */
    method TakeNode(k: nat, ghost i: nat, ghost j: nat, ghost b: bool) returns (ok: bool)
      requires k < |steps| && Ready() && OneSided(steps[k]) && 0 < i && AtPrefix(pr, q, steps, k, i, ids)
      requires Offset(pr, k, Prefixes(pr, k), i) == j + 1
      requires stopped == (b || MetAt(pr, fails, k, i - 1) || Met(pr, fails, k, i))
      modifies this`ids, this`stopped
      ensures if ok then AtPrefix(pr, q, steps, k + 1, j + 1, ids) else Passed(pr, q, steps, k, i, j, ids)
      ensures stopped == (b || if ok then Met(pr, fails, k + 1, j + 1) else MetAt(pr, fails, k, i) || Met(pr, fails, k, i))
    {
      ghost var before := ids;
      DeriveNode(k, i);
      NodeTaken(pr, q, steps, k, i, j, before, ids);
      ok := CheckSelf(steps[k].id);
      MetAtNext(pr, fails, k, i - 1);
      if ok { MetAround(pr, fails, k, i, j + 1); }
    }

    /** Fills in the far end of the edge on one side. */
    method DeriveNode(k: nat, ghost i: nat)
      requires k < |steps| && Ready() && OneSided(steps[k]) && AtPrefix(pr, q, steps, k, i, ids)
      modifies this`ids
      ensures old(ids)[Beside(steps[k])] in q.ends
      ensures ids == old(ids)[steps[k].id := Derived(q, steps[k], old(ids))]
      ensures fails(k, Prefixes(pr, k)[i]) == (ids[steps[k].id] !in q.nodes)
    {
      var p := steps[k].id;
      ghost var m := Prefixes(pr, k)[i];
      NeighboursStored(q, steps, k, m, ids);
      FailsSame(q, steps, k, m, ids);
      if steps[k].constraint == LeftConstrained {
        ids := ids[p := NodeFromLeftEdge(p)];
      } else {
        ids := ids[p := NodeFromRightEdge(p)];
      }
    }

    /** The elements of a list from the one after the current element on, and if none fits,
        the lists for the prefixes that follow, from their beginnings. */
    method NextInList(k: nat, ghost j: nat, ghost b: bool) returns (ok: bool)
      requires k < |steps| && Ready() && NoneBetween(steps) && DirectFirst(steps) && Lists(steps[k])
      requires AtPrefix(pr, q, steps, k + 1, j, ids) && stopped == (b || Met(pr, fails, k + 1, j))
      modifies this`ids, this`stopped
      ensures if ok then AtPrefix(pr, q, steps, k + 1, j + 1, ids) else j + 1 == |Prefixes(pr, k + 1)|
      ensures stopped == (b || Met(pr, fails, k + 1, j + 1))
      decreases k + 1, 0, 1
    {
      var list, start;
      ghost var i: nat;
      list, start, i := AfterCurrent(k, j);
      while true
        invariant Pending(pr, q, steps, k, i, j, ids, list, start)
        invariant stopped == (b || Met(pr, fails, k, i))
        decreases |Prefixes(pr, k)| - i
      {
        ok := ScanFrom(k, list, start, i, j);
        if ok { return; }
        ok, list := NextList(k, i, j, b);
        if !ok { return; }
        i := i + 1;
        start := 0;
      }
    }

    /** The rest of one list. */
    method ScanFrom(k: nat, list: seq<Id>, start: nat, ghost i: nat, ghost j: nat) returns (ok: bool)
      requires k < |steps| && Ready() && Lists(steps[k]) && Pending(pr, q, steps, k, i, j, ids, list, start)
      modifies this`ids
      ensures if ok then AtPrefix(pr, q, steps, k + 1, j + 1, ids) else Passed(pr, q, steps, k, i, j, ids)
      ensures ok ==> (Met(pr, fails, k + 1, j + 1) <==> Met(pr, fails, k, i))
    {
      ghost var before := ids;
      ok := Scan(steps[k].id, list, start);
      Scanned(pr, q, steps, k, i, j, before, ids, list, start, ok);
      if ok { ListMet(pr, fails, q, steps, k, i, j + 1); }
    }

    /** The list for the prefix after number `i`, if there is one. */
    method NextList(k: nat, ghost i: nat, ghost j: nat, ghost b: bool) returns (ok: bool, list: seq<Id>)
      requires k < |steps| && Ready() && NoneBetween(steps) && DirectFirst(steps) && Lists(steps[k])
      requires Passed(pr, q, steps, k, i, j, ids) && stopped == (b || Met(pr, fails, k, i))
      modifies this`ids, this`stopped
      ensures if ok then Pending(pr, q, steps, k, i + 1, j, ids, list, 0) else j + 1 == |Prefixes(pr, k + 1)|
      ensures stopped == (b || if ok then Met(pr, fails, k, i + 1) else Met(pr, fails, k + 1, j + 1))
      decreases k + 1, 0, 0
    {
      list := [];
      ok := FindNextPossible(k - 1, k, i, b);
      if ok {
        list := ListFor(k);
        FromStart(pr, q, steps, k, i + 1, j, ids, list);
      } else {
        AroundEnd(pr, k);
        ListMet(pr, fails, q, steps, k, i + 1, j + 1);
      }
    }

    // -------------------------------------------------------------------------
    // Construction, the next match, and the whole run.
    // -------------------------------------------------------------------------

    /** Unless it has come to the end, the iterator is at the match number `pos`; an assertion
        has failed if and only if one fails on the way there. */
    ghost predicate Valid()
      reads this`ids, this`isEnd, this`pos, this`stopped
    {
      && Ready() && DirectFirst(steps) && |steps| == 2 * |q.dirs| + 1 && all == Prefixes(pr, |steps|)
      && (!isEnd ==> pos < |all| && Agrees(q, steps, |steps|, all[pos], ids))
      && stopped == Met(pr, fails, |steps|, if isEnd then |all| else pos)
    }

    constructor (q: Setting)
      requires WellFormed(q)
      ensures this.q == q && steps == Steps(q) && pr == Choices(q, steps) && fails == Failing(q, steps)
      ensures all == All(q) && Valid()
      ensures isEnd == (all == []) && (!isEnd ==> pos == 0 && ids == all[0])
      ensures stopped == Met(pr, fails, |steps|, 0)
    {
      this.q := q;
      var plan := GenerateDeductionSteps(Flags(q));
      steps := plan;
      pr := Choices(q, plan);
      fails := Failing(q, plan);
      all := All(q);
      ids, found, isEnd, stopped, pos := Blank(q), false, false, false, 0;
      new;
      SearchBegins(q);
      FailingWatches(q, steps);
      FindFirst();
    }

    /** The search for the first match, with which an iterator starts. */
    method FindFirst()
      requires Ready() && Agrees(q, steps, 0, Blank(q), ids)
      requires !found && !stopped && all == Results(pr, 0, Blank(q))
      modifies this`ids, this`found, this`isEnd, this`stopped
      ensures isEnd == (all == []) && (!isEnd ==> ids == all[0] && Agrees(q, steps, |steps|, all[0], ids))
      ensures stopped == Met(pr, fails, |steps|, 0)
    {
      SearchPossible(0, Blank(q));
      isEnd := !found;
      if found { AgreeAll(q, steps, all[0], ids); }
    }

    /** The operator ++; it throws at the end. */
    method Advance() returns (thrown: bool)
      requires Valid() && NoneBetween(steps)
      modifies this`ids, this`isEnd, this`pos, this`stopped
      ensures Valid() && thrown == old(isEnd)
      ensures thrown ==> isEnd && ids == old(ids) && stopped == old(stopped)
      ensures !thrown ==> isEnd == (old(pos) + 1 == |all|)
      ensures !isEnd ==> pos == old(pos) + 1 < |all| && ids == all[pos]
    {
      if isEnd { return true; }
      thrown := false;
      var ok := FindNextPossible(2 * |q.dirs|, |steps|, pos, false);
      if ok {
        pos := pos + 1;
        AgreeAll(q, steps, all[pos], ids);
      } else {
        isEnd := true;
      }
    }

    /** A client's loop over the rest of the matches. */
    method Drain() returns (r: seq<seq<Id>>)
      requires Valid() && NoneBetween(steps) && (!isEnd ==> ids == all[pos])
      modifies this`ids, this`isEnd, this`pos, this`stopped
      ensures r == if old(isEnd) then [] else all[old(pos)..]
      ensures isEnd && Valid()
    {
      r := [];
      ghost var start := if isEnd then |all| else pos;
      while !isEnd
        invariant Valid()
        invariant if isEnd then r == all[start..]
                  else start <= pos && r == all[start..pos] && ids == all[pos]
        decreases !isEnd, |all| - pos
      {
        assert all[start..pos] + [all[pos]] == all[start..pos + 1];
        r := r + [ids];
        var thrown := Advance();
      }
    }
  }

  /** The matches in the lexicographic order of the plan. */
  ghost predicate Ordered(q: Setting, ms: seq<seq<Id>>)
    requires |q.direct| == 2 * |q.dirs| + 1
  {
    var p := Choices(q, Steps(q));
    Proper(p) && InOrder(p, StoreOrder(q), |p.at|, ms)
  }

  /** A whole query on a safe plan: from construction to the end it yields all matches,
      each once, in the lexicographic order of the plan, and no assertion fails. */
  method Query(q: Setting) returns (r: seq<seq<Id>>, stopped: bool)
    requires WellFormed(q) && Safe(Steps(q))
    ensures forall m :: m in r <==> Match(q, m)
    ensures forall i, j | 0 <= i < j < |r| :: r[i] != r[j]
    ensures Ordered(q, r) && !stopped
  {
    StepsNoneBetween(q);
    SafeNeverStops(q);
    r, stopped := Run(q);
    AllMatches(q);
  }

  lemma StepsNoneBetween(q: Setting)
    requires 0 < |q.direct| && Safe(Steps(q))
    ensures NoneBetween(Steps(q))
  {
  }

  /** A run on a plan that derives no node from both sides yields all that the engine's
      choices lead to, and fails an assertion if and only if one of the choices does. */
  method Run(q: Setting) returns (r: seq<seq<Id>>, stopped: bool)
    requires WellFormed(q) && NoneBetween(Steps(q))
    ensures r == All(q) && stopped == Stops(q)
  {
    var it := new PathIterator(q);
    r := it.Drain();
    stopped := it.stopped;
    StopsInTheEnd(q);
    assert it.all[0..] == it.all;
  }

  lemma StopsInTheEnd(q: Setting)
    requires WellFormed(q)
    ensures var st := Steps(q); var pr := Choices(q, st);
      Met(pr, Failing(q, st), |st|, |All(q)|) <==> Stops(q)
  {
    var st := Steps(q);
    var pr, fails := Choices(q, st), Failing(q, st);
    MetInTheEnd(pr, fails, |st|, |All(q)|);
    if h: nat :| h < |st| && MetAt(pr, fails, h, |Prefixes(pr, h)|) {
      var t: nat :| t < |Prefixes(pr, h)| && fails(h, Prefixes(pr, h)[t]);
      assert FailsAt(q, h, Prefixes(pr, h)[t]);
    }
    if k: nat, m :| FailsAt(q, k, m) {
      var t :| 0 <= t < |Prefixes(pr, k)| && Prefixes(pr, k)[t] == m;
      assert MetAt(pr, fails, k, |Prefixes(pr, k)|);
    }
  }

  /** Step `k` is for a named node that has the properties asked for, and its left
      neighbour has been visited before. */
  ghost predicate NamedBehindEdge(q: Setting, s: Step) {
    && s.direct && s.id % 2 == 0 && IsLeft(s.constraint)
    && s.id < |q.direct| && q.direct[s.id].Some? && Fits(q, s.id, q.direct[s.id].value)
  }

  /** Named positions come first: if the steps before lead to such a node at all, the
      assertion on its edge number fails before the first match is found. */
  lemma NamedNodeFails(q: Setting, k: nat)
    requires WellFormed(q) && k < |Steps(q)| && NamedBehindEdge(q, Steps(q)[k])
    requires Prefixes(Choices(q, Steps(q)), k) != []
    ensures Met(Choices(q, Steps(q)), Failing(q, Steps(q)), |Steps(q)|, 0) && Stops(q)
  {
    var st := Steps(q);
    var pr := Choices(q, st);
    SearchBegins(q);
    assert 0 < k ==> st[k - 1].direct;
    DirectSingle(pr, q, st, k);
    var m := Prefixes(pr, k)[0];
    assert m in Prefixes(pr, k);
    assert FailsAt(q, k, m);
    MetFirst(pr, Failing(q, st), |st|, k);
  }
}
