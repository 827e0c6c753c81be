// For which patterns the engine finds what it should, on every database.
module SafePlans {
  import opened Options
  import opened Planner
  import opened Backtracking
  import opened Matching
  import opened Enumeration

  /** The engine reports the matches of the query and nothing else. */
  ghost predicate Complete(q: Setting)
    requires |q.direct| == 2 * |q.dirs| + 1
  {
    forall m :: m in All(q) <==> Match(q, m)
  }

  // ---------------------------------------------------------------------------
  // A database with a single match: a chain of nodes and edges, one for each position,
  // and each only fit for its own position.
  // ---------------------------------------------------------------------------

  function Name(p: nat): (x: Id)
    ensures |x.name| == p + 1
  {
    Id(seq(p + 1, _ => 'x'))
  }

  function Chain(dirs: seq<Dir>, direct: seq<bool>): (q: Setting)
    ensures q.dirs == dirs && |q.direct| == |direct| && Flags(q) == direct
  {
    var nodes := seq(|dirs| + 1, i requires 0 <= i => Name(2 * i));
    var edgeIds := seq(|dirs|, i requires 0 <= i => Name(2 * i + 1));
    Setting(
      dirs, seq(|direct|, p requires 0 <= p < |direct| => if direct[p] then Some(Name(p)) else None),
      nodes, edgeIds,
      map e | e in edgeIds :: EndsOf(dirs, |e.name| - 1),
      set p: nat | p < |direct| :: (p, Name(p)))
  }

  function EndsOf(dirs: seq<Dir>, p: int): Ends {
    if 0 < p && p / 2 < |dirs| && dirs[p / 2] == Next then Ends(Name(p - 1), Name(p + 1))
    else if 0 < p then Ends(Name(p + 1), Name(p - 1))
    else Ends(UNSET, UNSET)
  }

  /** The database holds the chain's element for position `p`, with its neighbours as ends. */
  ghost predicate Has(q: Setting, p: nat)
    requires |q.direct| == 2 * |q.dirs| + 1 && p < |q.direct|
  {
    && (p, Name(p)) in q.ok
    && (p % 2 == 0 ==> Name(p) in q.nodes)
    && (p % 2 == 1 ==> Name(p) in q.edgeIds && Name(p) in q.ends
                       && LeftEnd(q, p, Name(p)) == Name(p - 1) && RightEnd(q, p, Name(p)) == Name(p + 1))
  }

  lemma ChainHas(dirs: seq<Dir>, direct: seq<bool>, p: nat)
    requires |direct| == 2 * |dirs| + 1 && p < |direct|
    ensures Has(Chain(dirs, direct), p)
  {
    var q := Chain(dirs, direct);
    if p % 2 == 0 {
      assert q.nodes[p / 2] == Name(2 * (p / 2));
    } else {
      assert q.edgeIds[p / 2] == Name(2 * (p / 2) + 1);
      assert q.ends[Name(p)] == EndsOf(dirs, p);
    }
  }

  lemma LongerDistinct(s: seq<Id>)
    requires forall i, j | 0 <= i < j < |s| :: |s[i].name| < |s[j].name|
    ensures Distinct(s)
  {
    forall i: nat, j: nat ensures Apart(s, i, j) {
      assert i < j < |s| ==> |s[i].name| < |s[j].name|;
    }
  }

  lemma EdgeName(dirs: seq<Dir>, direct: seq<bool>, e: Id) returns (p: nat)
    requires e in Chain(dirs, direct).edgeIds
    ensures p % 2 == 1 && p + 1 < 2 * |dirs| + 1 && e == Name(p)
  {
    var q := Chain(dirs, direct);
    var i :| 0 <= i < |q.edgeIds| && q.edgeIds[i] == e;
    p := 2 * i + 1;
  }

  lemma ChainEnds(dirs: seq<Dir>, direct: seq<bool>, e: Id)
    requires |direct| == 2 * |dirs| + 1 && e in Chain(dirs, direct).ends
    ensures var q := Chain(dirs, direct);
      q.ends[e].from in q.nodes && q.ends[e].to in q.nodes
  {
    var p := EdgeName(dirs, direct, e);
    ChainHas(dirs, direct, p - 1);
    ChainHas(dirs, direct, p + 1);
    assert Chain(dirs, direct).ends[e] == EndsOf(dirs, p);
  }

  lemma ChainWellFormed(dirs: seq<Dir>, direct: seq<bool>)
    requires |direct| == 2 * |dirs| + 1
    ensures WellFormed(Chain(dirs, direct))
  {
    var q := Chain(dirs, direct);
    LongerDistinct(q.nodes);
    LongerDistinct(q.edgeIds);
    forall e | e in q.ends ensures q.ends[e].from in q.nodes && q.ends[e].to in q.nodes {
      ChainEnds(dirs, direct, e);
    }
    forall p | 0 <= p < |q.direct| && p % 2 == 0 && q.direct[p].Some? ensures q.direct[p].value in q.nodes {
      ChainNamed(dirs, direct, p);
    }
  }

  lemma ChainNamed(dirs: seq<Dir>, direct: seq<bool>, p: nat)
    requires |direct| == 2 * |dirs| + 1 && p < |direct| && p % 2 == 0 && direct[p]
    ensures Chain(dirs, direct).direct[p] == Some(Name(p)) && Name(p) in Chain(dirs, direct).nodes
  {
    ChainHas(dirs, direct, p);
  }

  function Names(n: nat): (m: seq<Id>)
    ensures |m| == n && forall p: nat | p < n :: m[p] == Name(p)
  {
    seq(n, p requires 0 <= p => Name(p))
  }

  lemma ChainMatch(dirs: seq<Dir>, direct: seq<bool>)
    requires |direct| == 2 * |dirs| + 1
    ensures Match(Chain(dirs, direct), Names(|direct|))
  {
    forall p: nat | p < |direct| ensures Has(Chain(dirs, direct), p) { ChainHas(dirs, direct, p); }
    HasMatch(Chain(dirs, direct), Names(|direct|));
  }

  lemma HasMatch(q: Setting, m: seq<Id>)
    requires |q.direct| == 2 * |q.dirs| + 1 == |m| && forall p: nat | p < |q.direct| :: Has(q, p) && m[p] == Name(p)
    ensures Match(q, m)
  {
    forall p: nat | p < |m| ensures Stands(q, p, m[p]) { assert Has(q, p); }
    forall p: nat | p + 1 < |m| ensures Linked(q, p, m[p], m[p + 1]) { assert Has(q, p) && Has(q, p + 1); }
  }

  /** As far as filled in by the first `k` steps, `m` is the chain itself. */
  ghost predicate OwnNames(st: seq<Step>, k: nat, m: seq<Id>)
    requires k <= |st|
  {
    forall h: nat {:trigger st[h]} | h < k && st[h].id < |m| :: m[st[h].id] == Name(st[h].id)
  }

  /** Nothing but the chain's own element is fit for a position. */
  ghost predicate OnlyOwn(q: Setting) {
    forall p: nat, x {:trigger (p, x) in q.ok} | (p, x) in q.ok :: x == Name(p)
  }

  lemma OwnNext(q: Setting, st: seq<Step>, k: nat, m0: seq<Id>, m: seq<Id>)
    requires PlanFor(q, st) && k < |st| && |m0| == |q.direct| && Continues(Choices(q, st), k, m0, m)
    requires OnlyOwn(q) && OwnNames(st, k, m0)
    ensures |m| == |q.direct| && OwnNames(st, k + 1, m)
  {
    TriesAre(q, st, k, m0);
    var c :| c in Choices(q, st).tries(k, m0) && m == Put(m0, st[k].id, c);
    InFitting(q, st[k].id, Tried(q, st[k], m0), c);
    forall h: nat | h <= k && st[h].id < |m| ensures m[st[h].id] == Name(st[h].id) {
      if h < k { StepsDiffer(q, st, h, k); }
    }
  }

  ghost predicate AllOwn(q: Setting, st: seq<Step>, k: nat, ms: seq<seq<Id>>)
    requires k <= |st|
  {
    forall m {:trigger OwnNames(st, k, m)} | m in ms :: |m| == |q.direct| && OwnNames(st, k, m)
  }

  lemma {:induction false} ChoicesOwn(q: Setting, st: seq<Step>, k: nat)
    requires PlanFor(q, st) && k <= |st| && OnlyOwn(q)
    ensures AllOwn(q, st, k, Prefixes(Choices(q, st), k))
    decreases k
  {
    if k > 0 {
      var p := Choices(q, st);
      ChoicesOwn(q, st, k - 1);
      PrefixesNext(p, k - 1);
      forall m | m in Prefixes(p, k) ensures |m| == |q.direct| && OwnNames(st, k, m) {
        ExtendAllMember(p, k - 1, Prefixes(p, k - 1), m);
        var m0 :| m0 in Prefixes(p, k - 1) && Continues(p, k - 1, m0, m);
        assert OwnNames(st, k - 1, m0);
        OwnNext(q, st, k - 1, m0, m);
      }
    }
  }

  /** An element that was chosen before the step `k` for a neighbour of its position. */
  lemma NeighbourOwn(q: Setting, st: seq<Step>, k: nat, m: seq<Id>, p: nat)
    requires PlanFor(q, st) && k < |st| && |m| == |q.direct| && OwnNames(st, k, m) && p < |m|
    requires p in Ids(st[..k])
    ensures m[p] == Name(p)
  {
    var s :| s in st[..k] && s.id == p;
    var h: nat :| h < k && st[..k][h] == s;
    assert st[h].id == p;
  }

  /** At an unsafe step the engine turns the single match down. */
  lemma UnsafeStepFails(dirs: seq<Dir>, direct: seq<bool>, st: seq<Step>, k: nat, m: seq<Id>)
    requires |direct| == 2 * |dirs| + 1 && PlanFor(Chain(dirs, direct), st) && k < |st| && !SafeStep(st[k])
    requires |m| == |direct| && OwnNames(st, k, m)
    ensures Cands(Chain(dirs, direct), st[k], m) == []
  {
    var q, s := Chain(dirs, direct), st[k];
    if !s.direct {
      assert ExactAfter(st[..k], s);
      assert s.id + 1 in Ids(st[..k]) && s.id + 1 < |m|;
      NeighbourOwn(q, st, k, m, s.id + 1);
      ChainHas(dirs, direct, s.id + 1);
      if IsLeft(s.constraint) {
        NeighbourOwn(q, st, k, m, s.id - 1);
        ChainHas(dirs, direct, s.id - 1);
      }
      RightEndWrong(q, s, m);
    }
  }

  lemma RightEndWrong(q: Setting, s: Step, m: seq<Id>)
    requires InRange(q, s) && |m| == |q.direct| && s.id % 2 == 0 && !s.direct && IsRight(s.constraint)
    requires m[s.id + 1] in q.ends ==> RightEnd(q, s.id + 1, m[s.id + 1]) == Name(s.id + 2)
    requires OnlyOwn(q)
    ensures Cands(q, s, m) == []
  {
    var t, w := Tried(q, s, m), Name(s.id + 2);
    assert t == [] || t == [w];
    assert |Name(s.id).name| != |w.name|;
    assert !Fits(q, s.id, w);
    if t == [w] {
      assert t[..|t| - 1] == [];
      assert Fitting(q, s.id, t[..|t| - 1]) == [];
    }
  }

  lemma {:induction false} NothingToExtend<T>(p: Problem<T>, k: nat, ms: seq<seq<T>>)
    requires k < |p.at| && forall m | m in ms :: p.tries(k, m) == []
    ensures ExtendAll(p, k, ms) == []
  {
    if ms != [] {
      var last := ms[|ms| - 1];
      NothingToExtend(p, k, ms[..|ms| - 1]);
      assert last in ms && Extend(last, p.at[k], p.tries(k, last)) == [];
    }
  }

  lemma {:induction false} NothingLeft<T>(p: Problem<T>, k: nat, n: nat)
    requires k <= n <= |p.at| && Prefixes(p, k) == []
    ensures Prefixes(p, n) == []
  {
    if k < n {
      NothingLeft(p, k, n - 1);
      PrefixesNext(p, n - 1);
    }
  }

  /** For every pattern whose plan is not safe there is a database with a match where the
      engine finds nothing. */
  lemma UnsafeMisses(dirs: seq<Dir>, direct: seq<bool>)
    requires |direct| == 2 * |dirs| + 1 && !Safe(Plan(direct))
    ensures var q := Chain(dirs, direct);
      WellFormed(q) && Flags(q) == direct && Match(q, Names(|direct|)) && All(q) == []
  {
    var q := Chain(dirs, direct);
    var st := Steps(q);
    StepsArePlan(q);
    ChainWellFormed(dirs, direct);
    ChainMatch(dirs, direct);
    var s :| s in Plan(direct) && !SafeStep(s);
    var k: nat :| k < |st| && st[k] == s;
    ChoicesOwn(q, st, k);
    UnsafeNothing(dirs, direct, st, k);
  }

  lemma UnsafeNothing(dirs: seq<Dir>, direct: seq<bool>, st: seq<Step>, k: nat)
    requires |direct| == 2 * |dirs| + 1 && PlanFor(Chain(dirs, direct), st) && k < |st| && !SafeStep(st[k])
    requires AllOwn(Chain(dirs, direct), st, k, Prefixes(Choices(Chain(dirs, direct), st), k))
    ensures Prefixes(Choices(Chain(dirs, direct), st), |st|) == []
  {
    var q := Chain(dirs, direct);
    var p := Choices(q, st);
    forall m | m in Prefixes(p, k) ensures p.tries(k, m) == [] {
      assert OwnNames(st, k, m);
      TriesAre(q, st, k, m);
      UnsafeStepFails(dirs, direct, st, k, m);
    }
    NothingToExtend(p, k, Prefixes(p, k));
    PrefixesNext(p, k);
    NothingLeft(p, k + 1, |st|);
  }

  /** A query of the given pattern, on some database. */
  ghost predicate QueryFor(q: Setting, dirs: seq<Dir>, direct: seq<bool>) {
    WellFormed(q) && q.dirs == dirs && Flags(q) == direct
  }

  ghost predicate AlwaysComplete(dirs: seq<Dir>, direct: seq<bool>)
    requires |direct| == 2 * |dirs| + 1
  {
    forall q {:trigger Complete(q)} | QueryFor(q, dirs, direct) :: Complete(q)
  }

  lemma SafeComplete(dirs: seq<Dir>, direct: seq<bool>)
    requires |direct| == 2 * |dirs| + 1 && Safe(Plan(direct))
    ensures AlwaysComplete(dirs, direct)
  {
    forall q | QueryFor(q, dirs, direct) ensures Complete(q) { AllMatches(q); }
  }

  lemma UnsafeIncomplete(dirs: seq<Dir>, direct: seq<bool>)
    requires |direct| == 2 * |dirs| + 1 && !Safe(Plan(direct))
    ensures !AlwaysComplete(dirs, direct)
  {
    UnsafeMisses(dirs, direct);
    assert QueryFor(Chain(dirs, direct), dirs, direct);
    assert Names(|direct|) !in All(Chain(dirs, direct));
    assert !Complete(Chain(dirs, direct));
  }

  /** The engine is right about a pattern, whatever the database holds, if and only if
      the plan of the pattern is safe. */
  lemma ExactIffSafe(dirs: seq<Dir>, direct: seq<bool>)
    requires |direct| == 2 * |dirs| + 1
    ensures AlwaysComplete(dirs, direct) <==> Safe(Plan(direct))
  {
    if Safe(Plan(direct)) { SafeComplete(dirs, direct); } else { UnsafeIncomplete(dirs, direct); }
  }

  /** So it is right if and only if the directly named positions are close enough together. */
  lemma ExactIffNear(dirs: seq<Dir>, direct: seq<bool>)
    requires |direct| == 2 * |dirs| + 1
    ensures AlwaysComplete(dirs, direct) <==> CloseEnough(direct)
  {
    PlanSafe(direct);
    if CloseEnough(direct) { SafeComplete(dirs, direct); } else { UnsafeIncomplete(dirs, direct); }
  }

  ghost predicate CloseEnough(direct: seq<bool>) {
    SafeGaps(DirectSteps(direct, |direct|), |direct|)
  }
}
