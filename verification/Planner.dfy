// The query planner (leveldbgraph_deduction.inc).  A pattern of n nodes joined by
// n - 1 edges has the positions 0..2n-2, nodes at even and edges at odd ones; the
// plan lists them in the order in which a search fills them in.
module Planner {

  datatype Constraint = LeftConstrained | RightConstrained | BothConstrained | NotConstrained

  datatype Step = Step(id: nat, constraint: Constraint, direct: bool)

  predicate IsLeft(c: Constraint) {
    c == LeftConstrained || c == BothConstrained
  }

  predicate IsRight(c: Constraint) {
    c == RightConstrained || c == BothConstrained
  }

  /** The positions that `steps` fill in. */
  ghost function Ids(steps: seq<Step>): set<int> {
    set s | s in steps :: s.id
  }

  lemma IdsSnoc(steps: seq<Step>, s: Step)
    ensures Ids(steps + [s]) == Ids(steps) + {s.id}
  {
    assert forall t :: t in steps + [s] <==> t in steps || t == s;
  }

  // ---------------------------------------------------------------------------
  // Filling a gap.
  // ---------------------------------------------------------------------------

  /** The step number `j` of filling the gap between two positions, working from
      both ends; -1 and maxId + 1 stand for the ends of the pattern. */
  function GapStep(left: int, right: int, maxId: int, j: nat): (s: Step)
    requires -1 <= left && right <= maxId + 1 && j < right - left - 1
  {
    var cnt := right - left - 1;
    var id := if j % 2 == 0 then left + j / 2 + 1 else right - j / 2 - 1;
    var c0 := if j == cnt - 1 then BothConstrained else if j % 2 == 0 then LeftConstrained else RightConstrained;
    var c1 :=
      if left == -1 && j == 0 then
        (if c0 == LeftConstrained then NotConstrained else if c0 == BothConstrained then RightConstrained else c0)
      else c0;
    var c2 :=
      if right > maxId && (j == 1 || cnt == 1) then
        (if c1 == RightConstrained then NotConstrained else if c1 == BothConstrained then LeftConstrained else c1)
      else c1;
    Step(id, c2, false)
  }

  /** The first `j` steps of filling the gap. */
  function GapSteps(left: int, right: int, maxId: int, j: nat): (r: seq<Step>)
    requires -1 <= left < right <= maxId + 1 && j < right - left
  {
    if j == 0 then [] else GapSteps(left, right, maxId, j - 1) + [GapStep(left, right, maxId, j - 1)]
  }

  function GapFill(left: int, right: int, maxId: int): seq<Step>
    requires -1 <= left < right <= maxId + 1
  {
    GapSteps(left, right, maxId, right - left - 1)
  }

  method AddToDeductionSteps(steps: seq<Step>, left: int, right: int, maxId: int) returns (r: seq<Step>)
    requires -1 <= left < right <= maxId + 1
    ensures r == steps + GapFill(left, right, maxId)
  {
    r := steps;
    var middleCnt := right - left - 1;
    for j := 0 to middleCnt
      invariant r == steps + GapSteps(left, right, maxId, j)
    {
      var currentId := if j % 2 == 0 then left + j / 2 + 1 else right - j / 2 - 1;
      var constraint;
      if j == middleCnt - 1 {
        constraint := BothConstrained;
      } else if j % 2 == 0 {
        constraint := LeftConstrained;
      } else {
        constraint := RightConstrained;
      }
      if left == -1 && j == 0 {
        if constraint == LeftConstrained {
          constraint := NotConstrained;
        } else if constraint == BothConstrained {
          constraint := RightConstrained;
        }
      }
      if right > maxId && (j == 1 || middleCnt == 1) {
        if constraint == RightConstrained {
          constraint := NotConstrained;
        } else if constraint == BothConstrained {
          constraint := LeftConstrained;
        }
      }
      r := r + [Step(currentId, constraint, false)];
    }
  }

  // ---------------------------------------------------------------------------
  // The whole plan.
  // ---------------------------------------------------------------------------

  /** The steps for the directly named positions below `i`, from left to right. */
  function DirectSteps(direct: seq<bool>, i: nat): seq<Step>
    requires i <= |direct|
  {
    if i == 0 then []
    else
      var init := DirectSteps(direct, i - 1);
      if !direct[i - 1] then init
      else init + [Step(i - 1, if init != [] && init[|init| - 1].id == i - 2 then LeftConstrained else NotConstrained, true)]
  }

  lemma AscendSnoc(d: seq<Step>, s: Step, size: nat)
    requires Ascending(d, size) && s.id == size
    ensures Ascending(d + [s], size + 1)
  {
  }

  /** The direct steps for the positions below `i`. */
  ghost predicate AreDirect(direct: seq<bool>, i: nat, d: seq<Step>)
    requires i <= |direct|
  {
    && Ascending(d, i) && (forall s | s in d :: s.direct)
    && forall p: int :: p in Ids(d) <==> 0 <= p < i && direct[p]
  }

  lemma AreDirectNext(direct: seq<bool>, i: nat, d: seq<Step>, s: Step)
    requires i < |direct| && direct[i] && AreDirect(direct, i, d) && s.id == i && s.direct
    ensures AreDirect(direct, i + 1, d + [s])
  {
    IdsSnoc(d, s);
    AscendSnoc(d, s, i);
  }

  lemma {:induction false} DirectStepsAre(direct: seq<bool>, i: nat)
    requires i <= |direct|
    ensures AreDirect(direct, i, DirectSteps(direct, i))
  {
    if i > 0 {
      DirectStepsAre(direct, i - 1);
      var init, r := DirectSteps(direct, i - 1), DirectSteps(direct, i);
      if direct[i - 1] { AreDirectNext(direct, i - 1, init, r[|init|]); }
    }
  }

  lemma DirectStepsAscend(direct: seq<bool>, i: nat)
    requires i <= |direct|
    ensures Ascending(DirectSteps(direct, i), i)
    ensures forall s | s in DirectSteps(direct, i) :: s.direct
    ensures forall p: int :: p in Ids(DirectSteps(direct, i)) <==> 0 <= p < i && direct[p]
  {
    DirectStepsAre(direct, i);
  }

  /** The ends of the gaps: the directly named positions and the two ends. */
  function Bound(d: seq<Step>, k: nat, size: nat): int
    requires k <= |d| + 1
  {
    if k == 0 then -1 else if k <= |d| then d[k - 1].id else size
  }

  predicate Ascending(d: seq<Step>, size: nat) {
    && (forall k | 0 <= k < |d| :: d[k].id < size)
    && (forall k, l | 0 <= k < l < |d| :: d[k].id < d[l].id)
  }

  function Gaps(d: seq<Step>, k: nat, size: nat): seq<Step>
    requires Ascending(d, size) && k <= |d| + 1 && 0 < size
  {
    if k == 0 then []
    else Gaps(d, k - 1, size) + GapFill(Bound(d, k - 1, size), Bound(d, k, size), size - 1)
  }

  lemma GapsNext(d: seq<Step>, k: nat, size: nat)
    requires Ascending(d, size) && 0 < k <= |d| + 1 && 0 < size
    ensures d + Gaps(d, k, size)
         == d + Gaps(d, k - 1, size) + GapFill(Bound(d, k - 1, size), Bound(d, k, size), size - 1)
  {
  }

  /** The plan for a pattern of `|direct|` positions. */
  function Plan(direct: seq<bool>): seq<Step>
    requires 0 < |direct|
  {
    DirectStepsAscend(direct, |direct|);
    var d := DirectSteps(direct, |direct|);
    d + Gaps(d, |d| + 1, |direct|)
  }

  method GenerateDeductionSteps(direct: seq<bool>) returns (result: seq<Step>)
    requires |direct| % 2 == 1
    ensures result == Plan(direct)
  {
    result := [];
    for i := 0 to |direct|
      invariant result == DirectSteps(direct, i)
    {
      if direct[i] {
        var c := if result != [] && result[|result| - 1].id == i - 1 then LeftConstrained else NotConstrained;
        result := result + [Step(i, c, true)];
      }
    }
    DirectStepsAscend(direct, |direct|);
    result := FillGaps(result, |direct|);
  }

  /** The second loop of the planner: the gaps before, between and after the direct steps. */
  method FillGaps(d: seq<Step>, size: nat) returns (result: seq<Step>)
    requires 0 < size && Ascending(d, size)
    ensures result == d + Gaps(d, |d| + 1, size)
  {
    result := d;
    for i := 0 to |d|
      invariant result == d + Gaps(d, i, size)
    {
      var now := result[i].id;
      var prev := if i > 0 then result[i - 1].id else -1;
      assert now == Bound(d, i + 1, size) && prev == Bound(d, i, size);
      result := AddToDeductionSteps(result, prev, now, size - 1);
      GapsNext(d, i + 1, size);
    }
    var last := if |d| > 0 then result[|d| - 1].id else -1;
    assert last == Bound(d, |d|, size);
    result := AddToDeductionSteps(result, last, size, size - 1);
    GapsNext(d, |d| + 1, size);
  }

  // ---------------------------------------------------------------------------
  // The plan visits every position once, and its flags are exact.
  // ---------------------------------------------------------------------------

  /** After `prefix`, the step `s` is new, and flagged for exactly those of its two
      neighbours that have been visited. */
  ghost predicate ExactAfter(prefix: seq<Step>, s: Step) {
    && s.id !in Ids(prefix)
    && (IsLeft(s.constraint) <==> s.id - 1 in Ids(prefix))
    && (IsRight(s.constraint) <==> s.id + 1 in Ids(prefix))
  }

  ghost predicate Exact(steps: seq<Step>) {
    forall k {:trigger ExactAfter(steps[..k], steps[k])} | 0 <= k < |steps| :: ExactAfter(steps[..k], steps[k])
  }

  lemma ExactSnoc(steps: seq<Step>, s: Step)
    requires Exact(steps) && ExactAfter(steps, s)
    ensures Exact(steps + [s])
  {
    var r := steps + [s];
    forall k | 0 <= k < |r| ensures ExactAfter(r[..k], r[k]) {
      if k < |steps| {
        assert r[..k] == steps[..k];
        assert ExactAfter(steps[..k], steps[k]);
      } else {
        assert r[..k] == steps;
      }
    }
  }

  /** The positions visited by the first `j` steps in a gap: alternately one from
      the left and one from the right. */
  ghost predicate Filled(left: int, right: int, j: nat, p: int) {
    left < p <= left + (j + 1) / 2 || right - j / 2 <= p < right
  }

  /** The number `j` step of a gap is flagged for what the steps before it filled. */
  lemma GapStepExact(left: int, right: int, maxId: int, j: nat)
    requires -1 <= left < right <= maxId + 1 && j < right - left - 1
    ensures var s := GapStep(left, right, maxId, j);
      && left < s.id < right && !Filled(left, right, j, s.id)
      && (IsLeft(s.constraint) <==> (s.id - 1 == left && 0 <= left) || Filled(left, right, j, s.id - 1))
      && (IsRight(s.constraint) <==> (s.id + 1 == right && right <= maxId) || Filled(left, right, j, s.id + 1))
      && (s.constraint == NotConstrained ==> s.id == 0 || s.id == maxId)
  {
  }

  lemma FilledNext(left: int, right: int, maxId: int, j: nat, p: int)
    requires -1 <= left < right <= maxId + 1 && j < right - left - 1
    ensures Filled(left, right, j + 1, p) <==> Filled(left, right, j, p) || p == GapStep(left, right, maxId, j).id
  {
  }

  /** `steps` cover the ends of the gap, as far as these are positions, and nothing inside. */
  ghost predicate AtGap(steps: seq<Step>, left: int, right: int, maxId: int) {
    && -1 <= left < right <= maxId + 1
    && (forall p | p in Ids(steps) :: 0 <= p <= maxId && (p <= left || right <= p))
    && (0 <= left ==> left in Ids(steps)) && (right <= maxId ==> right in Ids(steps))
  }

  lemma {:induction false} GapCovers(steps: seq<Step>, left: int, right: int, maxId: int, j: nat)
    requires -1 <= left < right <= maxId + 1 && j <= right - left - 1
    ensures Covers(steps, left, right, maxId, j)
  {
    if j == 0 {
      assert steps + [] == steps;
    } else {
      GapCovers(steps, left, right, maxId, j - 1);
      CoversNext(steps, left, right, maxId, j - 1);
    }
  }

  lemma {:induction false} GapExact(steps: seq<Step>, left: int, right: int, maxId: int, j: nat)
    requires AtGap(steps, left, right, maxId) && j <= right - left - 1 && Exact(steps)
    ensures Exact(steps + GapSteps(left, right, maxId, j))
  {
    if j == 0 {
      assert steps + [] == steps;
    } else {
      GapExact(steps, left, right, maxId, j - 1);
      GapCovers(steps, left, right, maxId, j - 1);
      NextInGap(steps, left, right, maxId, j - 1);
      var prefix, s := steps + GapSteps(left, right, maxId, j - 1), GapStep(left, right, maxId, j - 1);
      ExactSnoc(prefix, s);
      assert steps + GapSteps(left, right, maxId, j) == prefix + [s];
    }
  }

  lemma GapFilled(steps: seq<Step>, left: int, right: int, maxId: int, r: seq<Step>)
    requires AtGap(steps, left, right, maxId) && Exact(steps)
    requires r == steps + GapFill(left, right, maxId)
    ensures Exact(r)
  {
    GapExact(steps, left, right, maxId, right - left - 1);
  }

  /** After `j` steps in the gap, these positions have been visited in all. */
  ghost predicate Covers(steps: seq<Step>, left: int, right: int, maxId: int, j: nat)
    requires -1 <= left < right <= maxId + 1 && j <= right - left - 1
  {
    forall p {:trigger Filled(left, right, j, p)} {:trigger p in Ids(steps + GapSteps(left, right, maxId, j))} ::
      p in Ids(steps + GapSteps(left, right, maxId, j)) <==> p in Ids(steps) || Filled(left, right, j, p)
  }

  lemma CoversNext(steps: seq<Step>, left: int, right: int, maxId: int, j: nat)
    requires -1 <= left < right <= maxId + 1 && j < right - left - 1 && Covers(steps, left, right, maxId, j)
    ensures Covers(steps, left, right, maxId, j + 1)
  {
    var prefix, s := steps + GapSteps(left, right, maxId, j), GapStep(left, right, maxId, j);
    assert steps + GapSteps(left, right, maxId, j + 1) == prefix + [s];
    IdsSnoc(prefix, s);
    forall p ensures p in Ids(prefix + [s]) <==> p in Ids(steps) || Filled(left, right, j + 1, p) {
      FilledNext(left, right, maxId, j, p);
    }
  }

  lemma NextInGap(steps: seq<Step>, left: int, right: int, maxId: int, j: nat)
    requires AtGap(steps, left, right, maxId) && j < right - left - 1 && Covers(steps, left, right, maxId, j)
    ensures ExactAfter(steps + GapSteps(left, right, maxId, j), GapStep(left, right, maxId, j))
  {
    GapStepExact(left, right, maxId, j);
  }

  /** The direct steps are flagged exactly: a neighbour on the right is never visited before. */
  lemma {:induction false} DirectExact(direct: seq<bool>, i: nat)
    requires i <= |direct|
    ensures Exact(DirectSteps(direct, i))
  {
    if i > 0 {
      DirectExact(direct, i - 1);
      var init := DirectSteps(direct, i - 1);
      DirectStepsAscend(direct, i - 1);
      if direct[i - 1] {
        var s := DirectSteps(direct, i)[|init|];
        DirectAfter(init, s, i - 1);
        ExactSnoc(init, s);
      }
    }
  }

  lemma DirectAfter(init: seq<Step>, s: Step, i: nat)
    requires Ascending(init, i) && forall p | p in Ids(init) :: p < i
    requires s.id == i && s.constraint == if init != [] && init[|init| - 1].id == i - 1 then LeftConstrained else NotConstrained
    ensures ExactAfter(init, s)
  {
    LastIsLargest(init, i);
  }

  lemma LastIsLargest(d: seq<Step>, size: nat)
    requires Ascending(d, size)
    ensures size - 1 in Ids(d) <==> d != [] && d[|d| - 1].id == size - 1
  {
    if size - 1 in Ids(d) {
      var k :| 0 <= k < |d| && d[k].id == size - 1;
      assert d[|d| - 1].id < size && d[k].id == size - 1;
    }
  }

  /** The gaps up to number `k` visit everything below their upper bound. */
  ghost predicate Reached(d: seq<Step>, k: nat, size: nat)
    requires Ascending(d, size) && k <= |d| + 1 && 0 < size
  {
    forall p {:trigger p in Ids(d + Gaps(d, k, size))} ::
      p in Ids(d + Gaps(d, k, size)) <==> p in Ids(d) || 0 <= p < Bound(d, k, size)
  }

  /** Between two neighbouring bounds there is no direct position. */
  lemma NothingBetween(d: seq<Step>, k: nat, size: nat, p: int)
    requires Ascending(d, size) && k <= |d| && p in Ids(d)
    ensures p <= Bound(d, k, size) || Bound(d, k + 1, size) <= p
    ensures 0 <= p < size
  {
    var i :| 0 <= i < |d| && d[i].id == p;
    assert i < k - 1 ==> d[i].id < d[k - 1].id;
    assert k < i ==> d[k].id < d[i].id;
  }

  lemma {:induction false} GapsReach(d: seq<Step>, k: nat, size: nat)
    requires Ascending(d, size) && k <= |d| + 1 && 0 < size
    ensures Reached(d, k, size)
  {
    if k == 0 {
      assert d + [] == d;
    } else {
      GapsReach(d, k - 1, size);
      var steps, left, right := d + Gaps(d, k - 1, size), Bound(d, k - 1, size), Bound(d, k, size);
      GapCovers(steps, left, right, size - 1, right - left - 1);
      NextReached(d, k, size);
    }
  }

  lemma {:induction false} GapsExact(d: seq<Step>, k: nat, size: nat)
    requires Ascending(d, size) && k <= |d| + 1 && 0 < size && Exact(d)
    ensures Exact(d + Gaps(d, k, size))
  {
    if k == 0 {
      assert d + [] == d;
    } else {
      GapsExact(d, k - 1, size);
      var steps, left, right := d + Gaps(d, k - 1, size), Bound(d, k - 1, size), Bound(d, k, size);
      GapsReach(d, k - 1, size);
      GapOpens(d, k, size);
      GapsNext(d, k, size);
      GapFilled(steps, left, right, size - 1, d + Gaps(d, k, size));
    }
  }

  lemma GapOpens(d: seq<Step>, k: nat, size: nat)
    requires Ascending(d, size) && 0 < k <= |d| + 1 && 0 < size && Reached(d, k - 1, size)
    ensures AtGap(d + Gaps(d, k - 1, size), Bound(d, k - 1, size), Bound(d, k, size), size - 1)
  {
    var steps := d + Gaps(d, k - 1, size);
    forall p | p in Ids(steps) ensures 0 <= p <= size - 1 && (p <= Bound(d, k - 1, size) || Bound(d, k, size) <= p) {
      if p in Ids(d) { NothingBetween(d, k - 1, size, p); }
    }
    assert 1 < k ==> d[k - 2].id in Ids(d);
    assert k <= |d| ==> d[k - 1].id in Ids(d);
  }

  lemma NextReached(d: seq<Step>, k: nat, size: nat)
    requires Ascending(d, size) && 0 < k <= |d| + 1 && 0 < size && Reached(d, k - 1, size)
    requires var left, right := Bound(d, k - 1, size), Bound(d, k, size);
      left < right && Covers(d + Gaps(d, k - 1, size), left, right, size - 1, right - left - 1)
    ensures Reached(d, k, size)
  {
    var steps, left, right := d + Gaps(d, k - 1, size), Bound(d, k - 1, size), Bound(d, k, size);
    GapsNext(d, k, size);
    LeftEndNamed(d, k, size);
    forall p ensures p in Ids(d + Gaps(d, k, size)) <==> p in Ids(d) || 0 <= p < right {
      assert Filled(left, right, right - left - 1, p) <==> left < p < right;
    }
  }

  /** A gap begins at a named position or before all. */
  lemma LeftEndNamed(d: seq<Step>, k: nat, size: nat)
    requires 0 < k <= |d| + 1
    ensures Bound(d, k - 1, size) in Ids(d) || Bound(d, k - 1, size) == -1
  {
    if 1 < k { assert d[k - 2] in d; }
  }

  /** The plan visits the positions 0..|direct|-1 and no others, each once, and
      each step is flagged for exactly the neighbours that were visited before it. */
  lemma PlanExact(direct: seq<bool>)
    requires 0 < |direct|
    ensures Exact(Plan(direct))
    ensures forall p: int :: p in Ids(Plan(direct)) <==> 0 <= p < |direct|
  {
    var d := DirectSteps(direct, |direct|);
    DirectStepsAscend(direct, |direct|);
    DirectExact(direct, |direct|);
    GapsExact(d, |d| + 1, |direct|);
    GapsReach(d, |d| + 1, |direct|);
  }

  lemma {:induction false} IdsCount(steps: seq<Step>, k: nat)
    requires Exact(steps) && k <= |steps|
    ensures |Ids(steps[..k])| == k
  {
    if k > 0 {
      IdsCount(steps, k - 1);
      assert ExactAfter(steps[..k - 1], steps[k - 1]);
      assert steps[..k] == steps[..k - 1] + [steps[k - 1]];
      IdsSnoc(steps[..k - 1], steps[k - 1]);
    } else {
      assert Ids(steps[..0]) == {};
    }
  }

  lemma {:induction false} RangeCount(s: set<int>, n: nat)
    requires forall p: int :: p in s <==> 0 <= p < n
    ensures |s| == n
  {
    if n > 0 {
      RangeCount(s - {n - 1}, n - 1);
    } else {
      assert forall p: int :: p !in s;
      assert s == {};
    }
  }

  /** So the plan has as many steps as the pattern has positions. */
  lemma PlanLength(direct: seq<bool>)
    requires 0 < |direct|
    ensures |Plan(direct)| == |direct|
  {
    var st := Plan(direct);
    PlanExact(direct);
    IdsCount(st, |st|);
    assert st[..|st|] == st;
    RangeCount(Ids(st), |direct|);
  }

  /** Each pair of neighbouring positions is checked at exactly one step: at the
      later of the two in the plan. */
  lemma EachPairOnce(steps: seq<Step>, i: nat, j: nat)
    requires Exact(steps) && i < |steps| && j < |steps| && steps[j].id == steps[i].id + 1
    ensures IsRight(steps[i].constraint) <==> j < i
    ensures IsLeft(steps[j].constraint) <==> i < j
  {
    assert ExactAfter(steps[..i], steps[i]) && ExactAfter(steps[..j], steps[j]);
    if j < i { assert steps[..i][j] == steps[j]; } else { assert steps[..j][i] == steps[i]; }
    if steps[j].id in Ids(steps[..i]) { OnlyAt(steps, i, j); }
    if steps[i].id in Ids(steps[..j]) { OnlyAt(steps, j, i); }
  }

  /** No position is visited twice. */
  lemma OnlyAt(steps: seq<Step>, i: nat, j: nat)
    requires Exact(steps) && i <= |steps| && j < |steps| && steps[j].id in Ids(steps[..i])
    ensures j < i
  {
    assert ExactAfter(steps[..j], steps[j]);
    if i <= j { IdsGrow(steps, i, j); }
  }

  lemma IdsGrow(steps: seq<Step>, i: nat, j: nat)
    requires i <= j <= |steps|
    ensures Ids(steps[..i]) <= Ids(steps[..j])
  {
    forall s | s in steps[..i] ensures s in steps[..j] {
      var m :| 0 <= m < i && steps[m] == s;
      assert steps[..j][m] == s;
    }
  }

  // ---------------------------------------------------------------------------
  // The shape of a plan.
  // ---------------------------------------------------------------------------

  /** A step in a gap: it is not direct, and if it is unconstrained it is for a node. */
  ghost predicate InGap(d: seq<Step>, size: nat, s: Step)
    requires Ascending(d, size)
  {
    !s.direct && s.id < size && s.id !in Ids(d) && (s.constraint == NotConstrained ==> s.id == 0 || s.id == size - 1)
  }

  lemma {:induction false} GapStepsShape(d: seq<Step>, k: nat, size: nat, j: nat, s: Step)
    requires Ascending(d, size) && 0 < k <= |d| + 1 && 0 < size
    requires j < Bound(d, k, size) - Bound(d, k - 1, size)
    requires s in GapSteps(Bound(d, k - 1, size), Bound(d, k, size), size - 1, j)
    ensures InGap(d, size, s)
  {
    var left, right := Bound(d, k - 1, size), Bound(d, k, size);
    var last := GapStep(left, right, size - 1, j - 1);
    if s == last {
      GapStepExact(left, right, size - 1, j - 1);
      if s.id in Ids(d) { NothingBetween(d, k - 1, size, s.id); }
    } else {
      GapStepsShape(d, k, size, j - 1, s);
    }
  }

  lemma {:induction false} GapsShape(d: seq<Step>, k: nat, size: nat, s: Step)
    requires Ascending(d, size) && k <= |d| + 1 && 0 < size && s in Gaps(d, k, size)
    ensures InGap(d, size, s)
  {
    var left, right := Bound(d, k - 1, size), Bound(d, k, size);
    if s in GapFill(left, right, size - 1) {
      GapStepsShape(d, k, size, right - left - 1, s);
    } else {
      GapsShape(d, k - 1, size, s);
    }
  }

  /** The direct steps come first, they are those of the directly named positions,
      and every other step is constrained or for a node. */
  lemma PlanShape(direct: seq<bool>, k: nat)
    requires |direct| % 2 == 1 && k < |Plan(direct)|
    ensures var s := Plan(direct)[k];
      && s.id < |direct| && s.direct == direct[s.id] == (k < |DirectSteps(direct, |direct|)|)
      && (!s.direct && s.constraint == NotConstrained ==> s.id % 2 == 0)
  {
    var d, s := DirectSteps(direct, |direct|), Plan(direct)[k];
    DirectStepsAscend(direct, |direct|);
    if k < |d| {
      assert s == d[k] && s in d && s.id in Ids(d);
    } else {
      assert s == Gaps(d, |d| + 1, |direct|)[k - |d|];
      GapsShape(d, |d| + 1, |direct|, s);
      PlanShapeGap(direct, d, s);
    }
  }

  lemma PlanShapeGap(direct: seq<bool>, d: seq<Step>, s: Step)
    requires |direct| % 2 == 1 && Ascending(d, |direct|)
    requires forall p: int :: p in Ids(d) <==> 0 <= p < |direct| && direct[p]
    requires InGap(d, |direct|, s)
    ensures s.id < |direct| && !s.direct && !direct[s.id] && (s.constraint == NotConstrained ==> s.id % 2 == 0)
  {
    assert s.id in Ids(d) <==> 0 <= s.id < |direct| && direct[s.id];
  }

  // ---------------------------------------------------------------------------
  // Safe plans.  The engine derives a node from the edge on its right with the ends
  // of that edge confused, and cannot check a directly named node against the edge on
  // its left; a plan is safe if it asks for neither.
  // ---------------------------------------------------------------------------

  predicate SafeStep(s: Step) {
    s.id % 2 == 0 ==> if s.direct then !IsLeft(s.constraint) else !IsRight(s.constraint)
  }

  /** No node is derived from the edges on both of its sides. */
  ghost predicate NoneBetween(steps: seq<Step>) {
    forall s | s in steps && s.id % 2 == 0 && !s.direct :: s.constraint != BothConstrained
  }

  ghost predicate Safe(steps: seq<Step>) {
    forall s | s in steps :: SafeStep(s)
  }

  /** What the distance of two neighbouring direct positions, or of one and an end of
      the pattern, may be. */
  predicate SafeGap(left: int, right: int, maxId: int) {
    if left == -1 then
      if right == maxId + 1 then maxId <= 2 else right == 0 || right == 2
    else if right == maxId + 1 then right - left <= 5
    else if left % 2 == 0 then right - left <= 2
    else right - left == 3
  }

  /** A gap whose filling asks for a node from the right. */
  lemma UnsafeGap(left: int, right: int, maxId: int) returns (j: nat)
    requires -1 <= left < right <= maxId + 1 && maxId % 2 == 0
    requires !SafeGap(left, right, maxId)
    requires !(0 <= left && left % 2 == 1 && right == left + 1)
    ensures j < right - left - 1 && !SafeStep(GapStep(left, right, maxId, j))
  {
    var cnt := right - left - 1;
    if cnt == 1 { j := 0; }
    else if cnt == 2 { j := 1; }
    else if cnt == 3 { j := if SafeStep(GapStep(left, right, maxId, 1)) then 2 else 1; }
    else if right <= maxId { j := if SafeStep(GapStep(left, right, maxId, 1)) then 3 else 1; }
    else if cnt == 5 { j := 4; }
    else { j := 5; }
  }

  lemma SafeGapSteps(left: int, right: int, maxId: int, j: nat)
    requires -1 <= left < right <= maxId + 1 && maxId % 2 == 0 && j < right - left - 1
    requires SafeGap(left, right, maxId)
    ensures SafeStep(GapStep(left, right, maxId, j))
  {
  }

  lemma {:induction false} GapStepsMember(left: int, right: int, maxId: int, j: nat, s: Step)
    requires -1 <= left < right <= maxId + 1 && j < right - left
    ensures s in GapSteps(left, right, maxId, j) <==> exists i: nat :: i < j && s == GapStep(left, right, maxId, i)
  {
    if j > 0 { GapStepsMember(left, right, maxId, j - 1, s); }
  }

  ghost predicate OfGap(d: seq<Step>, k: nat, size: nat, s: Step)
    requires Ascending(d, size) && 0 < k <= |d| + 1 && 0 < size
  {
    s in GapFill(Bound(d, k - 1, size), Bound(d, k, size), size - 1)
  }

  lemma {:induction false} GapsMember(d: seq<Step>, k: nat, size: nat, s: Step)
    requires Ascending(d, size) && k <= |d| + 1 && 0 < size
    ensures s in Gaps(d, k, size) <==> exists i: nat :: 0 < i <= k && OfGap(d, i, size, s)
  {
    if k > 0 {
      GapsMember(d, k - 1, size, s);
      assert s in Gaps(d, k, size) <==> s in Gaps(d, k - 1, size) || OfGap(d, k, size, s);
    }
  }

  /** A direct step is left-constrained exactly if the direct step before it is its neighbour. */
  lemma DirectFlag(direct: seq<bool>, k: nat)
    requires k < |DirectSteps(direct, |direct|)|
    ensures var d := DirectSteps(direct, |direct|);
      && Ascending(d, |direct|)
      && (IsLeft(d[k].constraint) <==> Bound(d, k, |direct|) == d[k].id - 1 && 0 < k)
  {
    var d := DirectSteps(direct, |direct|);
    DirectStepsAscend(direct, |direct|);
    DirectExact(direct, |direct|);
    assert ExactAfter(d[..k], d[k]);
    assert Ascending(d[..k], d[k].id);
    LastIsLargest(d[..k], d[k].id);
  }

  predicate GapIsSafe(d: seq<Step>, k: nat, size: nat)
    requires k <= |d|
  {
    SafeGap(Bound(d, k, size), Bound(d, k + 1, size), size - 1)
  }

  /** All neighbouring direct positions, and ends of the pattern, are close enough. */
  ghost predicate SafeGaps(d: seq<Step>, size: nat) {
    forall k: nat {:trigger GapIsSafe(d, k, size)} | k <= |d| :: GapIsSafe(d, k, size)
  }

  /** The plan of a pattern is safe if and only if its directly named positions lie
      close enough together. */
  lemma PlanSafe(direct: seq<bool>)
    requires |direct| % 2 == 1
    ensures Safe(Plan(direct)) <==> SafeGaps(DirectSteps(direct, |direct|), |direct|)
  {
    var d, size := DirectSteps(direct, |direct|), |direct|;
    DirectStepsAscend(direct, size);
    if SafeGaps(d, size) {
      forall s | s in Plan(direct) ensures SafeStep(s) {
        if s in d {
          var k :| 0 <= k < |d| && d[k] == s;
          SafeDirect(direct, k);
        } else {
          var i := WhichGap(d, size, s);
          SafeInGaps(d, size, i, s);
        }
      }
    } else {
      var k: nat :| k <= |d| && !GapIsSafe(d, k, size);
      if 0 <= Bound(d, k, size) && Bound(d, k, size) % 2 == 1 && Bound(d, k + 1, size) == Bound(d, k, size) + 1 {
        UnsafeDirect(direct, k);
        assert d[k] in Plan(direct);
      } else {
        var s := UnsafeInGap(d, size, k);
        assert s in Plan(direct);
      }
    }
  }

  /** In a safe plan a directly named edge comes right after a directly named node. */
  lemma SafeAnchored(direct: seq<bool>, s: Step)
    requires |direct| % 2 == 1 && Safe(Plan(direct)) && s in Plan(direct)
    requires s.direct && s.id % 2 == 1
    ensures IsLeft(s.constraint)
  {
    var i := DirectPlace(direct, s);
    PlanSafe(direct);
    AnchoredAt(direct, i);
  }

  lemma DirectPlace(direct: seq<bool>, s: Step) returns (i: nat)
    requires |direct| % 2 == 1 && s in Plan(direct) && s.direct
    ensures i < |DirectSteps(direct, |direct|)| && DirectSteps(direct, |direct|)[i] == s
  {
    i :| i < |Plan(direct)| && Plan(direct)[i] == s;
    PlanShape(direct, i);
  }

  lemma AnchoredAt(direct: seq<bool>, i: nat)
    requires |direct| % 2 == 1 && i < |DirectSteps(direct, |direct|)|
    requires GapIsSafe(DirectSteps(direct, |direct|), i, |direct|) && DirectSteps(direct, |direct|)[i].id % 2 == 1
    ensures IsLeft(DirectSteps(direct, |direct|)[i].constraint)
  {
    var d := DirectSteps(direct, |direct|);
    DirectStepsAscend(direct, |direct|);
    BoundBefore(d, i, |direct|);
    DirectFlag(direct, i);
  }

  lemma BoundBefore(d: seq<Step>, k: nat, size: nat)
    requires Ascending(d, size) && k < |d|
    ensures -1 <= Bound(d, k, size) < Bound(d, k + 1, size) == d[k].id < size
  {
    assert 0 < k ==> d[k - 1].id < d[k].id;
  }

  lemma SafeDirect(direct: seq<bool>, k: nat)
    requires |direct| % 2 == 1 && k < |DirectSteps(direct, |direct|)|
    requires GapIsSafe(DirectSteps(direct, |direct|), k, |direct|)
    ensures SafeStep(DirectSteps(direct, |direct|)[k])
  {
    DirectFlag(direct, k);
    DirectStepsAscend(direct, |direct|);
    assert DirectSteps(direct, |direct|)[k] in DirectSteps(direct, |direct|);
  }

  lemma UnsafeDirect(direct: seq<bool>, k: nat)
    requires |direct| % 2 == 1 && k <= |DirectSteps(direct, |direct|)|
    requires var d := DirectSteps(direct, |direct|);
      && 0 <= Bound(d, k, |direct|) && Bound(d, k, |direct|) % 2 == 1
      && Bound(d, k + 1, |direct|) == Bound(d, k, |direct|) + 1
    ensures k < |DirectSteps(direct, |direct|)| && !SafeStep(DirectSteps(direct, |direct|)[k])
  {
    var d := DirectSteps(direct, |direct|);
    DirectStepsAscend(direct, |direct|);
    assert k <= |d| && 0 < k;
    assert d[k - 1] in d && d[k - 1].id < |direct|;
    DirectFlag(direct, k);
    assert d[k] in d;
  }

  lemma WhichGap(d: seq<Step>, size: nat, s: Step) returns (i: nat)
    requires Ascending(d, size) && 0 < size && s in Gaps(d, |d| + 1, size)
    ensures 0 < i <= |d| + 1 && OfGap(d, i, size, s)
  {
    GapsMember(d, |d| + 1, size, s);
    i :| 0 < i <= |d| + 1 && OfGap(d, i, size, s);
  }

  lemma SafeInGaps(d: seq<Step>, size: nat, i: nat, s: Step)
    requires Ascending(d, size) && size % 2 == 1 && SafeGaps(d, size) && 0 < i <= |d| + 1 && OfGap(d, i, size, s)
    ensures SafeStep(s)
  {
    assert GapIsSafe(d, i - 1, size);
    SafeInGap(Bound(d, i - 1, size), Bound(d, i, size), size - 1, s);
  }

  lemma SafeInGap(left: int, right: int, maxId: int, s: Step)
    requires -1 <= left < right <= maxId + 1 && maxId % 2 == 0
    requires SafeGap(left, right, maxId) && s in GapFill(left, right, maxId)
    ensures SafeStep(s)
  {
    GapStepsMember(left, right, maxId, right - left - 1, s);
    var j: nat :| j < right - left - 1 && s == GapStep(left, right, maxId, j);
    SafeGapSteps(left, right, maxId, j);
  }

  lemma UnsafeInGap(d: seq<Step>, size: nat, k: nat) returns (s: Step)
    requires Ascending(d, size) && size % 2 == 1 && k <= |d| && !GapIsSafe(d, k, size)
    requires !(0 <= Bound(d, k, size) && Bound(d, k, size) % 2 == 1 && Bound(d, k + 1, size) == Bound(d, k, size) + 1)
    ensures s in Gaps(d, |d| + 1, size) && !SafeStep(s)
  {
    var left, right := Bound(d, k, size), Bound(d, k + 1, size);
    var j := UnsafeGap(left, right, size - 1);
    s := GapStep(left, right, size - 1, j);
    assert OfGap(d, k + 1, size, s) by {
      GapStepsMember(left, right, size - 1, right - left - 1, s);
    }
    GapsMember(d, |d| + 1, size, s);
  }
}
