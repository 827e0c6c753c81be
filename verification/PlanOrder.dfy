// The order in which a plan visits the positions of the pattern, said by the positions alone.
module PlanOrder {
  import opened Planner

  /** How many positions below `i` are named. */
  function Named(direct: seq<bool>, i: nat): nat
    requires i <= |direct|
  {
    if i == 0 then 0 else Named(direct, i - 1) + if direct[i - 1] then 1 else 0
  }

  /** Nothing is named between `l` and `r`, which are named or the ends of the pattern. */
  ghost predicate IsGap(direct: seq<bool>, l: int, r: int) {
    && -1 <= l < r <= |direct| && (l == -1 || direct[l]) && (r == |direct| || direct[r])
    && forall p | l < p < r :: !direct[p]
  }

  lemma {:induction false} DirectAt(direct: seq<bool>, i: nat, p: nat)
    requires p <= i <= |direct|
    ensures |DirectSteps(direct, i)| == Named(direct, i) && Named(direct, p) <= Named(direct, i)
    ensures p < i && direct[p] ==> Named(direct, p) < Named(direct, i) && DirectSteps(direct, i)[Named(direct, p)].id == p
  {
    if i > 0 { DirectAt(direct, i - 1, if p < i then p else i - 1); }
  }

  /** The named positions come first, from left to right. */
  lemma NamedFirst(direct: seq<bool>, p: nat)
    requires p < |direct| && direct[p]
    ensures Named(direct, p) < |Plan(direct)| && Plan(direct)[Named(direct, p)].id == p
  {
    DirectAt(direct, |direct|, p);
  }

  /** Working from both ends of a gap. */
  function Alternating(l: int, r: int, j: nat): int {
    if j % 2 == 0 then l + j / 2 + 1 else r - j / 2 - 1
  }

  lemma {:induction false} GapStepsAt(left: int, right: int, maxId: int, n: nat, j: nat)
    requires -1 <= left < right <= maxId + 1 && j < n < right - left
    ensures |GapSteps(left, right, maxId, n)| == n && GapSteps(left, right, maxId, n)[j].id == Alternating(left, right, j)
  {
    if n > 1 { GapStepsAt(left, right, maxId, n - 1, if j < n - 1 then j else 0); }
  }

  lemma GapFillAt(left: int, right: int, maxId: int)
    requires -1 <= left < right <= maxId + 1
    ensures |GapFill(left, right, maxId)| == right - left - 1
    ensures forall j: nat | j < right - left - 1 :: GapFill(left, right, maxId)[j].id == Alternating(left, right, j)
  {
    var n := right - left - 1;
    if n > 0 { GapStepsAt(left, right, maxId, n, 0); }
    forall j: nat | j < n ensures GapFill(left, right, maxId)[j].id == Alternating(left, right, j) {
      GapStepsAt(left, right, maxId, n, j);
    }
  }

  lemma BoundsRise(d: seq<Step>, k: nat, size: nat)
    requires Ascending(d, size) && 0 < k <= |d| + 1 && 0 < size
    ensures -1 <= Bound(d, k - 1, size) < Bound(d, k, size) <= size
  {
  }

  lemma {:induction false} GapsSize(d: seq<Step>, k: nat, size: nat)
    requires Ascending(d, size) && k <= |d| + 1 && 0 < size
    ensures |Gaps(d, k, size)| == Bound(d, k, size) + 1 - k
  {
    if k > 0 {
      GapsSize(d, k - 1, size);
      BoundsRise(d, k, size);
      GapFillAt(Bound(d, k - 1, size), Bound(d, k, size), size - 1);
    }
  }

  predicate VisitsAt(steps: seq<Step>, at: int, id: int) {
    0 <= at < |steps| && steps[at].id == id
  }

  lemma VisitsBehind(a: seq<Step>, b: seq<Step>, at: int, id: int)
    ensures VisitsAt(b, at, id) ==> VisitsAt(a + b, |a| + at, id)
    ensures VisitsAt(a, at, id) ==> VisitsAt(a + b, at, id)
  {
  }

  /** The place of a step of gap number `k` among the steps of the gaps. */
  lemma {:induction false} GapsAt(d: seq<Step>, n: nat, k: nat, size: nat, l: int, r: int, j: nat)
    requires Ascending(d, size) && 0 < k <= n <= |d| + 1 && 0 < size
    requires l == Bound(d, k - 1, size) && r == Bound(d, k, size) && j < r - l - 1
    ensures VisitsAt(Gaps(d, n, size), l + 2 - k + j, Alternating(l, r, j))
    decreases n
  {
    var before, fill := Gaps(d, n - 1, size), GapFill(Bound(d, n - 1, size), Bound(d, n, size), size - 1);
    if n == k {
      GapHolds(d, k, size, l, r, j);
      VisitsBehind(before, fill, j, Alternating(l, r, j));
    } else {
      GapsAt(d, n - 1, k, size, l, r, j);
      VisitsBehind(before, fill, l + 2 - k + j, Alternating(l, r, j));
    }
  }

  lemma GapHolds(d: seq<Step>, k: nat, size: nat, l: int, r: int, j: nat)
    requires Ascending(d, size) && 0 < k <= |d| + 1 && 0 < size
    requires l == Bound(d, k - 1, size) && r == Bound(d, k, size) && j < r - l - 1
    ensures |Gaps(d, k - 1, size)| == l + 2 - k
    ensures -1 <= l && r <= size && VisitsAt(GapFill(l, r, size - 1), j, Alternating(l, r, j))
  {
    BoundsRise(d, k, size);
    GapsSize(d, k - 1, size);
    GapFillAt(l, r, size - 1);
  }

  lemma {:induction false} NamedNone(direct: seq<bool>, p: nat, i: nat)
    requires p <= i <= |direct| && forall q | p <= q < i :: !direct[q]
    ensures Named(direct, i) == Named(direct, p)
  {
    if p < i { NamedNone(direct, p, i - 1); }
  }

  /** A gap of the pattern is the gap of that number of the plan. */
  lemma GapNumber(direct: seq<bool>, l: int, r: int)
    requires 0 < |direct| && IsGap(direct, l, r)
    ensures var d, k := DirectSteps(direct, |direct|), Named(direct, l + 1) + 1;
      k <= |d| + 1 && Bound(d, k - 1, |direct|) == l && Bound(d, k, |direct|) == r
  {
    DirectAt(direct, |direct|, l + 1);
    if l >= 0 { DirectAt(direct, |direct|, l); }
    NamedNone(direct, l + 1, r);
    if r < |direct| { DirectAt(direct, |direct|, r); }
  }

  /** What the plan has behind the direct steps. */
  function Others(direct: seq<bool>): seq<Step>
    requires 0 < |direct|
  {
    DirectStepsAscend(direct, |direct|);
    Gaps(DirectSteps(direct, |direct|), |DirectSteps(direct, |direct|)| + 1, |direct|)
  }

  lemma OthersIn(direct: seq<bool>, k: nat, l: int, r: int, j: nat)
    requires 0 < |direct| && 0 < k <= |DirectSteps(direct, |direct|)| + 1 && j < r - l - 1
    requires l == Bound(DirectSteps(direct, |direct|), k - 1, |direct|) && r == Bound(DirectSteps(direct, |direct|), k, |direct|)
    ensures VisitsAt(Others(direct), l + 2 - k + j, Alternating(l, r, j))
  {
    var d := DirectSteps(direct, |direct|);
    DirectStepsAscend(direct, |direct|);
    GapsAt(d, |d| + 1, k, |direct|, l, r, j);
  }

  lemma OthersAt(direct: seq<bool>, l: int, r: int, j: nat)
    requires 0 < |direct| && IsGap(direct, l, r) && j < r - l - 1
    ensures VisitsAt(Others(direct), l + 1 - Named(direct, l + 1) + j, Alternating(l, r, j))
  {
    GapNumber(direct, l, r);
    OthersIn(direct, Named(direct, l + 1) + 1, l, r, j);
  }

  /** Behind the named positions come the gaps, from left to right.  In a gap the steps
      alternate between its left and its right end. */
  lemma GapOrder(direct: seq<bool>, l: int, r: int, j: nat)
    requires IsGap(direct, l, r) && j < r - l - 1
    ensures var k := Named(direct, |direct|) + (l + 1 - Named(direct, l + 1)) + j;
      && 0 <= k < |Plan(direct)|
      && Plan(direct)[k].id == if j % 2 == 0 then l + j / 2 + 1 else r - j / 2 - 1
  {
    OthersAt(direct, l, r, j);
    DirectAt(direct, |direct|, 0);
    VisitsBehind(DirectSteps(direct, |direct|), Others(direct), l + 1 - Named(direct, l + 1) + j, Alternating(l, r, j));
  }

  /** Without named positions the plan alternates between the two ends of the pattern. */
  lemma NothingNamed(direct: seq<bool>, i: nat)
    requires 0 < |direct| && forall p | 0 <= p < |direct| :: !direct[p]
    ensures 2 * i < |direct| ==> 2 * i < |Plan(direct)| && Plan(direct)[2 * i].id == i
    ensures 2 * i + 1 < |direct| ==> 2 * i + 1 < |Plan(direct)| && Plan(direct)[2 * i + 1].id == |direct| - 1 - i
  {
    NamedNone(direct, 0, |direct|);
    if 2 * i < |direct| { GapOrder(direct, -1, |direct|, 2 * i); }
    if 2 * i + 1 < |direct| { GapOrder(direct, -1, |direct|, 2 * i + 1); }
  }
}
