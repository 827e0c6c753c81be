// When an assertion of the query engine fails (leveldbgraph_iterator.inc), on any database
// and for any plan.
module Failures {
  import opened Planner
  import opened Backtracking
  import opened Matching
  import opened Enumeration
  import opened Visits

  /** Step `s`, taken when the elements `m` have been chosen, fails an assertion.  For a
      named node whose left neighbour has been visited the engine asks for the edge number
      of the node's own position; of a node that is derived from edges it looks at the
      properties, which have to be stored. */
  ghost predicate Fails(q: Setting, s: Step, m: seq<Id>) {
    && InRange(q, s) && |m| == |q.direct| && s.id % 2 == 0
    && if s.direct then IsLeft(s.constraint) && Fits(q, s.id, q.direct[s.id].value)
       else match s.constraint
         case NotConstrained => false
         case LeftConstrained => FarEndMissing(q, s.id - 1, m)
         case RightConstrained => FarEndMissing(q, s.id + 1, m)
         case BothConstrained =>
           && FarEndMissing(q, s.id - 1, m) && FarEndMissing(q, s.id + 1, m)
           && RightEnd(q, s.id - 1, m[s.id - 1]) == RightEnd(q, s.id + 1, m[s.id + 1])
  }

  /** The edge at position `p` ends on the right in a node that is not stored. */
  ghost predicate FarEndMissing(q: Setting, p: int, m: seq<Id>) {
    0 <= p < |m| && p / 2 < |q.dirs| && m[p] in q.ends && RightEnd(q, p, m[p]) !in q.nodes
  }

  /** `fails` tells for each step of a plan when it fails. */
  ghost predicate Watches(fails: (nat, seq<Id>) -> bool, q: Setting, st: seq<Step>) {
    forall k: nat, m {:trigger fails(k, m)} :: fails(k, m) <==> k < |st| && Fails(q, st[k], m)
  }

  ghost function Failing(q: Setting, st: seq<Step>): (nat, seq<Id>) -> bool {
    (k: nat, m: seq<Id>) => k < |st| && Fails(q, st[k], m)
  }

  lemma FailingWatches(q: Setting, st: seq<Step>)
    ensures Watches(Failing(q, st), q, st)
  {
  }

  /** Some prefix of the run fails. */
  ghost predicate Stops(q: Setting)
    requires |q.direct| == 2 * |q.dirs| + 1
  {
    exists k: nat, m {:trigger FailsAt(q, k, m)} :: FailsAt(q, k, m)
  }

  ghost predicate FailsAt(q: Setting, k: nat, m: seq<Id>)
    requires |q.direct| == 2 * |q.dirs| + 1
  {
    k < |Steps(q)| && m in Prefixes(Choices(q, Steps(q)), k) && Fails(q, Steps(q)[k], m)
  }

  /** On a sure plan no prefix fails: the edges that nodes are derived from are live. */
  lemma SureNeverFails(pr: Problem<Id>, q: Setting, st: seq<Step>, k: nat, m: seq<Id>)
    requires WellFormed(q) && PlanFor(q, st) && Plans(pr, q, st) && Sure(st) && k < |st| && m in Prefixes(pr, k)
    ensures !Fails(q, st[k], m)
  {
    assert st[k] in st && SureStep(st[k]);
    PrefixesPartial(pr, q, st, k, m);
    assert ExactAfter(st[..k], st[k]);
    if st[k].id % 2 == 0 && st[k].constraint == LeftConstrained {
      assert FilledRight(q, Ids(st[..k]), m, st[k].id - 1);
    }
  }

  lemma SafeNeverStops(q: Setting)
    requires WellFormed(q) && Safe(Steps(q))
    ensures !Stops(q)
  {
    var st := Steps(q);
    StepsArePlan(q);
    SafeIsSure(q);
    ChoicesPlan(q, st);
    forall k: nat, m | k < |st| && m in Prefixes(Choices(q, st), k) ensures !Fails(q, st[k], m) {
      SureNeverFails(Choices(q, st), q, st, k, m);
    }
  }
}
