// What a path query means, and the order in which the engine tries elements for the
// positions of its plan (leveldbgraph_iterator.inc, directed graphs).
module Matching {
  import opened Options
  import opened Planner
  import opened Backtracking

  /** Ids of stored elements are strings. */
  datatype Id = Id(name: string)

  const UNSET := Id("")

  datatype Dir = Next | Prev

  datatype Ends = Ends(from: Id, to: Id)

  /** A query with the database it runs on.  Position p of the pattern is node p/2 if
      p is even and edge p/2 if p is odd.  `nodes` and `edgeIds` are in the order of the
      store: the stored nodes, and the live edges, as the index entries list them.  `ends`
      holds the records of edges, among which may be those of edges that have been
      removed; `ok` lists the positions with the elements whose records have the properties
      asked for there. */
  datatype Setting = Setting(
    dirs: seq<Dir>, direct: seq<Option<Id>>,
    nodes: seq<Id>, edgeIds: seq<Id>, ends: map<Id, Ends>,
    ok: set<(nat, Id)>)

  ghost predicate Apart(s: seq<Id>, i: nat, j: nat) {
    i < j < |s| ==> s[i] != s[j]
  }

  ghost predicate Distinct(s: seq<Id>) {
    forall i: nat, j: nat {:trigger Apart(s, i, j)} :: Apart(s, i, j)
  }

  /** The pattern is a path, live edges have records and join stored nodes, directly named
      nodes exist, and a position with a name accepts nothing else. */
  ghost predicate WellFormed(q: Setting) {
    && |q.direct| == 2 * |q.dirs| + 1
    && Distinct(q.nodes) && Distinct(q.edgeIds)
    && (forall e | e in q.edgeIds :: e in q.ends && q.ends[e].from in q.nodes && q.ends[e].to in q.nodes)
    && (forall p, x | 0 <= p < |q.direct| && (p, x) in q.ok && q.direct[p].Some? :: x == q.direct[p].value)
    && (forall p | 0 <= p < |q.direct| && p % 2 == 0 && q.direct[p].Some? :: q.direct[p].value in q.nodes)
  }

  function Flags(q: Setting): (r: seq<bool>)
    ensures |r| == |q.direct| && forall p | 0 <= p < |r| :: r[p] == q.direct[p].Some?
  {
    seq(|q.direct|, p requires 0 <= p < |q.direct| => q.direct[p].Some?)
  }

  function Steps(q: Setting): seq<Step>
    requires 0 < |q.direct|
  {
    Plan(Flags(q))
  }

  // ---------------------------------------------------------------------------
  // Matches.
  // ---------------------------------------------------------------------------

  /** `x` has a record with the properties asked for at position `p`. */
  predicate Fits(q: Setting, p: nat, x: Id) {
    (if p % 2 == 0 then x in q.nodes else x in q.ends) && (p, x) in q.ok
  }

  /** `x` may stand at position `p` of a match: an edge has to be live. */
  predicate Stands(q: Setting, p: nat, x: Id) {
    Fits(q, p, x) && (p % 2 == 1 ==> x in q.edgeIds)
  }

  /** The ends of edge `e`, used at the edge position `p`, in pattern order. */
  function LeftEnd(q: Setting, p: nat, e: Id): Id
    requires e in q.ends && p / 2 < |q.dirs|
  {
    if q.dirs[p / 2] == Next then q.ends[e].from else q.ends[e].to
  }

  function RightEnd(q: Setting, p: nat, e: Id): Id
    requires e in q.ends && p / 2 < |q.dirs|
  {
    if q.dirs[p / 2] == Next then q.ends[e].to else q.ends[e].from
  }

  /** The elements `a` at position `p` and `b` at position `p + 1` belong together. */
  predicate Linked(q: Setting, p: nat, a: Id, b: Id)
    requires |q.direct| == 2 * |q.dirs| + 1 && p + 1 < |q.direct|
  {
    if p % 2 == 0 then b in q.ends && LeftEnd(q, p + 1, b) == a
    else a in q.ends && RightEnd(q, p, a) == b
  }

  ghost predicate Match(q: Setting, m: seq<Id>)
    requires |q.direct| == 2 * |q.dirs| + 1
  {
    && |m| == |q.direct|
    && (forall p: nat | p < |m| :: Stands(q, p, m[p]))
    && (forall p: nat | p + 1 < |m| :: Linked(q, p, m[p], m[p + 1]))
  }

  // ---------------------------------------------------------------------------
  // Candidates for a step.
  // ---------------------------------------------------------------------------

  /** The elements of `s` that fit position `p`, in order. */
  function Fitting(q: Setting, p: nat, s: seq<Id>): seq<Id> {
    if s == [] then []
    else Fitting(q, p, s[..|s| - 1]) + if Fits(q, p, s[|s| - 1]) then [s[|s| - 1]] else []
  }

  /** Edge `e` leaves `x`, or enters it. */
  predicate EdgeAt(q: Setting, x: Id, out: bool, e: Id) {
    e in q.ends && (if out then q.ends[e].from else q.ends[e].to) == x
  }

  /** The edges of `s` that leave or enter `x`, in order: an entry of the out- or in-index. */
  function EdgesAt(q: Setting, x: Id, out: bool, s: seq<Id>): seq<Id> {
    if s == [] then []
    else EdgesAt(q, x, out, s[..|s| - 1]) + if EdgeAt(q, x, out, s[|s| - 1]) then [s[|s| - 1]] else []
  }

  /** The elements of `s` that are also in `t`, in order. */
  function Common(s: seq<Id>, t: seq<Id>): seq<Id> {
    if s == [] then []
    else Common(s[..|s| - 1], t) + if s[|s| - 1] in t then [s[|s| - 1]] else []
  }

  /** The edges that may stand right of the node `x` at position `p - 1`, and left of
      the node `x` at position `p + 1`. */
  function RightOf(q: Setting, p: nat, x: Id): seq<Id>
    requires p / 2 < |q.dirs|
  {
    EdgesAt(q, x, q.dirs[p / 2] == Next, q.edgeIds)
  }

  function LeftOf(q: Setting, p: nat, x: Id): seq<Id>
    requires p / 2 < |q.dirs|
  {
    EdgesAt(q, x, q.dirs[p / 2] == Prev, q.edgeIds)
  }

  /** The step is for a position of the pattern, and so are the neighbours it looks at. */
  predicate InRange(q: Setting, s: Step) {
    && |q.direct| == 2 * |q.dirs| + 1
    && s.id < |q.direct| && (s.direct ==> q.direct[s.id].Some?)
    && (IsLeft(s.constraint) ==> 0 < s.id)
    && (IsRight(s.constraint) ==> s.id + 1 < |q.direct|)
  }

  /** The elements that the engine tries for a step, in order, given the elements `m`
      it has chosen for the neighbouring positions.  A node that is derived from the
      edge on its right is taken from that edge's far end, as the engine does it; for a
      directly named node with an edge chosen on its left the engine stops. */
  function Tried(q: Setting, s: Step, m: seq<Id>): seq<Id>
    requires InRange(q, s) && |m| == |q.direct|
  {
    var p := s.id;
    if s.direct then
      var c := q.direct[p].value;
      if p % 2 == 1 && (IsLeft(s.constraint) ==> c in RightOf(q, p, m[p - 1]))
                    && (IsRight(s.constraint) ==> c in LeftOf(q, p, m[p + 1])) then [c]
      else if p % 2 == 0 && !IsLeft(s.constraint)
                    && (IsRight(s.constraint) ==> m[p + 1] in q.ends && LeftEnd(q, p + 1, m[p + 1]) == c) then [c]
      else []
    else if p % 2 == 0 then
      match s.constraint
      case LeftConstrained =>
        if m[p - 1] in q.ends then [RightEnd(q, p - 1, m[p - 1])] else []
      case RightConstrained =>
        if m[p + 1] in q.ends then [RightEnd(q, p + 1, m[p + 1])] else []
      case BothConstrained =>
        if m[p - 1] in q.ends && m[p + 1] in q.ends && RightEnd(q, p - 1, m[p - 1]) == RightEnd(q, p + 1, m[p + 1])
        then [RightEnd(q, p - 1, m[p - 1])] else []
      case NotConstrained => q.nodes
    else
      match s.constraint
      case LeftConstrained => RightOf(q, p, m[p - 1])
      case RightConstrained => LeftOf(q, p, m[p + 1])
      case BothConstrained => Common(RightOf(q, p, m[p - 1]), LeftOf(q, p, m[p + 1]))
      case NotConstrained => q.edgeIds
  }

  function Cands(q: Setting, s: Step, m: seq<Id>): seq<Id>
    requires InRange(q, s) && |m| == |q.direct|
  {
    Fitting(q, s.id, Tried(q, s, m))
  }

  /** A plan is direct where the pattern has names, never leaves an edge without any
      constraint, and never visits the right neighbour of a direct step before it. */
  predicate PlainStep(q: Setting, s: Step)
    requires s.id < |q.direct|
  {
    && s.direct == q.direct[s.id].Some?
    && (s.constraint == NotConstrained && !s.direct ==> s.id % 2 == 0)
    && (s.direct ==> !IsRight(s.constraint))
  }

  /** A safe step that does not take an edge by its name alone, without looking into the
      index entry of the node on its left. */
  predicate SureStep(s: Step) {
    SafeStep(s) && (s.direct && s.id % 2 == 1 ==> IsLeft(s.constraint))
  }

  ghost predicate Sure(st: seq<Step>) {
    forall s | s in st :: SureStep(s)
  }

  /** All steps of a safe plan are sure. */
  lemma SafeIsSure(q: Setting)
    requires |q.direct| == 2 * |q.dirs| + 1
    ensures Sure(Steps(q)) <==> Safe(Steps(q))
  {
    if Safe(Steps(q)) {
      forall s | s in Steps(q) ensures SureStep(s) {
        if s.direct && s.id % 2 == 1 { SafeAnchored(Flags(q), s); }
      }
    }
  }

  /** `c` stands for the step, and belongs to the neighbours that it is flagged for. */
  predicate Suits(q: Setting, s: Step, m: seq<Id>, c: Id)
    requires InRange(q, s) && |m| == |q.direct|
  {
    && Stands(q, s.id, c)
    && (IsLeft(s.constraint) ==> Linked(q, s.id - 1, m[s.id - 1], c))
    && (IsRight(s.constraint) ==> Linked(q, s.id, c, m[s.id + 1]))
  }

  lemma {:induction false} InFitting(q: Setting, p: nat, s: seq<Id>, x: Id)
    ensures x in Fitting(q, p, s) <==> x in s && Fits(q, p, x)
  {
    if s != [] { InFitting(q, p, s[..|s| - 1], x); }
  }

  lemma {:induction false} InEdgesAt(q: Setting, x: Id, out: bool, s: seq<Id>, e: Id)
    ensures e in EdgesAt(q, x, out, s) <==> e in s && EdgeAt(q, x, out, e)
  {
    if s != [] { InEdgesAt(q, x, out, s[..|s| - 1], e); }
  }

  lemma {:induction false} InCommon(s: seq<Id>, t: seq<Id>, x: Id)
    ensures x in Common(s, t) <==> x in s && x in t
  {
    if s != [] { InCommon(s[..|s| - 1], t, x); }
  }

  lemma EdgesBeside(q: Setting, p: nat, x: Id, c: Id)
    requires p % 2 == 1 && p + 1 < |q.direct| == 2 * |q.dirs| + 1
    ensures c in RightOf(q, p, x) <==> c in q.edgeIds && Linked(q, p - 1, x, c)
    ensures c in LeftOf(q, p, x) <==> c in q.edgeIds && Linked(q, p, c, x)
  {
    InEdgesAt(q, x, q.dirs[p / 2] == Next, q.edgeIds, c);
    InEdgesAt(q, x, q.dirs[p / 2] == Prev, q.edgeIds, c);
  }

  lemma EdgeTried(q: Setting, s: Step, m: seq<Id>, c: Id)
    requires InRange(q, s) && |m| == |q.direct| && s.id % 2 == 1 && !s.direct && s.constraint != NotConstrained
    ensures c in Tried(q, s, m) <==>
      && (IsLeft(s.constraint) ==> c in RightOf(q, s.id, m[s.id - 1]))
      && (IsRight(s.constraint) ==> c in LeftOf(q, s.id, m[s.id + 1]))
  {
    if s.constraint == BothConstrained {
      InCommon(RightOf(q, s.id, m[s.id - 1]), LeftOf(q, s.id, m[s.id + 1]), c);
    }
  }

  lemma EdgeLinks(q: Setting, s: Step, m: seq<Id>, c: Id)
    requires InRange(q, s) && |m| == |q.direct| && s.id % 2 == 1 && !s.direct && s.constraint != NotConstrained
    ensures c in Tried(q, s, m) <==>
      && c in q.edgeIds && (IsLeft(s.constraint) ==> Linked(q, s.id - 1, m[s.id - 1], c))
      && (IsRight(s.constraint) ==> Linked(q, s.id, c, m[s.id + 1]))
  {
    EdgeTried(q, s, m, c);
    if IsLeft(s.constraint) { EdgesBeside(q, s.id, m[s.id - 1], c); }
    if IsRight(s.constraint) { EdgesBeside(q, s.id, m[s.id + 1], c); }
  }

  lemma EdgeCands(q: Setting, s: Step, m: seq<Id>, c: Id)
    requires InRange(q, s) && |m| == |q.direct| && s.id % 2 == 1 && !s.direct && s.constraint != NotConstrained
    ensures c in Cands(q, s, m) <==> Suits(q, s, m, c)
  {
    EdgeLinks(q, s, m, c);
    InFitting(q, s.id, Tried(q, s, m), c);
  }

  lemma NodeCands(q: Setting, s: Step, m: seq<Id>, c: Id)
    requires InRange(q, s) && |m| == |q.direct| && s.id % 2 == 0 && !s.direct && SafeStep(s)
    ensures c in Cands(q, s, m) <==> Suits(q, s, m, c)
  {
    InFitting(q, s.id, Tried(q, s, m), c);
  }

  lemma DirectCands(q: Setting, s: Step, m: seq<Id>, c: Id)
    requires InRange(q, s) && |m| == |q.direct| && s.direct && SureStep(s) && !IsRight(s.constraint)
    requires (s.id, c) in q.ok ==> c == q.direct[s.id].value
    ensures c in Cands(q, s, m) <==> Suits(q, s, m, c)
  {
    InFitting(q, s.id, Tried(q, s, m), c);
    if s.id % 2 == 1 && IsLeft(s.constraint) { EdgesBeside(q, s.id, m[s.id - 1], c); }
  }

  /** For a sure step of a plan the candidates are exactly the suitable elements. */
  lemma CandsMeaning(q: Setting, s: Step, m: seq<Id>, c: Id)
    requires WellFormed(q) && InRange(q, s) && |m| == |q.direct| && SureStep(s) && PlainStep(q, s)
    ensures c in Cands(q, s, m) <==> Suits(q, s, m, c)
  {
    if s.direct {
      DirectCands(q, s, m, c);
    } else if s.id % 2 == 0 {
      NodeCands(q, s, m, c);
    } else {
      EdgeCands(q, s, m, c);
    }
  }

  /** Candidates depend on the flagged neighbours only. */
  lemma CandsSame(q: Setting, s: Step, m: seq<Id>, m': seq<Id>)
    requires InRange(q, s) && |m| == |m'| == |q.direct|
    requires IsLeft(s.constraint) ==> m[s.id - 1] == m'[s.id - 1]
    requires IsRight(s.constraint) ==> m[s.id + 1] == m'[s.id + 1]
    ensures Tried(q, s, m) == Tried(q, s, m')
  {
  }

  // ---------------------------------------------------------------------------
  // The plan as a backtracking problem.
  // ---------------------------------------------------------------------------

  function Blank(q: Setting): (m: seq<Id>)
    ensures |m| == |q.direct|
  {
    seq(|q.direct|, _ => UNSET)
  }

  /** Step by step of the plan `st`, one of the candidates is filled in. */
  function Choices(q: Setting, st: seq<Step>): Problem<Id> {
    Problem(
      Blank(q), seq(|st|, k requires 0 <= k < |st| => st[k].id),
      (k: nat, m: seq<Id>) => if k < |st| && InRange(q, st[k]) && |m| == |q.direct| then Cands(q, st[k], m) else [])
  }

  /** A plan visits every position once and flags each step exactly for the
      neighbours visited before. */
  ghost predicate PlanFor(q: Setting, st: seq<Step>) {
    && |q.direct| == 2 * |q.dirs| + 1
    && Exact(st)
    && (forall p: int :: p in Ids(st) <==> 0 <= p < |q.direct|)
    && (forall i | 0 <= i < |st| :: InRange(q, st[i]) && PlainStep(q, st[i]))
  }

  /** The planner's steps are a plan for the pattern. */
  lemma StepsArePlan(q: Setting)
    requires |q.direct| == 2 * |q.dirs| + 1
    ensures PlanFor(q, Steps(q))
  {
    var flags, st := Flags(q), Steps(q);
    PlanExact(flags);
    forall i | 0 <= i < |st| ensures InRange(q, st[i]) && PlainStep(q, st[i]) {
      PlanShape(flags, i);
      assert ExactAfter(st[..i], st[i]);
      PrefixInPlan(st, i, st[i].id - 1);
      PrefixInPlan(st, i, st[i].id + 1);
      if st[i].direct { DirectNotRight(flags, i); }
    }
  }

  /** The direct steps of a plan come first. */
  ghost predicate DirectFirst(st: seq<Step>) {
    forall h, k {:trigger st[h].direct, st[k].direct} | 0 <= h < k < |st| && st[k].direct :: st[h].direct
  }

  lemma StepsDirectFirst(q: Setting)
    requires |q.direct| == 2 * |q.dirs| + 1
    ensures DirectFirst(Steps(q))
  {
    forall k: nat | k < |Steps(q)| ensures Steps(q)[k].direct == (k < |DirectSteps(Flags(q), |q.direct|)|) {
      PlanShape(Flags(q), k);
    }
  }

  lemma PrefixInPlan(st: seq<Step>, i: nat, p: int)
    requires i <= |st|
    ensures p in Ids(st[..i]) ==> p in Ids(st)
  {
    IdsGrow(st, i, |st|);
    assert st[..|st|] == st;
  }

  lemma DirectNotRight(flags: seq<bool>, k: nat)
    requires |flags| % 2 == 1 && k < |DirectSteps(flags, |flags|)|
    ensures k < |Plan(flags)| && !IsRight(Plan(flags)[k].constraint)
  {
    var d := DirectSteps(flags, |flags|);
    DirectStepsAscend(flags, |flags|);
    DirectExact(flags, |flags|);
    assert Plan(flags)[k] == d[k];
    assert ExactAfter(d[..k], d[k]);
    forall s | s in d[..k] ensures s.id < d[k].id {
      var i :| 0 <= i < k && d[i] == s;
    }
  }

  // ---------------------------------------------------------------------------
  // The choices for the first steps are the partial matches.
  // ---------------------------------------------------------------------------

  /** `m` is filled in at the positions of the first `k` steps, and as far as filled
      in it is a match. */
  ghost predicate Partial(q: Setting, st: seq<Step>, k: nat, m: seq<Id>)
    requires |q.direct| == 2 * |q.dirs| + 1 && k <= |st|
  {
    && |m| == |q.direct|
    && (forall p: nat {:trigger FilledRight(q, Ids(st[..k]), m, p)} | p < |m| :: FilledRight(q, Ids(st[..k]), m, p))
    && (forall p: nat {:trigger LinkedSoFar(q, Ids(st[..k]), m, p)} | p + 1 < |m| :: LinkedSoFar(q, Ids(st[..k]), m, p))
  }

  ghost predicate FilledRight(q: Setting, done: set<int>, m: seq<Id>, p: nat)
    requires p < |m|
  {
    if p in done then Stands(q, p, m[p]) else m[p] == UNSET
  }

  ghost predicate LinkedSoFar(q: Setting, done: set<int>, m: seq<Id>, p: nat)
    requires |q.direct| == 2 * |q.dirs| + 1 && p + 1 < |m| == |q.direct|
  {
    p in done && p + 1 in done ==> Linked(q, p, m[p], m[p + 1])
  }

  lemma NextIds(st: seq<Step>, k: nat)
    requires k < |st|
    ensures Ids(st[..k + 1]) == Ids(st[..k]) + {st[k].id}
  {
    assert st[..k + 1] == st[..k] + [st[k]];
    IdsSnoc(st[..k], st[k]);
  }

  lemma SuitsContinues(q: Setting, st: seq<Step>, k: nat, m: seq<Id>, c: Id)
    requires PlanFor(q, st) && k < |st| && Partial(q, st, k, m) && Suits(q, st[k], m, c)
    ensures Partial(q, st, k + 1, m[st[k].id := c])
  {
    var m', done, done' := m[st[k].id := c], Ids(st[..k]), Ids(st[..k + 1]);
    NextIds(st, k);
    assert ExactAfter(st[..k], st[k]);
    forall r: nat | r < |m'| ensures FilledRight(q, done', m', r) { assert FilledRight(q, done, m, r); }
    forall r: nat | r + 1 < |m'| ensures LinkedSoFar(q, done', m', r) { assert LinkedSoFar(q, done, m, r); }
  }

  lemma ContinuesSuits(q: Setting, st: seq<Step>, k: nat, m: seq<Id>, c: Id)
    requires PlanFor(q, st) && k < |st| && |m| == |q.direct| && Partial(q, st, k + 1, m[st[k].id := c])
    ensures Suits(q, st[k], m, c)
  {
    var p, m', done, done' := st[k].id, m[st[k].id := c], Ids(st[..k]), Ids(st[..k + 1]);
    NextIds(st, k);
    assert ExactAfter(st[..k], st[k]);
    assert FilledRight(q, done', m', p);
    if IsLeft(st[k].constraint) { assert LinkedSoFar(q, done', m', p - 1); }
    if IsRight(st[k].constraint) { assert LinkedSoFar(q, done', m', p); }
  }

  /** Filling in a candidate continues a partial match, and every continuation arises
      that way. */
  lemma PartialNext(q: Setting, st: seq<Step>, k: nat, m: seq<Id>, c: Id)
    requires WellFormed(q) && PlanFor(q, st) && Sure(st) && k < |st|
    requires Partial(q, st, k, m)
    ensures Partial(q, st, k + 1, m[st[k].id := c]) <==> c in Cands(q, st[k], m)
  {
    assert st[k] in st && SureStep(st[k]);
    CandsMeaning(q, st[k], m, c);
    if c in Cands(q, st[k], m) { SuitsContinues(q, st, k, m, c); }
    if Partial(q, st, k + 1, m[st[k].id := c]) { ContinuesSuits(q, st, k, m, c); }
  }

  /** Emptying the last position filled in gives back a partial match. */
  lemma PartialBefore(q: Setting, st: seq<Step>, k: nat, m: seq<Id>)
    requires PlanFor(q, st) && k < |st| && Partial(q, st, k + 1, m)
    ensures Partial(q, st, k, m[st[k].id := UNSET])
  {
    var p, m0 := st[k].id, m[st[k].id := UNSET];
    var done, done' := Ids(st[..k]), Ids(st[..k + 1]);
    NextIds(st, k);
    assert ExactAfter(st[..k], st[k]);
    forall r: nat | r < |m0| ensures FilledRight(q, done, m0, r) { assert FilledRight(q, done', m, r); }
    forall r: nat | r + 1 < |m0| ensures LinkedSoFar(q, done, m0, r) { assert LinkedSoFar(q, done', m, r); }
  }
}
