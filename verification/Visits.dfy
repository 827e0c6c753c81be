// Which prefixes a backtracking search has come to when it has found a given one, and
// whether something has happened at one of them.
module Visits {
  import opened Backtracking

  // ---------------------------------------------------------------------------
  // Events on the way to a prefix.
  // ---------------------------------------------------------------------------

  /** What the steps `k..h` make of `ms` has at number `i` an event of step `h`, and no more
      than `j` of what the steps `k..n` make of `ms` comes before that. */
  ghost predicate Hits<T>(p: Problem<T>, ev: (nat, seq<T>) -> bool, ms: seq<seq<T>>, k: nat, n: nat, j: nat, h: nat, i: nat)
    requires n <= |p.at|
  {
    && k <= h < n && i < |Grow(p, ms, k, h)| && ev(h, Grow(p, ms, k, h)[i])
    && |Grow(p, Grow(p, ms, k, h)[..i], h, n)| <= j
  }

  /** A search that begins with `ms` at step `k` meets an event until it has filled in the
      steps before `n` for the time number `j`, or has come to its end. */
  ghost predicate Occurs<T(!new)>(p: Problem<T>, ev: (nat, seq<T>) -> bool, ms: seq<seq<T>>, k: nat, n: nat, j: nat)
    requires n <= |p.at|
  {
    exists h: nat, i: nat {:trigger Hits(p, ev, ms, k, n, j, h, i)} :: Hits(p, ev, ms, k, n, j, h, i)
  }

  lemma {:induction false} GrowTwice<T>(p: Problem<T>, ms: seq<seq<T>>, k: nat, h: nat, n: nat)
    requires k <= h <= n <= |p.at|
    ensures Grow(p, Grow(p, ms, k, h), h, n) == Grow(p, ms, k, n)
    decreases n
  {
    if h < n { GrowTwice(p, ms, k, h, n - 1); }
  }

  lemma ExtendAllOne<T>(p: Problem<T>, k: nat, m: seq<T>)
    requires k < |p.at|
    ensures ExtendAll(p, k, [m]) == Extend(m, p.at[k], p.tries(k, m))
  {
    var e: seq<seq<T>> := [];
    assert [m][..0] == e && ExtendAll(p, k, e) == e;
    assert ExtendAll(p, k, [m]) == e + Extend(m, p.at[k], p.tries(k, m));
  }

  // ---------------------------------------------------------------------------
  // The first result.
  // ---------------------------------------------------------------------------

  lemma NothingOccurs<T(!new)>(p: Problem<T>, ev: (nat, seq<T>) -> bool, k: nat, n: nat, j: nat)
    requires n <= |p.at|
    ensures !Occurs(p, ev, [], k, n, j)
  {
    forall h: nat, i: nat | Hits(p, ev, [], k, n, j, h, i) ensures false { GrowNothing(p, k, h); }
  }

  /** The search from one prefix on: at that prefix, or further on. */
  lemma OccursHere<T(!new)>(p: Problem<T>, ev: (nat, seq<T>) -> bool, m: seq<T>, k: nat, n: nat, j: nat)
    requires k < n <= |p.at|
    ensures Occurs(p, ev, [m], k, n, j) <==> ev(k, m) || Occurs(p, ev, Extend(m, p.at[k], p.tries(k, m)), k + 1, n, j)
  {
    var more := Extend(m, p.at[k], p.tries(k, m));
    if ev(k, m) {
      GrowNothing(p, k, n);
      assert [m][..0] == [];
      assert Hits(p, ev, [m], k, n, j, k, 0);
    }
    forall h: nat, i: nat | k < h < n
      ensures Hits(p, ev, [m], k, n, j, h, i) <==> Hits(p, ev, more, k + 1, n, j, h, i)
    {
      GrowFirst(p, [m], k, h);
      ExtendAllOne(p, k, m);
    }
    if Occurs(p, ev, more, k + 1, n, j) {
      var h: nat, i: nat :| Hits(p, ev, more, k + 1, n, j, h, i);
      assert Hits(p, ev, [m], k, n, j, h, i);
    }
    if Occurs(p, ev, [m], k, n, j) {
      var h: nat, i: nat :| Hits(p, ev, [m], k, n, j, h, i);
      if h > k { assert Hits(p, ev, more, k + 1, n, j, h, i); }
    }
  }

  lemma JoinedLeft<T>(p: Problem<T>, a: seq<seq<T>>, b: seq<seq<T>>, k: nat, h: nat, i: nat)
    requires k <= h <= |p.at| && i < |Grow(p, a, k, h)|
    ensures i < |Grow(p, a + b, k, h)| && Grow(p, a + b, k, h)[i] == Grow(p, a, k, h)[i]
    ensures Grow(p, a + b, k, h)[..i] == Grow(p, a, k, h)[..i]
  {
    GrowAppend(p, a, b, k, h);
  }

  lemma JoinedRight<T>(p: Problem<T>, a: seq<seq<T>>, b: seq<seq<T>>, k: nat, h: nat, n: nat, i: nat)
    requires k <= h <= n <= |p.at| && i < |Grow(p, b, k, h)|
    ensures var t, g := |Grow(p, a, k, h)| + i, Grow(p, a + b, k, h);
      && t < |g| && g[t] == Grow(p, b, k, h)[i]
      && Grow(p, g[..t], h, n) == Grow(p, a, k, n) + Grow(p, Grow(p, b, k, h)[..i], h, n)
  {
    var ga, gb := Grow(p, a, k, h), Grow(p, b, k, h);
    GrowAppend(p, a, b, k, h);
    assert (ga + gb)[..|ga| + i] == ga + gb[..i];
    GrowAppend(p, ga, gb[..i], h, n);
    GrowTwice(p, a, k, h, n);
  }

  lemma HitsLeft<T>(p: Problem<T>, ev: (nat, seq<T>) -> bool, a: seq<seq<T>>, b: seq<seq<T>>, k: nat, n: nat, h: nat, i: nat)
    requires k <= h < n <= |p.at| && i < |Grow(p, a, k, h)|
    ensures Hits(p, ev, a + b, k, n, 0, h, i) <==> Hits(p, ev, a, k, n, 0, h, i)
  {
    JoinedLeft(p, a, b, k, h, i);
  }

  lemma HitsRight<T>(p: Problem<T>, ev: (nat, seq<T>) -> bool, a: seq<seq<T>>, b: seq<seq<T>>, k: nat, n: nat, h: nat, i: nat)
    requires k <= h < n <= |p.at| && i < |Grow(p, b, k, h)|
    ensures Hits(p, ev, a + b, k, n, 0, h, |Grow(p, a, k, h)| + i)
       <==> Grow(p, a, k, n) == [] && Hits(p, ev, b, k, n, 0, h, i)
  {
    JoinedRight(p, a, b, k, h, n, i);
  }

  lemma OccursEither<T(!new)>(p: Problem<T>, ev: (nat, seq<T>) -> bool, a: seq<seq<T>>, b: seq<seq<T>>, k: nat, n: nat)
    requires k <= n <= |p.at| && Occurs(p, ev, a + b, k, n, 0)
    ensures Occurs(p, ev, a, k, n, 0) || (Grow(p, a, k, n) == [] && Occurs(p, ev, b, k, n, 0))
  {
    var h: nat, i: nat :| Hits(p, ev, a + b, k, n, 0, h, i);
    var ga := |Grow(p, a, k, h)|;
    if i < ga {
      HitsLeft(p, ev, a, b, k, n, h, i);
    } else {
      GrowAppend(p, a, b, k, h);
      HitsRight(p, ev, a, b, k, n, h, i - ga);
    }
  }

  /** The search for the first result goes on to `b` only if `a` leads to nothing. */
  lemma OccursFirst<T(!new)>(p: Problem<T>, ev: (nat, seq<T>) -> bool, a: seq<seq<T>>, b: seq<seq<T>>, k: nat, n: nat)
    requires k <= n <= |p.at|
    ensures Occurs(p, ev, a + b, k, n, 0) <==>
      Occurs(p, ev, a, k, n, 0) || (Grow(p, a, k, n) == [] && Occurs(p, ev, b, k, n, 0))
  {
    if Occurs(p, ev, a + b, k, n, 0) { OccursEither(p, ev, a, b, k, n); }
    if Occurs(p, ev, a, k, n, 0) {
      var h: nat, i: nat :| Hits(p, ev, a, k, n, 0, h, i);
      HitsLeft(p, ev, a, b, k, n, h, i);
    }
    if Grow(p, a, k, n) == [] && Occurs(p, ev, b, k, n, 0) {
      var h: nat, i: nat :| Hits(p, ev, b, k, n, 0, h, i);
      HitsRight(p, ev, a, b, k, n, h, i);
    }
  }

  /** The search for the first result that continues `m` from step `k` on meets an event;
      the same for the candidates `cs` of step `k`. */
  ghost predicate Ahead<T(!new)>(p: Problem<T>, ev: (nat, seq<T>) -> bool, k: nat, m: seq<T>) {
    Occurs(p, ev, [m], k, |p.at|, 0)
  }

  ghost predicate AheadWith<T(!new)>(p: Problem<T>, ev: (nat, seq<T>) -> bool, k: nat, m: seq<T>, cs: seq<T>)
    requires k < |p.at|
  {
    Occurs(p, ev, Extend(m, p.at[k], cs), k + 1, |p.at|, 0)
  }

  lemma AheadByCandidates<T(!new)>(p: Problem<T>, ev: (nat, seq<T>) -> bool, k: nat, m: seq<T>)
    requires k < |p.at|
    ensures Ahead(p, ev, k, m) <==> ev(k, m) || AheadWith(p, ev, k, m, p.tries(k, m))
  {
    OccursHere(p, ev, m, k, |p.at|, 0);
  }

  lemma AheadNone<T(!new)>(p: Problem<T>, ev: (nat, seq<T>) -> bool, k: nat, m: seq<T>)
    requires k < |p.at|
    ensures !AheadWith(p, ev, k, m, [])
  {
    NothingOccurs(p, ev, k + 1, |p.at|, 0);
  }

  lemma AheadOne<T(!new)>(p: Problem<T>, ev: (nat, seq<T>) -> bool, k: nat, m: seq<T>, c: T)
    requires k < |p.at|
    ensures AheadWith(p, ev, k, m, [c]) <==> Ahead(p, ev, k + 1, Put(m, p.at[k], c))
  {
    assert [c][..0] == [];
    assert Extend(m, p.at[k], [c]) == [Put(m, p.at[k], c)];
  }

  lemma AheadAppend<T(!new)>(p: Problem<T>, ev: (nat, seq<T>) -> bool, k: nat, m: seq<T>, a: seq<T>, b: seq<T>)
    requires k < |p.at|
    ensures AheadWith(p, ev, k, m, a + b) <==>
      AheadWith(p, ev, k, m, a) || (ResultsFor(p, k, m, a) == [] && AheadWith(p, ev, k, m, b))
  {
    ExtendAppend(m, p.at[k], a, b);
    OccursFirst(p, ev, Extend(m, p.at[k], a), Extend(m, p.at[k], b), k + 1, |p.at|);
  }

  // ---------------------------------------------------------------------------
  // From one prefix to the next.
  // ---------------------------------------------------------------------------

  /** A run meets an event on the way to the prefix number `j` of the first `n` steps. */
  ghost predicate Met<T(!new)>(p: Problem<T>, ev: (nat, seq<T>) -> bool, n: nat, j: nat)
    requires n <= |p.at|
  {
    Occurs(p, ev, [p.blank], 0, n, j)
  }

  /** Step `n` has an event at one of the prefixes up to number `i`. */
  ghost predicate MetAt<T>(p: Problem<T>, ev: (nat, seq<T>) -> bool, n: nat, i: nat)
    requires n <= |p.at|
  {
    exists t: nat {:trigger Prefixes(p, n)[t]} :: t <= i && t < |Prefixes(p, n)| && ev(n, Prefixes(p, n)[t])
  }

  lemma MetAtNext<T>(p: Problem<T>, ev: (nat, seq<T>) -> bool, n: nat, i: nat)
    requires n <= |p.at| && i + 1 < |Prefixes(p, n)|
    ensures MetAt(p, ev, n, i + 1) <==> MetAt(p, ev, n, i) || ev(n, Prefixes(p, n)[i + 1])
  {
  }

  lemma OffsetRises<T>(p: Problem<T>, k: nat, ms: seq<seq<T>>, a: nat, b: nat)
    requires k < |p.at| && a <= b <= |ms|
    ensures Offset(p, k, ms, a) <= Offset(p, k, ms, b)
  {
    assert ms[..b] == ms[..a] + ms[a..b];
    ExtendAllAppend(p, k, ms[..a], ms[a..b]);
  }

  /** What comes of the first `i` prefixes for the steps before `h` are the first prefixes
      for the steps before `n`. */
  lemma GrownFirst<T>(p: Problem<T>, h: nat, n: nat, i: nat)
    requires h <= n <= |p.at| && i <= |Prefixes(p, h)|
    ensures var c := |Grow(p, Prefixes(p, h)[..i], h, n)|;
      c <= |Prefixes(p, n)| && Grow(p, Prefixes(p, h)[..i], h, n) == Prefixes(p, n)[..c]
  {
    var ms := Prefixes(p, h);
    assert ms == ms[..i] + ms[i..];
    GrowAppend(p, ms[..i], ms[i..], h, n);
    GrowTwice(p, [p.blank], 0, h, n);
  }

  /** How many prefixes for one more step come before those of the prefix number `i`. */
  lemma CountNext<T>(p: Problem<T>, h: nat, n: nat, i: nat)
    requires h <= n < |p.at| && i <= |Prefixes(p, h)|
    ensures var c := |Grow(p, Prefixes(p, h)[..i], h, n)|;
      c <= |Prefixes(p, n)| && |Grow(p, Prefixes(p, h)[..i], h, n + 1)| == Offset(p, n, Prefixes(p, n), c)
  {
    GrownFirst(p, h, n, i);
  }

  lemma HitsParent<T(!new)>(p: Problem<T>, ev: (nat, seq<T>) -> bool, n: nat, i: nat, j: nat, h: nat, t: nat)
    requires n < |p.at| && h <= n && i <= |Prefixes(p, n)|
    requires Offset(p, n, Prefixes(p, n), i) <= j
    requires i < |Prefixes(p, n)| ==> j < Offset(p, n, Prefixes(p, n), i + 1)
    ensures Hits(p, ev, [p.blank], 0, n + 1, j, h, t) <==>
      if h < n then Hits(p, ev, [p.blank], 0, n, i, h, t) else t <= i && t < |Prefixes(p, n)| && ev(n, Prefixes(p, n)[t])
  {
    if t < |Prefixes(p, h)| {
      CountNext(p, h, n, t);
      var c := |Grow(p, Prefixes(p, h)[..t], h, n)|;
      if c <= i { OffsetRises(p, n, Prefixes(p, n), c, i); } else { OffsetRises(p, n, Prefixes(p, n), i + 1, c); }
      if h == n { assert Grow(p, Prefixes(p, h)[..t], h, n) == Prefixes(p, n)[..t]; }
    }
  }

  /** The way to a prefix is the way to the one it continues, and its own step.  Behind the
      last one, `i` and `j` are the numbers of all. */
  lemma MetParent<T(!new)>(p: Problem<T>, ev: (nat, seq<T>) -> bool, n: nat, i: nat, j: nat)
    requires n < |p.at| && i <= |Prefixes(p, n)|
    requires Offset(p, n, Prefixes(p, n), i) <= j
    requires i < |Prefixes(p, n)| ==> j < Offset(p, n, Prefixes(p, n), i + 1)
    ensures Met(p, ev, n + 1, j) <==> Met(p, ev, n, i) || MetAt(p, ev, n, i)
  {
    if Met(p, ev, n + 1, j) {
      var h: nat, t: nat :| Hits(p, ev, [p.blank], 0, n + 1, j, h, t);
      HitsParent(p, ev, n, i, j, h, t);
      assert h < n ==> Hits(p, ev, [p.blank], 0, n, i, h, t);
    }
    if Met(p, ev, n, i) {
      var h: nat, t: nat :| Hits(p, ev, [p.blank], 0, n, i, h, t);
      HitsParent(p, ev, n, i, j, h, t);
      assert Hits(p, ev, [p.blank], 0, n + 1, j, h, t);
    }
    if MetAt(p, ev, n, i) {
      var t: nat :| t <= i && t < |Prefixes(p, n)| && ev(n, Prefixes(p, n)[t]);
      HitsParent(p, ev, n, i, j, n, t);
      assert Hits(p, ev, [p.blank], 0, n + 1, j, n, t);
    }
  }

  /** An event at the first prefix of a step comes before the first result. */
  lemma MetFirst<T(!new)>(p: Problem<T>, ev: (nat, seq<T>) -> bool, n: nat, h: nat)
    requires h < n <= |p.at| && Prefixes(p, h) != [] && ev(h, Prefixes(p, h)[0])
    ensures Met(p, ev, n, 0)
  {
    GrowNothing(p, h, n);
    assert Prefixes(p, h)[..0] == [];
    assert Hits(p, ev, [p.blank], 0, n, 0, h, 0);
  }

  /** As long as there is no choice, the way to the only prefix is the whole run. */
  lemma MetSingle<T(!new)>(p: Problem<T>, ev: (nat, seq<T>) -> bool, n: nat, j: nat)
    requires n <= |p.at| && forall h: nat {:trigger Prefixes(p, h)} | h < n :: |Prefixes(p, h)| <= 1
    ensures Met(p, ev, n, j) <==> exists h: nat {:trigger Prefixes(p, h)} :: h < n && Prefixes(p, h) != [] && ev(h, Prefixes(p, h)[0])
  {
    if Met(p, ev, n, j) {
      var h: nat, t: nat :| Hits(p, ev, [p.blank], 0, n, j, h, t);
      assert Prefixes(p, h) != [];
    }
    if h: nat :| h < n && Prefixes(p, h) != [] && ev(h, Prefixes(p, h)[0]) {
      GrowNothing(p, h, n);
      assert Prefixes(p, h)[..0] == [];
      assert Hits(p, ev, [p.blank], 0, n, j, h, 0);
    }
  }

  /** By the end of a run every event has been met. */
  lemma MetInTheEnd<T(!new)>(p: Problem<T>, ev: (nat, seq<T>) -> bool, n: nat, j: nat)
    requires n <= |p.at| && j >= |Prefixes(p, n)|
    ensures Met(p, ev, n, j) <==> exists h: nat {:trigger Prefixes(p, h)} :: h < n && MetAt(p, ev, h, |Prefixes(p, h)|)
  {
    if Met(p, ev, n, j) {
      var h: nat, t: nat :| Hits(p, ev, [p.blank], 0, n, j, h, t);
      assert MetAt(p, ev, h, |Prefixes(p, h)|);
    }
    if h: nat :| h < n && MetAt(p, ev, h, |Prefixes(p, h)|) {
      var t: nat :| t <= |Prefixes(p, h)| && t < |Prefixes(p, h)| && ev(h, Prefixes(p, h)[t]);
      GrownFirst(p, h, n, t);
      assert Hits(p, ev, [p.blank], 0, n, j, h, t);
    }
  }
}
