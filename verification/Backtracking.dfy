// Backtracking in general: elements are filled in at one position after the other, and
// for each there is a list of candidates that depends on what is filled in already.
// This file is about the sequence of all results, its order, and how a search finds its
// first element and goes from one element to the next.
module Backtracking {

  /** Step `k` fills in position `at[k]` with one of `tries(k, m)`, where `m` is what
      has been filled in before. */
  datatype Problem<!T> = Problem(blank: seq<T>, at: seq<nat>, tries: (nat, seq<T>) -> seq<T>)

  function Put<T>(m: seq<T>, i: nat, x: T): (r: seq<T>)
    ensures |r| == |m|
  {
    if i < |m| then m[i := x] else m
  }

  function Extend<T>(m: seq<T>, i: nat, cs: seq<T>): (r: seq<seq<T>>)
    ensures |r| == |cs|
  {
    if cs == [] then [] else Extend(m, i, cs[..|cs| - 1]) + [Put(m, i, cs[|cs| - 1])]
  }

  /** Step `k`, taken for all of `ms`. */
  function ExtendAll<T>(p: Problem<T>, k: nat, ms: seq<seq<T>>): seq<seq<T>>
    requires k < |p.at|
  {
    if ms == [] then []
    else
      var last := ms[|ms| - 1];
      ExtendAll(p, k, ms[..|ms| - 1]) + Extend(last, p.at[k], p.tries(k, last))
  }

  /** What the steps `k..n` make of `ms`. */
  function Grow<T>(p: Problem<T>, ms: seq<seq<T>>, k: nat, n: nat): seq<seq<T>>
    requires k <= n <= |p.at|
    decreases n
  {
    if k == n then ms else ExtendAll(p, n - 1, Grow(p, ms, k, n - 1))
  }

  /** All that the first `k` steps can choose. */
  function Prefixes<T>(p: Problem<T>, k: nat): seq<seq<T>>
    requires k <= |p.at|
  {
    Grow(p, [p.blank], 0, k)
  }

  lemma PrefixesNext<T>(p: Problem<T>, k: nat)
    requires k < |p.at|
    ensures Prefixes(p, k + 1) == ExtendAll(p, k, Prefixes(p, k))
  {
  }

  // ---------------------------------------------------------------------------
  // Members.
  // ---------------------------------------------------------------------------

  lemma {:induction false} ExtendAt<T>(m: seq<T>, i: nat, cs: seq<T>, t: nat)
    requires t < |cs|
    ensures Extend(m, i, cs)[t] == Put(m, i, cs[t])
  {
    if t < |cs| - 1 { ExtendAt(m, i, cs[..|cs| - 1], t); }
  }

  /** `m` continues `m0` with a candidate for step `k`. */
  ghost predicate Continues<T(!new)>(p: Problem<T>, k: nat, m0: seq<T>, m: seq<T>)
    requires k < |p.at|
  {
    exists c {:trigger Put(m0, p.at[k], c)} :: c in p.tries(k, m0) && m == Put(m0, p.at[k], c)
  }

  ghost predicate Arises<T(!new)>(p: Problem<T>, k: nat, ms: seq<seq<T>>, m: seq<T>)
    requires k < |p.at|
  {
    exists m0 {:trigger Continues(p, k, m0, m)} :: m0 in ms && Continues(p, k, m0, m)
  }

  lemma ExtendMember<T(!new)>(p: Problem<T>, k: nat, m0: seq<T>, m: seq<T>)
    requires k < |p.at|
    ensures m in Extend(m0, p.at[k], p.tries(k, m0)) <==> Continues(p, k, m0, m)
  {
    var cs := p.tries(k, m0);
    var r := Extend(m0, p.at[k], cs);
    if m in r {
      var t :| 0 <= t < |r| && r[t] == m;
      ExtendAt(m0, p.at[k], cs, t);
    }
    if Continues(p, k, m0, m) {
      var c :| c in cs && m == Put(m0, p.at[k], c);
      var t :| 0 <= t < |cs| && cs[t] == c;
      ExtendAt(m0, p.at[k], cs, t);
      assert r[t] == m;
    }
  }

  lemma {:induction false} ExtendAllMember<T(!new)>(p: Problem<T>, k: nat, ms: seq<seq<T>>, m: seq<T>)
    requires k < |p.at|
    ensures m in ExtendAll(p, k, ms) <==> Arises(p, k, ms, m)
  {
    if ms != [] {
      var init, last := ms[..|ms| - 1], ms[|ms| - 1];
      ExtendAllMember(p, k, init, m);
      ExtendMember(p, k, last, m);
      assert forall m0 :: m0 in ms <==> m0 in init || m0 == last;
    }
  }

  // ---------------------------------------------------------------------------
  // Order.
  // ---------------------------------------------------------------------------

  ghost predicate Sized<T>(p: Problem<T>, ms: seq<seq<T>>) {
    forall m | m in ms :: |m| == |p.blank|
  }

  /** No position is filled in twice. */
  ghost predicate Proper<T>(p: Problem<T>) {
    && (forall k | 0 <= k < |p.at| :: p.at[k] < |p.blank|)
    && (forall h, k | 0 <= h < k < |p.at| :: p.at[h] != p.at[k])
  }

  /** `a` and `b` first differ at step `i`, where `a` has an element of lower rank. */
  ghost predicate DifferAt<T(!new)>(p: Problem<T>, rank: (nat, T) -> int, i: nat, a: seq<T>, b: seq<T>)
    requires Proper(p) && i < |p.at| && |a| == |b| == |p.blank|
  {
    && (forall h | 0 <= h < i :: a[p.at[h]] == b[p.at[h]])
    && rank(p.at[i], a[p.at[i]]) < rank(p.at[i], b[p.at[i]])
  }

  /** `a` comes before `b` in the lexicographic order of the first `k` steps. */
  ghost predicate Before<T(!new)>(p: Problem<T>, rank: (nat, T) -> int, k: nat, a: seq<T>, b: seq<T>)
    requires Proper(p) && k <= |p.at| && |a| == |b| == |p.blank|
  {
    exists i: nat {:trigger DifferAt(p, rank, i, a, b)} :: i < k && DifferAt(p, rank, i, a, b)
  }

  ghost predicate InOrder<T(!new)>(p: Problem<T>, rank: (nat, T) -> int, k: nat, ms: seq<seq<T>>)
    requires Proper(p) && k <= |p.at|
  {
    Sized(p, ms) && forall i, j {:trigger Before(p, rank, k, ms[i], ms[j])} | 0 <= i < j < |ms| :: Before(p, rank, k, ms[i], ms[j])
  }

  ghost predicate Rising<T(!new)>(rank: (nat, T) -> int, i: nat, cs: seq<T>) {
    forall s, t {:trigger rank(i, cs[s]), rank(i, cs[t])} | 0 <= s < t < |cs| :: rank(i, cs[s]) < rank(i, cs[t])
  }

  /** The candidates always come in the order of their ranks. */
  ghost predicate Ranked<T(!new)>(p: Problem<T>, rank: (nat, T) -> int) {
    forall k: nat, m {:trigger p.tries(k, m)} | k < |p.at| && |m| == |p.blank| :: Rising(rank, p.at[k], p.tries(k, m))
  }

  lemma BeforeStays<T(!new)>(p: Problem<T>, rank: (nat, T) -> int, k: nat, a: seq<T>, b: seq<T>, x: T, y: T)
    requires Proper(p) && k < |p.at| && |a| == |b| == |p.blank| && Before(p, rank, k, a, b)
    ensures Before(p, rank, k + 1, Put(a, p.at[k], x), Put(b, p.at[k], y))
  {
    var i: nat :| i < k && DifferAt(p, rank, i, a, b);
    assert DifferAt(p, rank, i, Put(a, p.at[k], x), Put(b, p.at[k], y));
  }

  lemma SameBefore<T(!new)>(p: Problem<T>, rank: (nat, T) -> int, k: nat, a: seq<T>, x: T, y: T)
    requires Proper(p) && k < |p.at| && |a| == |p.blank| && rank(p.at[k], x) < rank(p.at[k], y)
    ensures Before(p, rank, k + 1, Put(a, p.at[k], x), Put(a, p.at[k], y))
  {
    assert DifferAt(p, rank, k, Put(a, p.at[k], x), Put(a, p.at[k], y));
  }

  lemma ExtendOrdered<T(!new)>(p: Problem<T>, rank: (nat, T) -> int, k: nat, m: seq<T>)
    requires Proper(p) && k < |p.at| && |m| == |p.blank| && Rising(rank, p.at[k], p.tries(k, m))
    ensures InOrder(p, rank, k + 1, Extend(m, p.at[k], p.tries(k, m)))
  {
    var cs := p.tries(k, m);
    var r := Extend(m, p.at[k], cs);
    forall t | 0 <= t < |r| ensures r[t] == Put(m, p.at[k], cs[t]) { ExtendAt(m, p.at[k], cs, t); }
    forall s, t | 0 <= s < t < |r| ensures Before(p, rank, k + 1, r[s], r[t]) {
      SameBefore(p, rank, k, m, cs[s], cs[t]);
    }
  }

  lemma ContinuesBefore<T(!new)>(p: Problem<T>, rank: (nat, T) -> int, k: nat, a0: seq<T>, b0: seq<T>, a: seq<T>, b: seq<T>)
    requires Proper(p) && k < |p.at| && |a0| == |b0| == |p.blank| && Before(p, rank, k, a0, b0)
    requires Continues(p, k, a0, a) && Continues(p, k, b0, b)
    ensures |a| == |b| == |p.blank| && Before(p, rank, k + 1, a, b)
  {
    var x :| x in p.tries(k, a0) && a == Put(a0, p.at[k], x);
    var y :| y in p.tries(k, b0) && b == Put(b0, p.at[k], y);
    BeforeStays(p, rank, k, a0, b0, x, y);
  }

  lemma Joined<T(!new)>(p: Problem<T>, rank: (nat, T) -> int, k: nat, a: seq<seq<T>>, b: seq<seq<T>>)
    requires Proper(p) && k <= |p.at| && InOrder(p, rank, k, a) && InOrder(p, rank, k, b)
    requires forall x, y {:trigger Before(p, rank, k, x, y)} | x in a && y in b :: Before(p, rank, k, x, y)
    ensures InOrder(p, rank, k, a + b)
  {
    var r := a + b;
    forall i, j | 0 <= i < j < |r| ensures Before(p, rank, k, r[i], r[j]) {
      if j < |a| {
        assert Before(p, rank, k, a[i], a[j]);
      } else if i < |a| {
        assert Before(p, rank, k, a[i], b[j - |a|]);
      } else {
        assert Before(p, rank, k, b[i - |a|], b[j - |a|]);
      }
    }
  }

  lemma InOrderInit<T(!new)>(p: Problem<T>, rank: (nat, T) -> int, k: nat, ms: seq<seq<T>>, last: seq<T>)
    requires Proper(p) && k <= |p.at| && InOrder(p, rank, k, ms + [last])
    ensures InOrder(p, rank, k, ms)
    ensures |last| == |p.blank| && forall m {:trigger Before(p, rank, k, m, last)} | m in ms :: Before(p, rank, k, m, last)
  {
    var r := ms + [last];
    assert last in r;
    forall m | m in ms ensures |m| == |p.blank| { assert m in r; }
    forall i, j | 0 <= i < j < |ms| ensures Before(p, rank, k, ms[i], ms[j]) {
      assert Before(p, rank, k, r[i], r[j]);
    }
    forall m | m in ms ensures Before(p, rank, k, m, last) {
      var i :| 0 <= i < |ms| && ms[i] == m;
      assert Before(p, rank, k, r[i], r[|ms|]);
    }
  }

  lemma {:induction false} ExtendAllOrdered<T(!new)>(p: Problem<T>, rank: (nat, T) -> int, k: nat, ms: seq<seq<T>>)
    requires Proper(p) && Ranked(p, rank) && k < |p.at| && InOrder(p, rank, k, ms)
    ensures InOrder(p, rank, k + 1, ExtendAll(p, k, ms))
  {
    if ms != [] {
      var init, last := ms[..|ms| - 1], ms[|ms| - 1];
      assert ms == init + [last];
      InOrderInit(p, rank, k, init, last);
      ExtendAllOrdered(p, rank, k, init);
      ExtendOrdered(p, rank, k, last);
      var a, b := ExtendAll(p, k, init), Extend(last, p.at[k], p.tries(k, last));
      forall x, y | x in a && y in b ensures Before(p, rank, k + 1, x, y) {
        ExtendAllMember(p, k, init, x);
        ExtendMember(p, k, last, y);
        var x0 :| x0 in init && Continues(p, k, x0, x);
        ContinuesBefore(p, rank, k, x0, last, x, y);
      }
      Joined(p, rank, k + 1, a, b);
    }
  }

  lemma {:induction false} PrefixesOrdered<T(!new)>(p: Problem<T>, rank: (nat, T) -> int, k: nat)
    requires Proper(p) && Ranked(p, rank) && k <= |p.at|
    ensures InOrder(p, rank, k, Prefixes(p, k))
  {
    if k == 0 {
      BlankOrdered(p, rank);
    } else {
      var h: nat := k - 1;
      PrefixesOrdered(p, rank, h);
      ExtendAllOrdered(p, rank, h, Prefixes(p, h));
      PrefixesNext(p, h);
      assert Prefixes(p, k) == ExtendAll(p, h, Prefixes(p, h));
    }
  }

  lemma BlankOrdered<T(!new)>(p: Problem<T>, rank: (nat, T) -> int)
    requires Proper(p)
    ensures InOrder(p, rank, 0, Prefixes(p, 0))
  {
  }

  /** In order, nothing appears twice. */
  lemma OrderedDistinct<T(!new)>(p: Problem<T>, rank: (nat, T) -> int, ms: seq<seq<T>>, i: nat, j: nat)
    requires Proper(p) && InOrder(p, rank, |p.at|, ms) && i < j < |ms|
    ensures ms[i] != ms[j]
  {
    assert Before(p, rank, |p.at|, ms[i], ms[j]);
  }

  // ---------------------------------------------------------------------------
  // Searching for the first result.
  // ---------------------------------------------------------------------------

  lemma ExtendSnoc<T>(m: seq<T>, i: nat, cs: seq<T>)
    requires cs != []
    ensures Extend(m, i, cs) == Extend(m, i, cs[..|cs| - 1]) + [Put(m, i, cs[|cs| - 1])]
  {
  }

  lemma {:induction false} ExtendAppend<T>(m: seq<T>, i: nat, a: seq<T>, b: seq<T>)
    ensures Extend(m, i, a + b) == Extend(m, i, a) + Extend(m, i, b)
  {
    if b == [] {
      assert a + b == a;
    } else {
      var c, r := b[..|b| - 1], a + b;
      ExtendAppend(m, i, a, c);
      assert r[..|r| - 1] == a + c && r[|r| - 1] == b[|b| - 1];
      ExtendSnoc(m, i, r);
      ExtendSnoc(m, i, b);
    }
  }

  lemma {:induction false} ExtendAllAppend<T>(p: Problem<T>, k: nat, a: seq<seq<T>>, b: seq<seq<T>>)
    requires k < |p.at|
    ensures ExtendAll(p, k, a + b) == ExtendAll(p, k, a) + ExtendAll(p, k, b)
  {
    if b == [] {
      assert a + b == a;
    } else {
      var c := b[..|b| - 1];
      ExtendAllAppend(p, k, a, c);
      assert (a + b)[..|a + b| - 1] == a + c;
    }
  }

  lemma {:induction false} GrowAppend<T>(p: Problem<T>, a: seq<seq<T>>, b: seq<seq<T>>, k: nat, n: nat)
    requires k <= n <= |p.at|
    ensures Grow(p, a + b, k, n) == Grow(p, a, k, n) + Grow(p, b, k, n)
  {
    if k < n {
      GrowAppend(p, a, b, k, n - 1);
      ExtendAllAppend(p, n - 1, Grow(p, a, k, n - 1), Grow(p, b, k, n - 1));
    }
  }

  lemma {:induction false} GrowFirst<T>(p: Problem<T>, ms: seq<seq<T>>, k: nat, n: nat)
    requires k < n <= |p.at|
    ensures Grow(p, ms, k, n) == Grow(p, ExtendAll(p, k, ms), k + 1, n)
  {
    if k + 1 < n { GrowFirst(p, ms, k, n - 1); }
  }

  lemma {:induction false} GrowNothing<T>(p: Problem<T>, k: nat, n: nat)
    requires k <= n <= |p.at|
    ensures Grow<T>(p, [], k, n) == []
  {
    if k < n { GrowNothing(p, k, n - 1); }
  }

  /** The results that the whole run makes of `m`, filled in by the first `k` steps. */
  function Results<T>(p: Problem<T>, k: nat, m: seq<T>): seq<seq<T>>
    requires k <= |p.at|
  {
    Grow(p, [m], k, |p.at|)
  }

  /** The results for the candidates `cs` of step `k`. */
  function ResultsFor<T>(p: Problem<T>, k: nat, m: seq<T>, cs: seq<T>): seq<seq<T>>
    requires k < |p.at|
  {
    Grow(p, Extend(m, p.at[k], cs), k + 1, |p.at|)
  }

  lemma ResultsByCandidates<T>(p: Problem<T>, k: nat, m: seq<T>)
    requires k < |p.at|
    ensures Results(p, k, m) == ResultsFor(p, k, m, p.tries(k, m))
  {
    GrowFirst(p, [m], k, |p.at|);
    var e: seq<seq<T>> := [];
    assert [m][..0] == e && ExtendAll(p, k, e) == e;
    assert ExtendAll(p, k, [m]) == e + Extend(m, p.at[k], p.tries(k, m)) == Extend(m, p.at[k], p.tries(k, m));
  }

  lemma ResultsForNone<T>(p: Problem<T>, k: nat, m: seq<T>)
    requires k < |p.at|
    ensures ResultsFor(p, k, m, []) == []
  {
    assert Extend(m, p.at[k], []) == [];
    GrowNothing(p, k + 1, |p.at|);
  }

  lemma ResultsForAppend<T>(p: Problem<T>, k: nat, m: seq<T>, a: seq<T>, b: seq<T>)
    requires k < |p.at|
    ensures ResultsFor(p, k, m, a + b) == ResultsFor(p, k, m, a) + ResultsFor(p, k, m, b)
  {
    ExtendAppend(m, p.at[k], a, b);
    GrowAppend(p, Extend(m, p.at[k], a), Extend(m, p.at[k], b), k + 1, |p.at|);
  }

  lemma ResultsForOne<T>(p: Problem<T>, k: nat, m: seq<T>, c: T)
    requires k < |p.at|
    ensures ResultsFor(p, k, m, [c]) == Results(p, k + 1, Put(m, p.at[k], c))
  {
    assert [c][..0] == [];
    assert Extend(m, p.at[k], [c]) == [Put(m, p.at[k], c)];
  }

  // ---------------------------------------------------------------------------
  // Going from one prefix to the next.
  // ---------------------------------------------------------------------------

  /** The number of continuations of the first `i` of `ms`. */
  function Offset<T>(p: Problem<T>, k: nat, ms: seq<seq<T>>, i: nat): nat
    requires k < |p.at| && i <= |ms|
  {
    |ExtendAll(p, k, ms[..i])|
  }

  lemma OffsetNext<T>(p: Problem<T>, k: nat, ms: seq<seq<T>>, i: nat)
    requires k < |p.at| && i < |ms|
    ensures Offset(p, k, ms, i + 1) == Offset(p, k, ms, i) + |p.tries(k, ms[i])|
    ensures Offset(p, k, ms, i + 1) <= |ExtendAll(p, k, ms)|
    ensures i + 1 == |ms| ==> Offset(p, k, ms, i + 1) == |ExtendAll(p, k, ms)|
  {
    assert ms[..i + 1][..i] == ms[..i];
    assert ms == ms[..i + 1] + ms[i + 1..];
    ExtendAllAppend(p, k, ms[..i + 1], ms[i + 1..]);
    assert i + 1 == |ms| ==> ms[..i + 1] == ms;
  }

  /** The candidate number `t` for `ms[i]` leads to the continuation at its offset. */
  lemma OffsetAt<T>(p: Problem<T>, k: nat, ms: seq<seq<T>>, i: nat, t: nat)
    requires k < |p.at| && i < |ms| && t < |p.tries(k, ms[i])|
    ensures Offset(p, k, ms, i) + t < |ExtendAll(p, k, ms)|
    ensures ExtendAll(p, k, ms)[Offset(p, k, ms, i) + t] == Put(ms[i], p.at[k], p.tries(k, ms[i])[t])
  {
    OffsetNext(p, k, ms, i);
    ExtendAt(ms[i], p.at[k], p.tries(k, ms[i]), t);
    assert ms == ms[..i + 1] + ms[i + 1..];
    ExtendAllAppend(p, k, ms[..i + 1], ms[i + 1..]);
    assert ms[..i + 1][..i] == ms[..i];
  }

  /** Where the continuation number `j` comes from. */
  lemma {:induction false} Locate<T>(p: Problem<T>, k: nat, ms: seq<seq<T>>, j: nat) returns (i: nat, t: nat)
    requires k < |p.at| && j < |ExtendAll(p, k, ms)|
    ensures i < |ms| && t < |p.tries(k, ms[i])| && j == Offset(p, k, ms, i) + t
    ensures ExtendAll(p, k, ms)[j] == Put(ms[i], p.at[k], p.tries(k, ms[i])[t])
  {
    var init := ms[..|ms| - 1];
    if j < |ExtendAll(p, k, init)| {
      i, t := Locate(p, k, init, j);
      assert init[..i] == ms[..i];
    } else {
      i, t := |ms| - 1, j - |ExtendAll(p, k, init)|;
    }
    OffsetAt(p, k, ms, i, t);
  }
}
