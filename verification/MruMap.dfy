// The bounded cache TypedMRUMap: a map with a use stamp for each key, which drops
// the keys that were used longest ago.
module MruMap {
  import opened Options

  const NUMBER_CLEAR_AT_ONCE := 10

  function Min(a: nat, b: nat): nat { if a < b then a else b }

  /** `old` are the `n` keys with the smallest stamps, or all if there are fewer. */
  ghost predicate IsOldest<K(!new)>(stamps: map<K, nat>, n: nat, old': set<K>) {
    && old' <= stamps.Keys
    && |old'| == Min(n, |stamps|)
    && forall k, j | k in old' && j in stamps && j !in old' :: stamps[k] < stamps[j]
  }

  /** `m`, with `key` mapped to `value` if it was not mapped before. */
  function WithDefault<K, V>(m: map<K, V>, key: K, value: V): map<K, V> {
    if key in m then m else m[key := value]
  }

  /** There is only one choice of the oldest keys. */
  lemma OldestUnique<K(!new)>(stamps: map<K, nat>, n: nat, s: set<K>, t: set<K>)
    requires IsOldest(stamps, n, s) && IsOldest(stamps, n, t)
    ensures s == t
  {
    if k :| k in s && k !in t {
      SameSizeOther(s, t, k);
    }
    if k :| k in t && k !in s {
      SameSizeOther(t, s, k);
    }
  }

  /** Of two sets of the same size, neither lies properly inside the other. */
  lemma SameSizeOther<K>(s: set<K>, t: set<K>, k: K)
    requires |s| == |t| && k in s && k !in t
    ensures exists j :: j in t && j !in s
  {
    if t <= s {
      SubsetSize(t, s - {k});
    }
  }

  lemma {:induction false} SubsetSize<K>(s: set<K>, t: set<K>)
    requires s <= t
    ensures |s| <= |t|
  {
    if k :| k in s { SubsetSize(s - {k}, t - {k}); }
  }

  /** The newest key is among the oldest ones exactly if all are. */
  lemma NewestEvicted<K(!new)>(stamps: map<K, nat>, n: nat, s: set<K>, key: K)
    requires IsOldest(stamps, n, s) && key in stamps
    requires forall k | k in stamps && k != key :: stamps[k] < stamps[key]
    ensures key in s <==> |stamps| <= n
  {
    assert |stamps.Keys| == |stamps|;
    if key in s {
      assert stamps.Keys <= s;
      assert stamps.Keys == s;
    } else {
      SubsetSize(s, stamps.Keys - {key});
    }
  }

  // ---------------------------------------------------------------------------
  // Which keys a cache holds depends only on the order of the accesses to it.
  // ---------------------------------------------------------------------------

  /** The use stamps, the last stamp given out, the count of insertions, and the bound on it. */
  datatype Uses<K> = Uses(stamps: map<K, nat>, time: nat, size: nat, bound: nat)

  ghost predicate Stamped<K(!new)>(c: Uses<K>) {
    && (forall k | k in c.stamps :: c.stamps[k] <= c.time)
    && Distinct(c.stamps)
  }

  ghost predicate Distinct<K(!new)>(stamps: map<K, nat>) {
    forall k, j | k in stamps && j in stamps && stamps[k] == stamps[j] :: k == j
  }

  /** The keys with a smaller stamp than `k`. */
  ghost function Older<K(!new)>(stamps: map<K, nat>, k: K): set<K>
    requires k in stamps
  {
    set j | j in stamps && stamps[j] < stamps[k]
  }

  /** The keys that have fewer than `n` older ones. */
  ghost function Oldest<K(!new)>(stamps: map<K, nat>, n: nat): set<K> {
    set k | k in stamps && |Older(stamps, k)| < n
  }

  lemma OldestIs<K(!new)>(stamps: map<K, nat>, n: nat, s: set<K>)
    requires IsOldest(stamps, n, s)
    ensures s == Oldest(stamps, n)
  {
    assert |stamps| == |stamps.Keys|;
    forall k | k in stamps ensures k in s <==> |Older(stamps, k)| < n {
      if k in s {
        assert Older(stamps, k) <= s - {k};
        SubsetSize(Older(stamps, k), s - {k});
      } else {
        assert s <= Older(stamps, k);
        SubsetSize(s, Older(stamps, k));
        SameOrLarger(s, stamps.Keys, k);
      }
    }
  }

  lemma SameOrLarger<K>(s: set<K>, t: set<K>, k: K)
    requires s <= t && k in t && k !in s
    ensures |s| < |t|
  {
    SubsetSize(s, t - {k});
  }

  /** With distinct stamps there are as many oldest keys as asked for. */
  lemma {:induction false} OldestCount<K(!new)>(stamps: map<K, nat>, n: nat)
    requires Distinct(stamps)
    ensures |Oldest(stamps, n)| == Min(n, |stamps|)
    decreases |stamps|
  {
    assert |stamps| == |stamps.Keys|;
    if |stamps| <= n {
      forall k | k in stamps ensures |Older(stamps, k)| < |stamps| {
        SameOrLarger(Older(stamps, k), stamps.Keys, k);
      }
      assert Oldest(stamps, n) == stamps.Keys;
    } else {
      var m := Newest(stamps);
      var less := stamps - {m};
      assert less.Keys == stamps.Keys - {m} && |less| == |less.Keys|;
      assert Older(stamps, m) == stamps.Keys - {m};
      forall k | k in less ensures Older(less, k) == Older(stamps, k) {}
      assert Oldest(stamps, n) == Oldest(less, n);
      OldestCount(less, n);
    }
  }

  lemma {:induction false} Newest<K(!new)>(stamps: map<K, nat>) returns (m: K)
    requires stamps != map[]
    requires Distinct(stamps)
    ensures m in stamps && forall k | k in stamps && k != m :: stamps[k] < stamps[m]
    decreases |stamps|
  {
    m :| m in stamps;
    var less := stamps - {m};
    assert less.Keys == stamps.Keys - {m} && |less| == |less.Keys| && |stamps| == |stamps.Keys|;
    if less == map[] {
      assert stamps.Keys - {m} == {};
    } else {
      var m' := Newest(less);
      assert forall k | k in stamps && k != m :: k in less && less[k] == stamps[k];
      if stamps[m] < stamps[m'] { m := m'; }
    }
  }

  function Found<K>(c: Uses<K>, key: K): Uses<K> {
    if key in c.stamps then c.(stamps := c.stamps[key := c.time + 1], time := c.time + 1) else c
  }

  /** What an assignment to the indexed entry evicts. */
  ghost function Evicted<K(!new)>(c: Uses<K>, key: K): set<K> {
    if key in c.stamps || c.size + 1 <= c.bound then {}
    else Oldest(c.stamps[key := c.time + 1], NUMBER_CLEAR_AT_ONCE)
  }

  ghost function Assigned<K(!new)>(c: Uses<K>, key: K): Uses<K> {
    if key in c.stamps then c
    else Uses(c.stamps[key := c.time + 1] - Evicted(c, key), c.time + 1, c.size + 1, c.bound)
  }

  /** Whether a reference obtained for `key` by indexing still denotes an entry:
      it does not if the pass that makes room removes the new entry itself. */
  predicate Assignable<K>(c: Uses<K>, key: K) {
    key in c.stamps || c.size + 1 <= c.bound || |c.stamps| >= NUMBER_CLEAR_AT_ONCE
  }

  lemma EvictedIs<K(!new)>(c: Uses<K>, key: K, s: set<K>)
    requires key !in c.stamps
    requires if c.size + 1 <= c.bound then s == {} else IsOldest(c.stamps[key := c.time + 1], NUMBER_CLEAR_AT_ONCE, s)
    ensures s == Evicted(c, key)
  {
    if c.size + 1 > c.bound { OldestIs(c.stamps[key := c.time + 1], NUMBER_CLEAR_AT_ONCE, s); }
  }

  lemma InsertIsAssigned<K(!new)>(c: Uses<K>, key: K, stamps: map<K, nat>, s: set<K>, c': Uses<K>)
    requires key !in c.stamps && stamps == c.stamps[key := c.time + 1]
    requires c' == Uses(stamps - s, c.time + 1, c.size + 1, c.bound)
    requires if c.size + 1 <= c.bound then s == {} else IsOldest(stamps, NUMBER_CLEAR_AT_ONCE, s)
    ensures s == Evicted(c, key) && c' == Assigned(c, key)
  {
    EvictedIs(c, key, s);
  }

  lemma AssignableStays<K(!new)>(c: Uses<K>, key: K)
    requires Stamped(c)
    ensures Assignable(c, key) <==> key !in Evicted(c, key)
  {
    if key !in c.stamps {
      var stamps := c.stamps[key := c.time + 1];
      assert stamps.Keys == c.stamps.Keys + {key} && |stamps| == |stamps.Keys| && |c.stamps| == |c.stamps.Keys|;
      assert Older(stamps, key) == c.stamps.Keys;
    }
  }

  lemma FreshStamp<K(!new)>(c: Uses<K>, key: K)
    requires Stamped(c) && key !in c.stamps
    ensures var stamps := c.stamps[key := c.time + 1];
      Distinct(stamps) && |stamps| == |c.stamps| + 1 && Stamped(Uses(stamps, c.time + 1, c.size + 1, c.bound))
  {
    var stamps := c.stamps[key := c.time + 1];
    assert stamps.Keys == c.stamps.Keys + {key} && |stamps| == |stamps.Keys| && |c.stamps| == |c.stamps.Keys|;
  }

  lemma FewerStamps<K(!new)>(stamps: map<K, nat>, evicted: set<K>)
    requires evicted <= stamps.Keys
    ensures |stamps - evicted| == |stamps| - |evicted|
  {
    assert |stamps| == |stamps.Keys| && (stamps - evicted).Keys == stamps.Keys - evicted;
    assert |stamps - evicted| == |(stamps - evicted).Keys|;
    DifferenceSize(stamps.Keys, evicted);
  }

  lemma AssignedStamped<K(!new)>(c: Uses<K>, key: K)
    requires Stamped(c)
    ensures Stamped(Found(c, key)) && Stamped(Assigned(c, key))
  {
    if key !in c.stamps { FreshStamp(c, key); }
  }

  /** Past its bound, a cache loses nine of its keys with each new key. */
  lemma OverflowShrinks<K(!new)>(c: Uses<K>, key: K)
    requires Stamped(c) && key !in c.stamps && c.size + 1 > c.bound && Assignable(c, key)
    ensures |Assigned(c, key).stamps| == |c.stamps| - 9
  {
    var evicted := EvictedCount(c, key);
    FreshStamp(c, key);
    FewerStamps(c.stamps[key := c.time + 1], evicted);
  }

  lemma SizeAssigned<K(!new)>(c: Uses<K>, key: K)
    requires Stamped(c) && key !in c.stamps && Assignable(c, key)
    ensures |Assigned(c, key).stamps| == if c.size + 1 <= c.bound then |c.stamps| + 1 else |c.stamps| - 9
  {
    if c.size + 1 <= c.bound { FreshStamp(c, key); } else { OverflowShrinks(c, key); }
  }

  lemma SameKeysSize<K, V, W>(m: map<K, V>, l: map<K, W>)
    requires m.Keys == l.Keys
    ensures |m| == |l|
  {
    assert |m| == |m.Keys| && |l| == |l.Keys|;
  }

  lemma KeysLeft<K, V, W>(m: map<K, V>, l: map<K, W>, key: K, v: V, w: W, e: set<K>)
    requires m.Keys == l.Keys && key !in e
    ensures (m[key := v] - e).Keys == (l[key := w] - e).Keys
    ensures key in l[key := w] - e && (l[key := w] - e)[key] == w
    ensures forall k | k in m[key := v] - e && k != key :: k in m && (l[key := w] - e)[k] == l[k]
  {
  }

  /** The entries and stamps after an assignment to a new key. */
  lemma NewEntry<K(!new), V>(c: Uses<K>, key: K, m: map<K, V>, value: V, m': map<K, V>)
    requires Stamped(c) && key !in c.stamps && Assignable(c, key) && m.Keys == c.stamps.Keys
    requires m' == m[key := value] - Evicted(c, key)
    ensures var l := Assigned(c, key).stamps;
      && l.Keys == m'.Keys && key in m' && l[key] == c.time + 1
      && (forall k | k in m' && k != key :: k in m && l[k] == c.stamps[k])
    ensures |m'| == if c.size + 1 <= c.bound then |m| + 1 else |m| - 9
  {
    var e := Evicted(c, key);
    AssignableStays(c, key);
    KeysLeft(m, c.stamps, key, value, c.time + 1, e);
    assert Assigned(c, key).stamps == c.stamps[key := c.time + 1] - e;
    NewSize(c, key, m, m');
  }

  lemma NewSize<K(!new), V>(c: Uses<K>, key: K, m: map<K, V>, m': map<K, V>)
    requires Stamped(c) && key !in c.stamps && Assignable(c, key)
    requires m.Keys == c.stamps.Keys && m'.Keys == Assigned(c, key).stamps.Keys
    ensures |m'| == if c.size + 1 <= c.bound then |m| + 1 else |m| - 9
  {
    SizeAssigned(c, key);
    SameKeysSize(m, c.stamps);
    SameKeysSize(m', Assigned(c, key).stamps);
  }

  lemma EvictedCount<K(!new)>(c: Uses<K>, key: K) returns (evicted: set<K>)
    requires Stamped(c) && key !in c.stamps && c.size + 1 > c.bound
    ensures evicted == Evicted(c, key) && evicted <= c.stamps.Keys + {key}
    ensures |evicted| == Min(10, |c.stamps| + 1)
  {
    var stamps := c.stamps[key := c.time + 1];
    FreshStamp(c, key);
    OldestCount(stamps, NUMBER_CLEAR_AT_ONCE);
    evicted := Oldest(stamps, NUMBER_CLEAR_AT_ONCE);
    assert evicted <= stamps.Keys;
  }

  class TypedMRUMap<K(==, !new), V(==)> {
    const maxObjectSize: nat
    var map_: map<K, V>
    var lastUsedTime: map<K, nat>
    var lastUsedTimeRev: map<nat, K>
    var timestamp: nat
    var objectSize: nat
    // What an unbounded map would hold after the same writes.
    ghost var unbounded: map<K, V>

    ghost predicate Valid()
      reads this
    {
      && Consistent()
      && |map_| <= objectSize && |map_| <= maxObjectSize
      && Retained(map_, unbounded)
    }

    /** The three maps have the same keys, and the two stamp maps are inverse. */
    ghost predicate Consistent()
      reads this
    {
      && map_.Keys == lastUsedTime.Keys
      && (forall k | k in lastUsedTime ::
            lastUsedTime[k] <= timestamp && lastUsedTime[k] in lastUsedTimeRev && lastUsedTimeRev[lastUsedTime[k]] == k)
      && (forall t | t in lastUsedTimeRev ::
            lastUsedTimeRev[t] in lastUsedTime && lastUsedTime[lastUsedTimeRev[t]] == t)
    }

    ghost function Usage(): Uses<K>
      reads this
    {
      Uses(lastUsedTime, timestamp, objectSize, maxObjectSize)
    }

    constructor (maxObjectSize: nat)
      ensures Valid() && this.maxObjectSize == maxObjectSize && map_ == map[] && objectSize == 0
      ensures Usage() == Uses(map[], 0, 0, maxObjectSize)
    {
      this.maxObjectSize := maxObjectSize;
      map_, lastUsedTime, lastUsedTimeRev, timestamp, objectSize := map[], map[], map[], 0, 0;
      unbounded := map[];
    }

    /** The smallest stamp in use. */
    method FirstStamp() returns (first: nat)
      requires lastUsedTimeRev != map[]
      ensures first in lastUsedTimeRev && forall t | t in lastUsedTimeRev :: first <= t
    {
      first :| first in lastUsedTimeRev;
      var todo := lastUsedTimeRev.Keys;
      while todo != {}
        invariant todo <= lastUsedTimeRev.Keys && first in lastUsedTimeRev
        invariant forall t | t in lastUsedTimeRev && t !in todo :: first <= t
        decreases todo
      {
        var t :| t in todo;
        todo := todo - {t};
        if t < first { first := t; }
      }
    }

    /** Removes the entry with the smallest stamp. */
    method DropFirst() returns (ghost key: K)
      requires Consistent() && lastUsedTimeRev != map[]
      modifies this`map_, this`lastUsedTime, this`lastUsedTimeRev
      ensures Consistent() && key in old(lastUsedTime)
      ensures map_ == old(map_) - {key} && lastUsedTime == old(lastUsedTime) - {key}
      ensures forall j | j in lastUsedTime :: old(lastUsedTime)[key] < lastUsedTime[j]
    {
      var t := FirstStamp();
      var k := lastUsedTimeRev[t];
      map_ := map_ - {k};
      lastUsedTime := lastUsedTime - {k};
      lastUsedTimeRev := lastUsedTimeRev - {t};
      key := k;
    }

    /** Removes the keys that were used longest ago, ten at most. */
    method ClearNotUsedCache() returns (ghost evicted: set<K>)
      requires Consistent()
      modifies this`map_, this`lastUsedTime, this`lastUsedTimeRev
      ensures Consistent() && IsOldest(old(lastUsedTime), NUMBER_CLEAR_AT_ONCE, evicted)
      ensures map_ == old(map_) - evicted && lastUsedTime == old(lastUsedTime) - evicted
      ensures |evicted| == Min(10, |old(lastUsedTime)|)
    {
      ghost var m0, l0 := map_, lastUsedTime;
      var count := 0;
      evicted := {};
      while lastUsedTimeRev != map[]
        invariant Consistent() && |evicted| == count <= NUMBER_CLEAR_AT_ONCE
        invariant EvictedSoFar(m0, l0, evicted, map_, lastUsedTime)
        decreases NUMBER_CLEAR_AT_ONCE + 1 - count
      {
        if count + 1 > NUMBER_CLEAR_AT_ONCE { break; }
        count := count + 1;
        ghost var m, l := map_, lastUsedTime;
        ghost var key := DropFirst();
        EvictOne(m0, l0, evicted, m, l, key, map_, lastUsedTime);
        evicted := evicted + {key};
      }
      Remaining(l0, lastUsedTime, evicted);
    }

    /** Cleans up if the cache has overflowed. */
    method Trim() returns (ghost evicted: set<K>)
      requires Consistent() && Retained(map_, unbounded)
      requires |map_| <= objectSize && |map_| <= maxObjectSize + 1
      modifies this`map_, this`lastUsedTime, this`lastUsedTimeRev
      ensures Valid()
      ensures map_ == old(map_) - evicted && lastUsedTime == old(lastUsedTime) - evicted
      ensures if objectSize <= maxObjectSize then evicted == {}
              else IsOldest(old(lastUsedTime), NUMBER_CLEAR_AT_ONCE, evicted)
    {
      evicted := {};
      if objectSize > maxObjectSize {
        evicted := ClearNotUsedCache();
        SizeAfter(old(map_), old(lastUsedTime), evicted);
      }
    }

    /** Inserts a pair unless the key is present; a full cache is then cleaned up.
        `evicted` are the keys this removes. */
    method Insert(key: K, value: V) returns (inserted: bool, ghost evicted: set<K>)
      requires Valid()
      modifies this
      ensures Valid()
      ensures inserted == (key !in old(map_))
      ensures timestamp == old(timestamp) + 1 && objectSize == old(objectSize) + 1
      ensures map_ == WithDefault(old(map_), key, value) - evicted
      ensures lastUsedTime == WithDefault(old(lastUsedTime), key, timestamp) - evicted
      ensures unbounded == if inserted then old(unbounded)[key := value] else old(unbounded)
      ensures if objectSize <= maxObjectSize then evicted == {}
              else IsOldest(WithDefault(old(lastUsedTime), key, timestamp), NUMBER_CLEAR_AT_ONCE, evicted)
      ensures inserted ==> (key in map_ <==> objectSize <= maxObjectSize || |old(map_)| >= 10)
    {
      inserted := Admit(key, value);
      ghost var m, stamps := map_, lastUsedTime;
      evicted := Trim();
      if inserted && objectSize > maxObjectSize {
        assert |m| == |m.Keys| == |stamps.Keys| == |stamps|;
        NewestEvicted(stamps, NUMBER_CLEAR_AT_ONCE, evicted, key);
      }
    }

    /** An insertion up to the point where the cache may have overflowed. */
    method Admit(key: K, value: V) returns (inserted: bool)
      requires Valid()
      modifies this
      ensures Consistent() && Retained(map_, unbounded)
      ensures inserted == (key !in old(map_)) && |map_| == |old(map_)| + if inserted then 1 else 0
      ensures timestamp == old(timestamp) + 1 && objectSize == old(objectSize) + 1
      ensures map_ == WithDefault(old(map_), key, value)
      ensures lastUsedTime == WithDefault(old(lastUsedTime), key, timestamp)
      ensures unbounded == if inserted then old(unbounded)[key := value] else old(unbounded)
      ensures inserted ==> forall k | k in lastUsedTime && k != key :: lastUsedTime[k] < timestamp
    {
      inserted := key !in map_;
      if inserted {
        AddFresh(key, value);
      } else {
        timestamp := timestamp + 1;
      }
      objectSize := objectSize + 1;
    }

    /** The bookkeeping for a key that was absent. */
    method AddFresh(key: K, value: V)
      requires Consistent() && key !in map_
      modifies this`map_, this`lastUsedTime, this`lastUsedTimeRev, this`timestamp, this`unbounded
      ensures Consistent() && timestamp == old(timestamp) + 1
      ensures map_ == old(map_)[key := value] && lastUsedTime == old(lastUsedTime)[key := timestamp]
      ensures unbounded == old(unbounded)[key := value]
      ensures |map_| == |old(map_)| + 1
      ensures forall k | k in lastUsedTime && k != key :: lastUsedTime[k] < timestamp
    {
      timestamp := timestamp + 1;
      map_ := map_[key := value];
      unbounded := unbounded[key := value];
      lastUsedTimeRev := lastUsedTimeRev[timestamp := key];
      lastUsedTime := lastUsedTime[key := timestamp];
    }

    /** Looks a key up; a hit makes it the most recently used one. */
    method Find(key: K) returns (r: Option<V>)
      requires Valid()
      modifies this`lastUsedTime, this`lastUsedTimeRev, this`timestamp
      ensures Valid()
      ensures r == if key in map_ then Some(map_[key]) else None
      ensures key !in map_ ==> lastUsedTime == old(lastUsedTime) && timestamp == old(timestamp)
      ensures key in map_ ==> timestamp == old(timestamp) + 1 && lastUsedTime == old(lastUsedTime)[key := timestamp]
      ensures Usage() == Found(old(Usage()), key)
    {
      if key in map_ {
        var ts := lastUsedTime[key];
        timestamp := timestamp + 1;
        lastUsedTime := lastUsedTime[key := timestamp];
        lastUsedTimeRev := (lastUsedTimeRev - {ts})[timestamp := key];
        r := Some(map_[key]);
      } else {
        r := None;
      }
    }

    /** Assignment to the indexed entry.  Unlike a lookup it leaves the stamp of an
        entry that was present alone. */
    method Assign(key: K, value: V)
      requires Valid() && Assignable(Usage(), key)
      modifies this
      ensures Valid()
      ensures Usage() == Assigned(old(Usage()), key)
      ensures map_ == old(map_)[key := value] - Evicted(old(Usage()), key)
      ensures key in map_ && map_[key] == value
      ensures unbounded == old(unbounded)[key := value]
      ensures key in old(map_) ==> lastUsedTime == old(lastUsedTime) && timestamp == old(timestamp) && objectSize == old(objectSize)
      ensures key !in old(map_) ==>
        && lastUsedTime.Keys == map_.Keys && lastUsedTime[key] == timestamp == old(timestamp) + 1
        && objectSize == old(objectSize) + 1
        && (forall k | k in map_ && k != key :: k in old(map_) && lastUsedTime[k] == old(lastUsedTime)[k])
        && |map_| == if objectSize <= maxObjectSize then |old(map_)| + 1 else |old(map_)| - 9
    {
      if key !in map_ {
        ghost var c, m := Usage(), map_;
        UsageStamped();
        AssignFresh(key, value);
        NewEntry(c, key, m, value, map_);
      } else {
        map_ := map_[key := value];
        unbounded := unbounded[key := value];
      }
    }

    /** The insertion that an assignment to an absent key begins with. */
    method AssignFresh(key: K, value: V)
      requires Valid() && Assignable(Usage(), key) && key !in map_
      modifies this
      ensures Valid() && Usage() == Assigned(old(Usage()), key)
      ensures map_ == old(map_)[key := value] - Evicted(old(Usage()), key)
      ensures key in map_ && map_[key] == value
      ensures unbounded == old(unbounded)[key := value]
    {
      ghost var c := Usage();
      assert key !in Evicted(c, key) by {
        UsageStamped();
        AssignableStays(c, key);
      }
      var inserted;
      ghost var evicted;
      inserted, evicted := Insert(key, value);
      InsertIsAssigned(c, key, WithDefault(c.stamps, key, timestamp), evicted, Usage());
    }

    lemma UsageStamped()
      requires Consistent()
      ensures Stamped(Usage())
    {
    }
  }

  /** The entries agree with the unbounded map. */
  ghost predicate Retained<K(!new), V>(m: map<K, V>, unbounded: map<K, V>) {
    forall k | k in m :: k in unbounded && unbounded[k] == m[k]
  }

  /** While a clean-up is under way: what is left is younger than what is gone. */
  ghost predicate EvictedSoFar<K(!new), V>(m0: map<K, V>, l0: map<K, nat>, evicted: set<K>, m: map<K, V>, l: map<K, nat>) {
    && evicted <= l0.Keys && m == m0 - evicted && l == l0 - evicted
    && forall k, j | k in evicted && j in l :: l0[k] < l[j]
  }

  lemma EvictOne<K(!new), V>(m0: map<K, V>, l0: map<K, nat>, evicted: set<K>, m: map<K, V>, l: map<K, nat>,
                             key: K, m': map<K, V>, l': map<K, nat>)
    requires EvictedSoFar(m0, l0, evicted, m, l) && key in l
    requires m' == m - {key} && l' == l - {key}
    requires forall j | j in l' :: l[key] < l'[j]
    ensures EvictedSoFar(m0, l0, evicted + {key}, m', l') && key !in evicted
  {
  }

  lemma SizeAfter<K(!new), V>(stored: map<K, V>, stamps: map<K, nat>, evicted: set<K>)
    requires stored.Keys == stamps.Keys && IsOldest(stamps, NUMBER_CLEAR_AT_ONCE, evicted)
    ensures |stored| == |stamps| && |stored - evicted| == |stored| - |evicted|
    ensures 0 < |stored| ==> 0 < |evicted|
  {
    assert |stored| == |stored.Keys| && |stamps| == |stamps.Keys|;
    assert (stored - evicted).Keys == stored.Keys - evicted;
    assert |stored - evicted| == |(stored - evicted).Keys|;
    DifferenceSize(stored.Keys, evicted);
  }

  lemma DifferenceSize<K>(s: set<K>, t: set<K>)
    requires t <= s
    ensures |s - t| == |s| - |t|
  {
    assert s == (s - t) + t;
  }

  lemma Remaining<K(!new)>(stamps: map<K, nat>, stamps': map<K, nat>, evicted: set<K>)
    requires stamps' == stamps - evicted && evicted <= stamps.Keys && |evicted| <= NUMBER_CLEAR_AT_ONCE
    requires |evicted| == NUMBER_CLEAR_AT_ONCE || stamps' == map[]
    requires forall k, j | k in evicted && j in stamps' :: stamps[k] < stamps'[j]
    ensures IsOldest(stamps, NUMBER_CLEAR_AT_ONCE, evicted)
  {
    assert forall j | j in stamps && j !in evicted :: j in stamps';
    assert |stamps| == |stamps.Keys|;
    SubsetSize(evicted, stamps.Keys);
    if stamps' == map[] {
      assert forall k | k in stamps.Keys :: k !in stamps';
      assert stamps.Keys <= evicted;
      assert evicted == stamps.Keys;
    }
  }
}
