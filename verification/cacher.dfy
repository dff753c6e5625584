/** The cache engine of `cacher.go` as a sequential state machine. Every public
    operation is one atomic step from a state to a new state (the Go code holds
    the mutex for its duration); the wall clock is the parameter `now`.

    Operations whose outcome depends on Go's map iteration order (LFU tie
    breaking, RANDOM eviction, the order of `Keys`/`GetAll`, the order of the
    sweep) are methods that choose with `:|`; their postconditions hold for
    every choice. Everything else is a function. */
module Cacher {
  import opened Common
  import opened Recency
  import opened Entries

  const LRU: int := 0
  const MRU: int := 1
  const LFU: int := 2
  const RANDOM: int := 3

  const DefaultClearingInterval: int := 100 * Second

  datatype Config = Config(capacity: int, clearingInterval: int, evictionPolicy: int)

  /** `Cacher`: the entry table, the recency list (front = index 0), and the
      configuration. `capacity <= 0` means unbounded. */
  datatype Cache<K, V> = Cache(
    entries: map<K, Entry<V>>,
    keys: seq<K>,
    capacity: int,
    clearingInterval: int,
    evictionPolicy: int)

  /** The failures the Go code reports: "cache not found for key", "TTL
      expired", "no keys found", "capacity cannot be negative", "invalid
      eviction policy". */
  datatype Error = NotFound | TtlExpired | NoKeys | NegativeCapacity | InvalidPolicy

  datatype Result<+T> = Ok(value: T) | Err(error: Error)

  /** The state after an operation together with what it returned. */
  datatype Reply<K, V, +T> = Reply(cache: Cache<K, V>, result: Result<T>)

  // ---------------------------------------------------------------------------
  // State predicates

  /** The representation invariant the design intends: the list holds each
      key of the table exactly once and nothing else. */
  ghost predicate Inv<K, V>(c: Cache<K, V>) {
    && NoDup(c.keys)
    && (forall k :: k in c.keys ==> k in c.entries)
    && (forall k :: k in c.entries ==> k in c.keys)
  }

  /** The weaker invariant the code as written does keep: every key of the
      table has a node in the list (stale nodes may exist besides). */
  ghost predicate Covered<K, V>(c: Cache<K, V>) {
    forall k :: k in c.entries ==> k in c.keys
  }

  /** Every access counter is at least 1 (it starts at 1 and only grows). */
  ghost predicate CountersPositive<K, V>(c: Cache<K, V>) {
    forall k :: k in c.entries ==> c.entries[k].counter >= 1
  }

  ghost predicate SameConfig<K, V>(c: Cache<K, V>, d: Cache<K, V>) {
    && c.capacity == d.capacity
    && c.clearingInterval == d.clearingInterval
    && c.evictionPolicy == d.evictionPolicy
  }

  predicate ValidPolicy(p: int) {
    LRU <= p <= RANDOM
  }

  /** The test `Set` makes before inserting. */
  predicate AtCapacity<K, V>(c: Cache<K, V>) {
    c.capacity > 0 && |c.entries| >= c.capacity
  }

  // ---------------------------------------------------------------------------
  // Construction

  /** `New`: an empty cache; a zero clearing interval becomes 100 seconds. The
      policy and capacity are taken as given, without validation. */
  function New<K, V>(cfg: Config): (c: Cache<K, V>)
    ensures |c.entries| == 0 && |c.keys| == 0
    ensures Inv(c) && CountersPositive(c)
    ensures c.capacity == cfg.capacity && c.evictionPolicy == cfg.evictionPolicy
    ensures cfg.clearingInterval != 0 ==> c.clearingInterval == cfg.clearingInterval
    ensures cfg.clearingInterval == 0 ==> c.clearingInterval == 100 * Second
  {
    var interval := if cfg.clearingInterval == 0 then DefaultClearingInterval else cfg.clearingInterval;
    Cache(map[], [], cfg.capacity, interval, cfg.evictionPolicy)
  }

  // ---------------------------------------------------------------------------
  // Internal helpers

  /** `removeKey`: delete the key from the table and its first node from the list. */
  function RemoveKey<K(==), V>(c: Cache<K, V>, k: K): (r: Cache<K, V>)
    ensures k !in r.entries
    ensures forall j :: j in r.entries ==> j in c.entries && r.entries[j] == c.entries[j]
    ensures forall j :: j in c.entries && j != k ==> j in r.entries
    ensures r.keys == RemoveFirst(c.keys, k)
    ensures multiset(r.keys) == multiset(c.keys) - multiset{k}
    ensures SameConfig(c, r)
    ensures k in c.entries ==> |r.entries| == |c.entries| - 1
    ensures k !in c.entries ==> |r.entries| == |c.entries|
    ensures Inv(c) ==> Inv(r)
    ensures Covered(c) ==> Covered(r)
    ensures CountersPositive(c) ==> CountersPositive(r)
  {
    var r := c.(entries := c.entries - {k}, keys := RemoveFirst(c.keys, k));
    RemoveKeyPreserves(c, k, r);
    r
  }

  lemma RemoveKeyPreserves<K, V>(c: Cache<K, V>, k: K, r: Cache<K, V>)
    requires r == c.(entries := c.entries - {k}, keys := RemoveFirst(c.keys, k))
    ensures k in c.entries ==> |r.entries| == |c.entries| - 1
    ensures k !in c.entries ==> |r.entries| == |c.entries|
    ensures Inv(c) ==> Inv(r)
    ensures Covered(c) ==> Covered(r)
  {
    assert r.entries.Keys == c.entries.Keys - {k};
    if Inv(c) {
      RemoveFirstNoDup(c.keys, k);
      forall j | j in r.keys
        ensures j in r.entries
      {
        RemoveFirstOthers(c.keys, k, j);
      }
    }
    if Covered(c) {
      forall j | j in r.entries
        ensures j in r.keys
      {
        RemoveFirstOthers(c.keys, k, j);
      }
    }
  }

  // ---------------------------------------------------------------------------
  // Reads

  /** `Get`: an absent key fails with NotFound and changes nothing; an expired
      key fails with TtlExpired and is removed; otherwise the stored value is
      returned, the entry is touched and its first list node moves to the front. */
  function Get<K(==), V>(c: Cache<K, V>, key: K, now: int): (r: Reply<K, V, V>)
    ensures key !in c.entries ==> r.result == Err(NotFound) && r.cache == c
    ensures key in c.entries && Expired(c.entries[key], now) ==>
              r.result == Err(TtlExpired) && r.cache == RemoveKey(c, key)
    ensures r.result.Ok? <==> key in c.entries && !Expired(c.entries[key], now)
    ensures r.result.Ok? ==>
              && r.result.value == c.entries[key].value
              && key in r.cache.entries
              && r.cache.entries[key] == Touch(c.entries[key], now)
              && r.cache.entries.Keys == c.entries.Keys
              && (forall j :: j in c.entries && j != key ==> r.cache.entries[j] == c.entries[j])
              && r.cache.keys == MoveToFront(c.keys, key)
              && SameConfig(c, r.cache)
    ensures r.result.Ok? && Covered(c) ==> |r.cache.keys| > 0 && r.cache.keys[0] == key
    ensures Inv(c) ==> Inv(r.cache)
    ensures Covered(c) ==> Covered(r.cache)
    ensures CountersPositive(c) ==> CountersPositive(r.cache)
  {
    if key !in c.entries then
      Reply(c, Err(NotFound))
    else
      var item := c.entries[key];
      if Expired(item, now) then
        Reply(RemoveKey(c, key), Err(TtlExpired))
      else
        var d := c.(entries := c.entries[key := Touch(item, now)], keys := MoveToFront(c.keys, key));
        Reply(d, Ok(item.value))
  }

  /** `GetTTL`: the stored ttl (not the remaining time), NotFound when absent. */
  function GetTTL<K(==), V>(c: Cache<K, V>, key: K): (r: Result<int>)
    ensures r.Err? <==> key !in c.entries
    ensures r.Err? ==> r.error == NotFound
    ensures r.Ok? ==> r.value == c.entries[key].ttl
  {
    if key in c.entries then Ok(c.entries[key].ttl) else Err(NotFound)
  }

  /** `GetCounter`: the access counter, NotFound when absent. */
  function GetCounter<K(==), V>(c: Cache<K, V>, key: K): (r: Result<int>)
    ensures r.Err? <==> key !in c.entries
    ensures r.Err? ==> r.error == NotFound
    ensures r.Ok? ==> r.value == c.entries[key].counter
    ensures r.Ok? && CountersPositive(c) ==> r.value >= 1
  {
    if key in c.entries then Ok(c.entries[key].counter) else Err(NotFound)
  }

  function GetCapacity<K, V>(c: Cache<K, V>): int {
    c.capacity
  }

  /** `GetEvictionPolicy`: the policy's name, "UNKNOWN" for a value outside 0..3. */
  function GetEvictionPolicy<K, V>(c: Cache<K, V>): (name: string)
    ensures name == "UNKNOWN" <==> !ValidPolicy(c.evictionPolicy)
  {
    PolicyName(c.evictionPolicy)
  }

  function PolicyName(p: int): string {
    if p == LRU then "LRU"
    else if p == MRU then "MRU"
    else if p == LFU then "LFU"
    else if p == RANDOM then "RANDOM"
    else "UNKNOWN"
  }

  /** Distinct recognised policies are reported under distinct names. */
  lemma PolicyNamesDistinct(p: int, q: int)
    requires ValidPolicy(p) && ValidPolicy(q) && p != q
    ensures PolicyName(p) != PolicyName(q)
  {
  }

  /** `Keys`: fails with NoKeys on an empty table, otherwise lists every key
      exactly once, in map iteration order. */
  method Keys<K(==), V>(c: Cache<K, V>) returns (r: Result<seq<K>>)
    ensures r.Err? <==> |c.entries| == 0
    ensures r.Err? ==> r.error == NoKeys
    ensures r.Ok? ==> Enumerates(r.value, c.entries.Keys) && |r.value| == |c.entries|
  {
    if |c.entries| == 0 {
      return Err(NoKeys);
    }
    var order := Enumerate(c.entries.Keys);
    return Ok(order);
  }

  /** `values[i]` is the value stored under `order[i]`. */
  ghost predicate ValuesAlong<K, V>(values: seq<V>, order: seq<K>, m: map<K, Entry<V>>) {
    && |values| == |order|
    && forall i :: 0 <= i < |order| ==> order[i] in m && values[i] == m[order[i]].value
  }

  /** `GetAll`: one value per entry, in map iteration order; never fails. */
  method GetAll<K(==), V>(c: Cache<K, V>) returns (values: seq<V>)
    ensures |values| == |c.entries|
    ensures exists order :: Enumerates(order, c.entries.Keys) && ValuesAlong(values, order, c.entries)
  {
    var order := Enumerate(c.entries.Keys);
    values := [];
    var i := 0;
    while i < |order|
      invariant 0 <= i <= |order|
      invariant ValuesAlong(values, order[..i], c.entries)
    {
      assert order[i] in c.entries;
      values := values + [c.entries[order[i]].value];
      i := i + 1;
    }
    assert order[..i] == order;
  }

  // ---------------------------------------------------------------------------
  // Writes that never evict

  /** `Delete`: NotFound (and no change) when absent, otherwise `removeKey`. */
  function Delete<K(==), V>(c: Cache<K, V>, key: K): (r: Reply<K, V, ()>)
    ensures r.result.Err? <==> key !in c.entries
    ensures r.result.Err? ==> r.result.error == NotFound && r.cache == c
    ensures r.result.Ok? ==> r.cache == RemoveKey(c, key)
    ensures key !in r.cache.entries
    ensures r.cache.entries.Keys == c.entries.Keys - {key}
    ensures forall j :: j in r.cache.entries ==> r.cache.entries[j] == c.entries[j]
    ensures Inv(c) ==> Inv(r.cache)
  {
    if key !in c.entries then Reply(c, Err(NotFound))
    else Reply(RemoveKey(c, key), Ok(()))
  }

  /** `Clear`: an empty table and an empty list; configuration kept. */
  function Clear<K, V>(c: Cache<K, V>): (r: Cache<K, V>)
    ensures |r.entries| == 0 && |r.keys| == 0
    ensures SameConfig(c, r)
    ensures Inv(r) && CountersPositive(r)
  {
    c.(entries := map[], keys := [])
  }

  /** `SetTTL`: NotFound when absent; otherwise only that entry's ttl changes
      (its value, counter and last-use time are kept, the list is untouched). */
  function SetTTL<K(==), V>(c: Cache<K, V>, key: K, ttl: int): (r: Reply<K, V, ()>)
    ensures r.result.Err? <==> key !in c.entries
    ensures r.result.Err? ==> r.result.error == NotFound && r.cache == c
    ensures r.result.Ok? ==>
              && key in r.cache.entries
              && r.cache.entries[key].ttl == ttl
              && r.cache.entries[key].value == c.entries[key].value
              && r.cache.entries[key].counter == c.entries[key].counter
              && r.cache.entries[key].lastUsedAt == c.entries[key].lastUsedAt
    ensures r.cache.entries.Keys == c.entries.Keys
    ensures forall j :: j in c.entries && j != key ==> r.cache.entries[j] == c.entries[j]
    ensures r.cache.keys == c.keys && SameConfig(c, r.cache)
    ensures Inv(c) ==> Inv(r.cache)
  {
    if key !in c.entries then Reply(c, Err(NotFound))
    else Reply(c.(entries := c.entries[key := c.entries[key].(ttl := ttl)]), Ok(()))
  }

  /** `SetCapacity`: a negative capacity is refused; otherwise only the
      capacity changes and nothing is evicted. */
  function SetCapacity<K, V>(c: Cache<K, V>, n: int): (r: Reply<K, V, ()>)
    ensures r.result.Err? <==> n < 0
    ensures r.result.Err? ==> r.result.error == NegativeCapacity && r.cache == c
    ensures r.result.Ok? ==> GetCapacity(r.cache) == n
    ensures r.cache.entries == c.entries && r.cache.keys == c.keys
    ensures r.cache.clearingInterval == c.clearingInterval
    ensures r.cache.evictionPolicy == c.evictionPolicy
  {
    if n < 0 then Reply(c, Err(NegativeCapacity))
    else Reply(c.(capacity := n), Ok(()))
  }

  /** `SetEvictionPolicy`: a policy outside 0..3 is refused; otherwise only
      the policy changes. */
  function SetEvictionPolicy<K, V>(c: Cache<K, V>, p: int): (r: Reply<K, V, ()>)
    ensures r.result.Err? <==> !ValidPolicy(p)
    ensures r.result.Err? ==> r.result.error == InvalidPolicy && r.cache == c
    ensures r.result.Ok? ==> GetEvictionPolicy(r.cache) == PolicyName(p) != "UNKNOWN"
    ensures r.result.Ok? ==> r.cache.evictionPolicy == p
    ensures r.cache.entries == c.entries && r.cache.keys == c.keys
    ensures r.cache.capacity == c.capacity && r.cache.clearingInterval == c.clearingInterval
  {
    if !ValidPolicy(p) then Reply(c, Err(InvalidPolicy))
    else Reply(c.(evictionPolicy := p), Ok(()))
  }

  // ---------------------------------------------------------------------------
  // Eviction

  /** The counter of `k` is minimal over the table. */
  ghost predicate MinimalCounter<K, V>(c: Cache<K, V>, k: K)
    requires k in c.entries
  {
    forall j :: j in c.entries ==> c.entries[k].counter <= c.entries[j].counter
  }

  /** The keys each policy may pick: LRU the list's back, MRU the list's front,
      LFU a key of minimal counter, RANDOM any key of the table. */
  ghost predicate IsVictim<K, V>(c: Cache<K, V>, k: K) {
    if c.evictionPolicy == LRU then |c.keys| > 0 && k == c.keys[|c.keys| - 1]
    else if c.evictionPolicy == MRU then |c.keys| > 0 && k == c.keys[0]
    else if c.evictionPolicy == LFU then k in c.entries && MinimalCounter(c, k)
    else if c.evictionPolicy == RANDOM then k in c.entries
    else false
  }

  /** Whether the current policy finds anything to evict. */
  predicate HasCandidate<K, V>(c: Cache<K, V>) {
    if c.evictionPolicy == LRU || c.evictionPolicy == MRU then |c.keys| > 0
    else if c.evictionPolicy == LFU || c.evictionPolicy == RANDOM then |c.entries| > 0
    else false
  }

  /** `evictLRU`: remove the key at the back of the list, if any. */
  function EvictLRU<K(==), V>(c: Cache<K, V>): (r: Cache<K, V>)
    ensures |c.keys| == 0 ==> r == c
    ensures |c.keys| > 0 ==> r == RemoveKey(c, c.keys[|c.keys| - 1])
    ensures Inv(c) && |c.entries| > 0 ==> |r.entries| == |c.entries| - 1
  {
    if |c.keys| == 0 then c else RemoveKey(c, c.keys[|c.keys| - 1])
  }

  /** `evictMRU`: remove the key at the front of the list, if any. */
  function EvictMRU<K(==), V>(c: Cache<K, V>): (r: Cache<K, V>)
    ensures |c.keys| == 0 ==> r == c
    ensures |c.keys| > 0 ==> r == RemoveKey(c, c.keys[0])
    ensures Inv(c) && |c.entries| > 0 ==> |r.entries| == |c.entries| - 1
  {
    if |c.keys| == 0 then c
    else RemoveKey(c, c.keys[0])
  }

  /** `evictLFU`: scan the table in iteration order keeping the first key with
      the smallest counter seen so far (`-1` marks "nothing seen yet"), then
      remove it. The result is a minimal-counter key whenever no counter equals
      the sentinel, in particular when every counter is positive. */
  method EvictLFU<K(==), V>(c: Cache<K, V>) returns (r: Cache<K, V>, victim: Option<K>)
    ensures victim.None? <==> |c.entries| == 0
    ensures victim.None? ==> r == c
    ensures victim.Some? ==> victim.value in c.entries && r == RemoveKey(c, victim.value)
    ensures victim.Some? && CountersPositive(c) ==> MinimalCounter(c, victim.value)
  {
    var minKey: Option<K> := None;
    var minCount := -1;
    var rest := c.entries.Keys;
    while rest != {}
      invariant rest <= c.entries.Keys
      invariant minKey.None? ==> minCount == -1 && rest == c.entries.Keys
      invariant minKey.Some? ==> minKey.value in c.entries && c.entries[minKey.value].counter == minCount
      invariant minKey.Some? && CountersPositive(c) ==>
                  forall j :: j in c.entries && j !in rest ==> minCount <= c.entries[j].counter
      decreases rest
    {
      var k :| k in rest;
      if minCount == -1 || c.entries[k].counter < minCount {
        minKey := Some(k);
        minCount := c.entries[k].counter;
      }
      rest := rest - {k};
    }
    if minKey.Some? {
      r := RemoveKey(c, minKey.value);
    } else {
      r := c;
    }
    victim := minKey;
  }

  /** `evictRANDOM`: remove whichever key the map iteration yields first. */
  method EvictRandom<K(==), V>(c: Cache<K, V>) returns (r: Cache<K, V>, victim: Option<K>)
    ensures victim.None? <==> |c.entries| == 0
    ensures victim.None? ==> r == c
    ensures victim.Some? ==> victim.value in c.entries && r == RemoveKey(c, victim.value)
  {
    if |c.entries| == 0 {
      return c, None;
    }
    assert c.entries.Keys != {};
    var k :| k in c.entries;
    return RemoveKey(c, k), Some(k);
  }

  /** `evict`: dispatch on the policy; a policy outside 0..3 evicts nothing.
      At most one key is removed, and it is one the policy may pick. */
  method Evict<K(==), V>(c: Cache<K, V>) returns (r: Cache<K, V>, victim: Option<K>)
    ensures victim.Some? <==> HasCandidate(c)
    ensures victim.None? ==> r == c
    ensures victim.Some? ==> r == RemoveKey(c, victim.value)
    ensures victim.Some? && (c.evictionPolicy == LFU ==> CountersPositive(c)) ==>
              IsVictim(c, victim.value)
    ensures victim.Some? && c.evictionPolicy == LFU ==> victim.value in c.entries
    ensures victim.Some? && Inv(c) ==> victim.value in c.entries
    ensures Inv(c) && ValidPolicy(c.evictionPolicy) && |c.entries| > 0 ==>
              victim.Some? && |r.entries| == |c.entries| - 1
  {
    if c.evictionPolicy == LRU || c.evictionPolicy == MRU {
      r, victim := EvictListEnd(c);
    } else if c.evictionPolicy == LFU {
      r, victim := EvictLFU(c);
    } else if c.evictionPolicy == RANDOM {
      r, victim := EvictRandom(c);
    } else {
      r, victim := c, None;
    }
    if Inv(c) && |c.entries| > 0 {
      NonEmptyList(c);
    }
  }

  /** The list-based policies: `evictLRU` takes the back of the list, `evictMRU`
      the front; an empty list gives nothing to evict. */
  method EvictListEnd<K(==), V>(c: Cache<K, V>) returns (r: Cache<K, V>, victim: Option<K>)
    requires c.evictionPolicy == LRU || c.evictionPolicy == MRU
    ensures victim.Some? <==> |c.keys| > 0
    ensures victim.None? ==> r == c
    ensures victim.Some? ==> r == RemoveKey(c, victim.value) && IsVictim(c, victim.value)
    ensures victim.Some? ==> victim.value in c.keys
  {
    if c.evictionPolicy == LRU {
      r := EvictLRU(c);
      victim := if |c.keys| == 0 then None else Some(c.keys[|c.keys| - 1]);
    } else {
      r := EvictMRU(c);
      victim := if |c.keys| == 0 then None else Some(c.keys[0]);
    }
  }

  /** Under the invariant a non-empty table has a non-empty list. */
  lemma NonEmptyList<K, V>(c: Cache<K, V>)
    requires Inv(c) && |c.entries| > 0
    ensures |c.keys| > 0
  {
    var k :| k in c.entries;
    assert k in c.keys;
  }

  // ---------------------------------------------------------------------------
  // Set

  /** `Set`: when the table is at capacity, evict once first; then store the
      fresh entry (counter 1, last use `now`) and push the key onto the front
      of the list, WITHOUT removing an older node of the same key. `evicted`
      is the key the policy removed, if any. */
  method Set<K(==), V>(c: Cache<K, V>, key: K, value: V, ttl: int, now: int)
    returns (r: Cache<K, V>, evicted: Option<K>)
    ensures key in r.entries && r.entries[key] == Entry(value, ttl, 1, now)
    ensures |r.keys| > 0 && r.keys[0] == key
    ensures r.keys[1..] == (if evicted.Some? then RemoveFirst(c.keys, evicted.value) else c.keys)
    ensures forall j :: j != key && (evicted.None? || j != evicted.value) ==>
              (j in r.entries <==> j in c.entries) && (j in c.entries ==> r.entries[j] == c.entries[j])
    ensures evicted.Some? && evicted.value != key ==> evicted.value !in r.entries
    ensures SameConfig(c, r)
    ensures !AtCapacity(c) ==> evicted.None?
    ensures AtCapacity(c) ==> (evicted.Some? <==> HasCandidate(c))
    ensures evicted.Some? && (c.evictionPolicy == LFU ==> CountersPositive(c)) ==>
              IsVictim(c, evicted.value)
    ensures |r.entries| <= |c.entries| + 1
    ensures Inv(c) && key !in c.entries ==> Inv(r)
    ensures Inv(c) && key !in c.entries ==>
              |r.entries| == (if evicted.Some? then |c.entries| else |c.entries| + 1)
    ensures key in c.entries ==> |r.entries| <= |c.entries|
    ensures (&& Inv(c) && ValidPolicy(c.evictionPolicy)
             && c.capacity > 0 && |c.entries| <= c.capacity) ==> |r.entries| <= c.capacity
    ensures Covered(c) ==> Covered(r)
    ensures CountersPositive(c) ==> CountersPositive(r)
  {
    var mid;
    mid, evicted := EvictIfFull(c);
    r := Push(mid, key, Entry(value, ttl, 1, now));
    SetEffect(c, mid, evicted, key, Entry(value, ttl, 1, now), r);
    if key in c.entries {
      assert r.entries.Keys <= c.entries.Keys;
    }
    if Inv(c) && ValidPolicy(c.evictionPolicy) && c.capacity > 0 && |c.entries| <= c.capacity {
      WithinCapacity(c, mid, r);
    }
  }

  /** The first half of `Set`: evict once when the table is at capacity. */
  method EvictIfFull<K(==), V>(c: Cache<K, V>) returns (mid: Cache<K, V>, evicted: Option<K>)
    ensures !AtCapacity(c) ==> evicted.None?
    ensures AtCapacity(c) ==> (evicted.Some? <==> HasCandidate(c))
    ensures evicted.None? ==> mid == c
    ensures evicted.Some? ==> mid == RemoveKey(c, evicted.value)
    ensures evicted.Some? && (c.evictionPolicy == LFU ==> CountersPositive(c)) ==>
              IsVictim(c, evicted.value)
    ensures evicted.Some? && Inv(c) ==> evicted.value in c.entries
    ensures Inv(c) && ValidPolicy(c.evictionPolicy) && AtCapacity(c) ==>
              |mid.entries| == |c.entries| - 1
  {
    mid, evicted := c, None;
    if AtCapacity(c) {
      mid, evicted := Evict(c);
    }
  }

  /** Evicting one key when full and then storing one key stays within capacity. */
  lemma WithinCapacity<K, V>(c: Cache<K, V>, mid: Cache<K, V>, r: Cache<K, V>)
    requires c.capacity > 0 && |c.entries| <= c.capacity
    requires AtCapacity(c) ==> |mid.entries| == |c.entries| - 1
    requires !AtCapacity(c) ==> mid == c
    requires |r.entries| <= |mid.entries| + 1
    ensures |r.entries| <= c.capacity
  {
  }

  /** What an optional eviction followed by `Push` does to the table and the
      list, in terms of the state before both. */
  lemma SetEffect<K, V>(c: Cache<K, V>, mid: Cache<K, V>, evicted: Option<K>, key: K, e: Entry<V>, r: Cache<K, V>)
    requires evicted.None? ==> mid == c
    requires evicted.Some? ==> mid == RemoveKey(c, evicted.value)
    requires evicted.Some? && Inv(c) ==> evicted.value in c.entries
    requires r == Push(mid, key, e)
    ensures r.keys[1..] == (if evicted.Some? then RemoveFirst(c.keys, evicted.value) else c.keys)
    ensures forall j :: j != key && (evicted.None? || j != evicted.value) ==>
              (j in r.entries <==> j in c.entries) && (j in c.entries ==> r.entries[j] == c.entries[j])
    ensures evicted.Some? && evicted.value != key ==> evicted.value !in r.entries
    ensures SameConfig(c, r)
    ensures |r.entries| <= |c.entries| + 1
    ensures Inv(c) && key !in c.entries ==> Inv(r)
    ensures Inv(c) && key !in c.entries ==>
              |r.entries| == (if evicted.Some? then |c.entries| else |c.entries| + 1)
    ensures Covered(c) ==> Covered(r)
    ensures CountersPositive(c) && e.counter >= 1 ==> CountersPositive(r)
  {
  }

  /** `c.cache[key] = item; c.keys.PushFront(key)`: store the entry and push a
      new node for the key, leaving any older node of the same key in place. */
  function Push<K(==), V>(mid: Cache<K, V>, key: K, e: Entry<V>): (r: Cache<K, V>)
    ensures key in r.entries && r.entries[key] == e
    ensures r.entries.Keys == mid.entries.Keys + {key}
    ensures forall j :: j in mid.entries && j != key ==> r.entries[j] == mid.entries[j]
    ensures |r.keys| == |mid.keys| + 1 && r.keys[0] == key && r.keys[1..] == mid.keys
    ensures SameConfig(mid, r)
    ensures |r.entries| <= |mid.entries| + 1
    ensures key !in mid.entries ==> |r.entries| == |mid.entries| + 1
    ensures Inv(mid) && key !in mid.entries ==> Inv(r)
    ensures Covered(mid) ==> Covered(r)
    ensures CountersPositive(mid) && e.counter >= 1 ==> CountersPositive(r)
  {
    var r := mid.(entries := mid.entries[key := e], keys := [key] + mid.keys);
    assert r.keys[1..] == mid.keys;
    assert r.entries.Keys == mid.entries.Keys + {key};
    assert Inv(mid) && key !in mid.entries ==> Inv(r) by {
      if Inv(mid) && key !in mid.entries {
        NoDupCons(key, mid.keys);
      }
    }
    r
  }

  /** Pushing a key that already has a node leaves two nodes for it: the list
      is no longer duplicate-free. */
  lemma PushPresentKeyDuplicates<K, V>(mid: Cache<K, V>, key: K, e: Entry<V>)
    requires key in mid.keys
    ensures !NoDup(Push(mid, key, e).keys)
  {
    var s := Push(mid, key, e).keys;
    var i :| 0 <= i < |mid.keys| && mid.keys[i] == key;
    assert s[0] == s[i + 1];
  }

  // ---------------------------------------------------------------------------
  // Expiry sweep

  function ExpiredKeys<K(==), V>(c: Cache<K, V>, now: int): set<K> {
    set k | k in c.entries && Expired(c.entries[k], now)
  }

  /** Reference definition of one sweep: the expired entries leave the table
      and their first list nodes leave the list. */
  function Sweep<K(==), V>(c: Cache<K, V>, now: int): (r: Cache<K, V>)
    ensures forall k :: k in c.entries && !Expired(c.entries[k], now) ==> k in r.entries
    ensures forall k :: k in r.entries ==> k in c.entries
    ensures forall k :: k in r.entries ==> r.entries[k] == c.entries[k]
    ensures forall k :: k in r.entries ==> !Expired(r.entries[k], now)
    ensures SameConfig(c, r)
    ensures Inv(c) ==> Inv(r)
    ensures Covered(c) ==> Covered(r)
    ensures CountersPositive(c) ==> CountersPositive(r)
  {
    var dead := ExpiredKeys(c, now);
    c.(entries := c.entries - dead, keys := RemoveFirstEach(c.keys, dead))
  }

  /** A second sweep at the same instant finds nothing left to remove. */
  lemma SweepIdempotent<K, V>(c: Cache<K, V>, now: int)
    ensures Sweep(Sweep(c, now), now) == Sweep(c, now)
  {
    var s := Sweep(c, now);
    assert ExpiredKeys(s, now) == {};
    RemoveFirstEachNone(s.keys);
    assert s.entries - {} == s.entries;
  }

  /** `processClearing`: visit every key in map iteration order and
      `removeKey` the expired ones. Whatever the order, the outcome is the
      reference sweep. */
  method ProcessClearing<K(==), V>(c: Cache<K, V>, now: int) returns (r: Cache<K, V>)
    ensures r == Sweep(c, now)
  {
    ghost var dead := ExpiredKeys(c, now);
    ghost var pending := dead;
    r := c;
    var todo := c.entries.Keys;
    while todo != {}
      invariant todo <= c.entries.Keys
      invariant pending == dead * todo
      invariant r.entries == c.entries - (dead - todo)
      invariant RemoveFirstEach(r.keys, pending) == RemoveFirstEach(c.keys, dead)
      invariant SameConfig(c, r)
      decreases todo
    {
      var k :| k in todo;
      var value := r.entries[k];
      if value.ttl != 0 && value.lastUsedAt + value.ttl < now {
        RemoveFirstEachStep(r.keys, pending, k);
        SweepVisitDead(c.entries, dead, todo, k);
        r := RemoveKey(r, k);
        pending := pending - {k};
      } else {
        SweepVisitLive(c.entries, dead, todo, k);
      }
      todo := todo - {k};
    }
    assert pending == {} && r.entries == c.entries - dead;
    RemoveFirstEachNone(r.keys);
    assert r.keys == RemoveFirstEach(c.keys, dead);
    assert r == c.(entries := c.entries - dead, keys := RemoveFirstEach(c.keys, dead));
  }

  /** Visiting a dead key removes it from the table. */
  lemma SweepVisitDead<K, V>(m: map<K, Entry<V>>, dead: set<K>, todo: set<K>, k: K)
    requires k in todo && k in dead
    ensures (m - (dead - todo)) - {k} == m - (dead - (todo - {k}))
    ensures (dead * todo) - {k} == dead * (todo - {k})
  {
  }

  /** Visiting a live key changes nothing. */
  lemma SweepVisitLive<K, V>(m: map<K, Entry<V>>, dead: set<K>, todo: set<K>, k: K)
    requires k in todo && k !in dead
    ensures m - (dead - todo) == m - (dead - (todo - {k}))
    ensures dead * todo == dead * (todo - {k})
  {
  }

  /** The ttl law: once an entry's ttl has elapsed, reading it fails whether
      or not a sweep ran first, and a sweep removes it. */
  lemma TtlLaw<K, V>(c: Cache<K, V>, key: K, now: int)
    requires key in c.entries && Expired(c.entries[key], now)
    ensures Get(c, key, now).result == Err(TtlExpired)
    ensures key !in Sweep(c, now).entries
    ensures Get(Sweep(c, now), key, now).result == Err(NotFound)
  {
  }

  /** Round trip: right after `Set(key, value, ttl)` at time `t`, a `Get` at a
      time the ttl has not yet passed returns `value` with counter 2. */
  lemma GetAfterSet<K, V>(c: Cache<K, V>, key: K, value: V, ttl: int, t: int, now: int)
    requires key in c.entries && c.entries[key] == Entry(value, ttl, 1, t)
    requires ttl == 0 || now <= t + ttl
    ensures Get(c, key, now).result == Ok(value)
    ensures GetCounter(Get(c, key, now).cache, key) == Ok(2)
  {
  }

  /** Reading back what `SetTTL` wrote. */
  lemma GetTTLAfterSetTTL<K, V>(c: Cache<K, V>, key: K, ttl: int)
    requires key in c.entries
    ensures GetTTL(SetTTL(c, key, ttl).cache, key) == Ok(ttl)
  {
  }

  /** After `Clear` every read fails with NotFound. */
  lemma GetAfterClear<K, V>(c: Cache<K, V>, key: K, now: int)
    ensures Get(Clear(c), key, now).result == Err(NotFound)
  {
  }

  // ---------------------------------------------------------------------------
  // The whole state machine

  /** The state-changing public operations, plus one tick of the sweeper. */
  datatype Op<K, V> =
    | GetOp(key: K)
    | SetOp(key: K, value: V, ttl: int)
    | DeleteOp(key: K)
    | ClearOp
    | SetTTLOp(key: K, ttl: int)
    | SetCapacityOp(n: int)
    | SetEvictionPolicyOp(p: int)
    | SweepOp

  /** One step of the cache as written. Every step keeps each table key on the
      list and all counters positive; every step except a `Set` of a key that
      is already present keeps the full invariant. A `Set` from a state with
      the invariant stays within capacity; the overflow of the finding needs
      a first `Set` that breaks the invariant and a later one that exploits it. */
  method Apply<K(==), V>(c: Cache<K, V>, op: Op<K, V>, now: int) returns (r: Cache<K, V>)
    ensures Covered(c) ==> Covered(r)
    ensures CountersPositive(c) ==> CountersPositive(r)
    ensures Inv(c) && !(op.SetOp? && op.key in c.entries) ==> Inv(r)
    ensures (&& op.SetOp? && Inv(c) && ValidPolicy(c.evictionPolicy)
             && c.capacity > 0 && |c.entries| <= c.capacity) ==> |r.entries| <= c.capacity
  {
    match op
    case GetOp(k) => r := Get(c, k, now).cache;
    case SetOp(k, v, ttl) => var evicted; r, evicted := Set(c, k, v, ttl, now);
    case DeleteOp(k) =>
      r := Delete(c, k).cache;
      assert Covered(c) ==> Covered(r) by {
        if Delete(c, k).result.Ok? {
          assert r == RemoveKey(c, k);
        }
      }
    case ClearOp => r := Clear(c);
    case SetTTLOp(k, ttl) => r := SetTTL(c, k, ttl).cache;
    case SetCapacityOp(n) => r := SetCapacity(c, n).cache;
    case SetEvictionPolicyOp(p) => r := SetEvictionPolicy(c, p).cache;
    case SweepOp => r := ProcessClearing(c, now);
  }
}
