/** The cache with `Set` corrected so that the recency list never holds two
    nodes for one key: before the new node is pushed to the front, the key's
    old node (if any) is taken out of the list, as `Get` does when it moves a
    node to the front. Every other operation is the one of `Cacher`. */
module Fixed {
  import opened Common
  import opened Recency
  import opened Entries
  import opened Cacher

  /** `Set` with the list kept duplicate-free. On a key that is not present it
      does exactly what `Cacher.Set` does; on any key it keeps the invariant
      and, with a recognised policy, the capacity bound. */
  method SetDedup<K(==), V>(c: Cache<K, V>, key: K, value: V, ttl: int, now: int)
    returns (r: Cache<K, V>, evicted: Option<K>)
    ensures key in r.entries && r.entries[key] == Entry(value, ttl, 1, now)
    ensures |r.keys| > 0 && r.keys[0] == key
    ensures r.keys[1..] == RemoveFirst(if evicted.Some? then RemoveFirst(c.keys, evicted.value) else c.keys, key)
    ensures forall j :: j != key && (evicted.None? || j != evicted.value) ==>
              (j in r.entries <==> j in c.entries) && (j in c.entries ==> r.entries[j] == c.entries[j])
    ensures evicted.Some? && evicted.value != key ==> evicted.value !in r.entries
    ensures SameConfig(c, r)
    ensures !AtCapacity(c) ==> evicted.None?
    ensures AtCapacity(c) ==> (evicted.Some? <==> HasCandidate(c))
    ensures evicted.Some? && (c.evictionPolicy == LFU ==> CountersPositive(c)) ==>
              IsVictim(c, evicted.value)
    ensures Inv(c) ==> Inv(r)
    ensures Inv(c) && key !in c.entries ==>
              r.keys[1..] == (if evicted.Some? then RemoveFirst(c.keys, evicted.value) else c.keys)
    ensures (&& Inv(c) && ValidPolicy(c.evictionPolicy)
             && c.capacity > 0 && |c.entries| <= c.capacity) ==> |r.entries| <= c.capacity
    ensures CountersPositive(c) ==> CountersPositive(r)
  {
    var mid;
    mid, evicted := EvictIfFull(c);
    r := PushDedup(mid, key, Entry(value, ttl, 1, now));
    DedupEffect(c, mid, evicted, key, Entry(value, ttl, 1, now), r);
    if Inv(c) && ValidPolicy(c.evictionPolicy) && c.capacity > 0 && |c.entries| <= c.capacity {
      WithinCapacity(c, mid, r);
    }
  }

  /** What an optional eviction followed by `PushDedup` does, in terms of the
      state before both. */
  lemma DedupEffect<K, V>(c: Cache<K, V>, mid: Cache<K, V>, evicted: Option<K>, key: K, e: Entry<V>, r: Cache<K, V>)
    requires evicted.None? ==> mid == c
    requires evicted.Some? ==> mid == RemoveKey(c, evicted.value)
    requires r == PushDedup(mid, key, e)
    ensures r.keys[1..] == RemoveFirst(if evicted.Some? then RemoveFirst(c.keys, evicted.value) else c.keys, key)
    ensures forall j :: j != key && (evicted.None? || j != evicted.value) ==>
              (j in r.entries <==> j in c.entries) && (j in c.entries ==> r.entries[j] == c.entries[j])
    ensures evicted.Some? && evicted.value != key ==> evicted.value !in r.entries
    ensures SameConfig(c, r)
    ensures Inv(c) ==> Inv(r)
    ensures Inv(c) && key !in c.entries ==>
              r.keys[1..] == (if evicted.Some? then RemoveFirst(c.keys, evicted.value) else c.keys)
    ensures CountersPositive(c) && e.counter >= 1 ==> CountersPositive(r)
  {
  }

  /** Store the entry and put the key's only node at the front of the list. */
  function PushDedup<K(==), V>(mid: Cache<K, V>, key: K, e: Entry<V>): (r: Cache<K, V>)
    ensures key in r.entries && r.entries[key] == e
    ensures r.entries.Keys == mid.entries.Keys + {key}
    ensures forall j :: j in mid.entries && j != key ==> r.entries[j] == mid.entries[j]
    ensures |r.keys| > 0 && r.keys[0] == key && r.keys[1..] == RemoveFirst(mid.keys, key)
    ensures SameConfig(mid, r)
    ensures |r.entries| <= |mid.entries| + 1
    ensures Inv(mid) ==> Inv(r)
    ensures Inv(mid) && key !in mid.entries ==> r.keys[1..] == mid.keys
    ensures CountersPositive(mid) && e.counter >= 1 ==> CountersPositive(r)
  {
    var r := mid.(entries := mid.entries[key := e], keys := [key] + RemoveFirst(mid.keys, key));
    PushDedupShape(mid, key, e, r);
    assert Inv(mid) ==> Inv(r) by {
      if Inv(mid) {
        PushDedupInv(mid, key, e, r);
      }
    }
    r
  }

  /** The table and list after the corrected insertion, one fact at a time. */
  lemma PushDedupShape<K, V>(mid: Cache<K, V>, key: K, e: Entry<V>, r: Cache<K, V>)
    requires r == mid.(entries := mid.entries[key := e], keys := [key] + RemoveFirst(mid.keys, key))
    ensures r.entries.Keys == mid.entries.Keys + {key}
    ensures |r.entries| <= |mid.entries| + 1
    ensures r.keys[1..] == RemoveFirst(mid.keys, key)
  {
    assert r.keys[1..] == RemoveFirst(mid.keys, key);
    assert r.entries.Keys == mid.entries.Keys + {key};
  }

  /** The corrected insertion keeps the invariant. */
  lemma PushDedupInv<K, V>(mid: Cache<K, V>, key: K, e: Entry<V>, r: Cache<K, V>)
    requires r == mid.(entries := mid.entries[key := e], keys := [key] + RemoveFirst(mid.keys, key))
    requires Inv(mid)
    ensures Inv(r)
    ensures key !in mid.entries ==> RemoveFirst(mid.keys, key) == mid.keys
  {
    var rest := RemoveFirst(mid.keys, key);
    RemoveFirstNoDup(mid.keys, key);
    NoDupCons(key, rest);
    forall j | j != key
      ensures j in rest <==> j in mid.keys
    {
      RemoveFirstOthers(mid.keys, key, j);
    }
  }

  /** One step of the corrected cache: every operation keeps the invariant,
      and a `Set` under a recognised policy keeps the table within capacity. */
  method Apply<K(==), V>(c: Cache<K, V>, op: Op<K, V>, now: int) returns (r: Cache<K, V>)
    ensures Inv(c) ==> Inv(r)
    ensures CountersPositive(c) ==> CountersPositive(r)
    ensures (&& op.SetOp? && Inv(c) && ValidPolicy(c.evictionPolicy)
             && c.capacity > 0 && |c.entries| <= c.capacity) ==> |r.entries| <= c.capacity
  {
    match op
    case SetOp(k, v, ttl) =>
      var evicted;
      r, evicted := SetDedup(c, k, v, ttl, now);
    case _ =>
      r := Cacher.Apply(c, op, now);
  }
}
