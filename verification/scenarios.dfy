/** The repository's test scenarios replayed on the model, with the clock
    advancing one nanosecond per call and every ttl 5 seconds, so nothing
    expires unless a scenario says so. The eviction scenarios hold for every
    choice the nondeterministic policies may make. */
module Scenarios {
  import opened Common
  import opened Recency
  import opened Entries
  import opened Cacher
  import Fixed

  const TTL: int := 5 * Second

  /** No entry has expired at `now`. */
  ghost predicate NoneExpired<K, V>(c: Cache<K, V>, now: int) {
    forall k :: k in c.entries ==> !Expired(c.entries[k], now)
  }

  /** Reading three distinct keys in a row, as the tests do after each
      scenario: when nothing has expired, each read sees exactly what the
      table held before the first one (a read never disturbs another key). */
  method ReadThree<K(==), V>(c: Cache<K, V>, a: K, b: K, d: K, now: int)
    returns (ra: Result<V>, rb: Result<V>, rd: Result<V>)
    requires a != b && b != d && a != d
    requires NoneExpired(c, now)
    ensures ra == (if a in c.entries then Ok(c.entries[a].value) else Err(NotFound))
    ensures rb == (if b in c.entries then Ok(c.entries[b].value) else Err(NotFound))
    ensures rd == (if d in c.entries then Ok(c.entries[d].value) else Err(NotFound))
  {
    var g := Get(c, a, now);
    ra := g.result;
    var c1 := g.cache;
    assert forall k :: k in c1.entries && k != a ==> k in c.entries && c1.entries[k] == c.entries[k];
    assert forall k :: k in c.entries && k != a ==> k in c1.entries;
    g := Get(c1, b, now);
    rb := g.result;
    var c2 := g.cache;
    assert forall k :: k in c2.entries && k != b ==> k in c1.entries && c2.entries[k] == c1.entries[k];
    assert forall k :: k in c1.entries && k != b ==> k in c2.entries;
    rd := Get(c2, d, now).result;
  }

  /** `Set` seen as one map update: the victim (if any) leaves the table, the
      new entry is stored, and its key is pushed onto the front of the list. */
  method Store<K(==), V>(c: Cache<K, V>, key: K, value: V, ttl: int, now: int)
    returns (r: Cache<K, V>, evicted: Option<K>)
    ensures r.entries == (if evicted.Some? then c.entries - {evicted.value} else c.entries)[key := Entry(value, ttl, 1, now)]
    ensures r.keys == [key] + (if evicted.Some? then RemoveFirst(c.keys, evicted.value) else c.keys)
    ensures SameConfig(c, r)
    ensures !AtCapacity(c) ==> evicted.None?
    ensures AtCapacity(c) ==> (evicted.Some? <==> HasCandidate(c))
    ensures evicted.Some? && (c.evictionPolicy == LFU ==> CountersPositive(c)) ==>
              IsVictim(c, evicted.value)
  {
    r, evicted := Set(c, key, value, ttl, now);
    var m := (if evicted.Some? then c.entries - {evicted.value} else c.entries)[key := Entry(value, ttl, 1, now)];
    assert r.entries.Keys == m.Keys;
    assert r.keys == [r.keys[0]] + r.keys[1..];
  }

  /** The common start of most tests: the given capacity (room for at least
      two items) and policy, k1 stored at time 0 and k2 at time 1. */
  method InsertTwo(capacity: int, p: int) returns (c: Cache<string, string>)
    requires capacity >= 2
    ensures c.keys == ["k2", "k1"] && c.entries.Keys == {"k1", "k2"}
    ensures c.entries["k1"] == Entry("v1", TTL, 1, 0) && c.entries["k2"] == Entry("v2", TTL, 1, 1)
    ensures c.capacity == capacity && c.evictionPolicy == p
    ensures Inv(c) && CountersPositive(c) && NoneExpired(c, Late)
  {
    c := New(Config(capacity, 0, p));
    var ev;
    c, ev := Store(c, "k1", "v1", TTL, 0);
    assert c.keys == ["k1"];
    c, ev := Store(c, "k2", "v2", TTL, 1);
  }

  /** The instant of the final reads in the eviction tests; every earlier
      step happens before it, and no 5-second item has expired by then. */
  const Late: int := 5

  /** Inserting k3 into a full table of k1 and k2: exactly one key the
      policy may pick leaves, the other item is kept as it was. */
  method InsertThird(c: Cache<string, string>) returns (d: Cache<string, string>, gone: string)
    requires c.entries.Keys == {"k1", "k2"}
    requires c.capacity == 2 && ValidPolicy(c.evictionPolicy) && Inv(c) && CountersPositive(c)
    requires NoneExpired(c, Late)
    ensures gone in c.entries && IsVictim(c, gone)
    ensures d.entries.Keys == {"k1", "k2", "k3"} - {gone}
    ensures d.entries["k3"].value == "v3"
    ensures forall k :: k in d.entries && k != "k3" ==> d.entries[k] == c.entries[k]
    ensures NoneExpired(d, Late)
  {
    NonEmptyList(c);
    var ev;
    d, ev := Store(c, "k3", "v3", TTL, Late - 1);
    assert ev.Some?;
    gone := ev.value;
    FreshAfterInsert(c.entries, d.entries, gone, "v3");
  }

  /** Replacing one unexpired item by a fresh k3 leaves nothing expired. */
  lemma FreshAfterInsert<V>(m: map<string, Entry<V>>, n: map<string, Entry<V>>, gone: string, v: V)
    requires n == (m - {gone})["k3" := Entry(v, TTL, 1, Late - 1)]
    requires forall k :: k in m ==> !Expired(m[k], Late)
    ensures forall k :: k in n ==> !Expired(n[k], Late)
    ensures forall k :: k in n && k != "k3" ==> n[k] == m[k]
  {
  }

  /** Capacity 2, LRU: inserting k1, k2, k3 evicts k1. */
  method ReplayCapacity() returns (r1: Result<string>, r2: Result<string>, r3: Result<string>)
    ensures r1 == Err(NotFound) && r2 == Ok("v2") && r3 == Ok("v3")
  {
    var c := InsertTwo(2, LRU);
    var gone;
    c, gone := InsertThird(c);
    assert gone == "k1";
    r1, r2, r3 := ReadThree(c, "k1", "k2", "k3", Late);
  }

  /** Reading k1 in the LRU test moves it to the front of the list. */
  method PromoteFirst(c: Cache<string, string>) returns (d: Cache<string, string>)
    requires c.keys == ["k2", "k1"] && c.entries.Keys == {"k1", "k2"} && Inv(c) && CountersPositive(c)
    requires c.entries["k1"] == Entry("v1", TTL, 1, 0) && c.entries["k2"] == Entry("v2", TTL, 1, 1)
    ensures d.keys == ["k1", "k2"] && d.entries.Keys == {"k1", "k2"}
    ensures d.entries["k2"] == Entry("v2", TTL, 1, 1) && d.entries["k1"].value == "v1"
    ensures SameConfig(c, d) && Inv(d) && CountersPositive(d) && NoneExpired(d, Late)
  {
    d := Get(c, "k1", 2).cache;
    assert FirstIndex(["k2", "k1"], "k1") == Some(1);
    NoneExpiredTwo(d);
  }

  /** Capacity 2, LRU: reading k1 promotes it, so inserting k3 evicts k2. */
  method ReplayLRU() returns (r2: Result<string>, r1: Result<string>, r3: Result<string>)
    ensures r2 == Err(NotFound) && r1 == Ok("v1") && r3 == Ok("v3")
  {
    var c := InsertTwo(2, LRU);
    c := PromoteFirst(c);
    var gone;
    c, gone := InsertThird(c);
    assert gone == "k2";
    r2, r1, r3 := ReadThree(c, "k2", "k1", "k3", Late);
  }

  /** Capacity 2, MRU: inserting k3 evicts k2, the most recently inserted. */
  method ReplayMRU() returns (r2: Result<string>, r1: Result<string>, r3: Result<string>)
    ensures r2 == Err(NotFound) && r1 == Ok("v1") && r3 == Ok("v3")
  {
    var c := InsertTwo(2, MRU);
    var gone;
    c, gone := InsertThird(c);
    assert gone == "k2";
    r2, r1, r3 := ReadThree(c, "k2", "k1", "k3", Late);
  }

  /** Reading k1 twice in the LFU test raises its counter to 3. */
  method ReadFirstTwice(c: Cache<string, string>) returns (d: Cache<string, string>)
    requires c.entries.Keys == {"k1", "k2"} && Inv(c) && CountersPositive(c)
    requires c.entries["k1"] == Entry("v1", TTL, 1, 0) && c.entries["k2"] == Entry("v2", TTL, 1, 1)
    ensures d.entries.Keys == {"k1", "k2"} && SameConfig(c, d) && Inv(d) && CountersPositive(d)
    ensures d.entries["k1"] == Entry("v1", TTL, 3, 3) && d.entries["k2"] == Entry("v2", TTL, 1, 1)
    ensures NoneExpired(d, Late)
  {
    d := Get(c, "k1", 2).cache;
    d := Get(d, "k1", 3).cache;
    NoneExpiredTwo(d);
  }

  /** A table of k1 and k2, neither expired at the final instant. */
  lemma NoneExpiredTwo<V>(c: Cache<string, V>)
    requires c.entries.Keys == {"k1", "k2"}
    requires !Expired(c.entries["k1"], Late) && !Expired(c.entries["k2"], Late)
    ensures NoneExpired(c, Late)
  {
  }

  /** Capacity 2, LFU: k1 read twice (counter 3) survives, k2 (counter 1) goes. */
  method ReplayLFU() returns (r2: Result<string>, r1: Result<string>, r3: Result<string>)
    ensures r2 == Err(NotFound) && r1 == Ok("v1") && r3 == Ok("v3")
  {
    var c := InsertTwo(2, LFU);
    var read := ReadFirstTwice(c);
    var gone;
    c, gone := InsertThird(read);
    assert gone == "k2" by {
      assert read.entries["k2"].counter < read.entries["k1"].counter;
    }
    r2, r1, r3 := ReadThree(c, "k2", "k1", "k3", Late);
  }

  /** Capacity 2, RANDOM: after k1, k2, k3 exactly one of k1 and k2 remains,
      and k3 is present. */
  method ReplayRandom() returns (r1: Result<string>, r2: Result<string>, r3: Result<string>)
    ensures r1.Ok? != r2.Ok?
    ensures r3 == Ok("v3")
  {
    var c := InsertTwo(2, RANDOM);
    var gone;
    c, gone := InsertThird(c);
    r1, r2, r3 := ReadThree(c, "k1", "k2", "k3", Late);
  }

  /** One Set and two Gets leave the counter at 3. */
  method ReplayCounter() returns (n: Result<int>)
    ensures n == Ok(3)
  {
    var c: Cache<string, string> := New(Config(10, 0, LRU));
    var ev;
    c, ev := Store(c, "counter_key", "value", TTL, 0);
    c := Get(c, "counter_key", 1).cache;
    c := Get(c, "counter_key", 2).cache;
    n := GetCounter(c, "counter_key");
  }

  /** A 20ms item read 30ms later is reported expired. */
  method ReplayGetExpired() returns (r: Result<string>)
    ensures r == Err(TtlExpired)
  {
    var ms := 1_000_000;
    var c: Cache<string, string> := New(Config(10, 10 * ms, LRU));
    var ev;
    c, ev := Store(c, "exp_key", "exp_value", 20 * ms, 0);
    r := Get(c, "exp_key", 30 * ms).result;
  }

  /** Raising the ttl from 5s to 10s keeps the item readable after 6s. */
  method ReplayTTLUpdate() returns (r: Result<string>)
    ensures r == Ok("value")
  {
    var c: Cache<string, string> := New(Config(10, 0, LRU));
    var ev;
    c, ev := Store(c, "ttl_key", "value", 5 * Second, 0);
    c := SetTTL(c, "ttl_key", 10 * Second).cache;
    r := Get(c, "ttl_key", 6 * Second).result;
  }

  /** `GetTTL` reports the ttl given to `Set`. */
  method ReplayGetTTL() returns (r: Result<int>)
    ensures r == Ok(5 * Second)
  {
    var c: Cache<string, string> := New(Config(10, 0, LRU));
    var ev;
    c, ev := Store(c, "ttl_key", "value", 5 * Second, 0);
    r := GetTTL(c, "ttl_key");
  }

  /** `Keys` after two inserts lists exactly k1 and k2. */
  method ReplayKeys() returns (r: Result<seq<string>>)
    ensures r.Ok? && |r.value| == 2 && "k1" in r.value && "k2" in r.value
  {
    var c := InsertTwo(10, LRU);
    r := Keys(c);
  }

  /** `GetAll` after two inserts returns v1 and v2. */
  method ReplayGetAll() returns (values: seq<string>)
    ensures |values| == 2 && "v1" in values && "v2" in values
  {
    var c := InsertTwo(10, LRU);
    values := GetAll(c);
    ghost var order :| Enumerates(order, c.entries.Keys) && ValuesAlong(values, order, c.entries);
    ValueAlong(values, order, c.entries, "k1");
    ValueAlong(values, order, c.entries, "k2");
  }

  /** A key listed in the order contributes its value to the result. */
  lemma ValueAlong<K, V>(values: seq<V>, order: seq<K>, m: map<K, Entry<V>>, k: K)
    requires ValuesAlong(values, order, m) && k in order
    ensures k in m && m[k].value in values
  {
    var i :| 0 <= i < |order| && order[i] == k;
    assert values[i] == m[k].value;
  }

  /** Capacity changes are accepted for 5 and refused for -1; the policy
      changes to MRU and a policy of 10 is refused. */
  method ReplaySettings() returns (cap: int, bad: Result<()>, name: string, badPolicy: Result<()>)
    ensures cap == 5 && bad == Err(NegativeCapacity)
    ensures name == "MRU" && badPolicy == Err(InvalidPolicy)
  {
    var c: Cache<string, string> := New(Config(10, 0, LRU));
    c := SetCapacity(c, 5).cache;
    cap := GetCapacity(c);
    bad := SetCapacity(c, -1).result;
    c := SetEvictionPolicy(c, MRU).cache;
    name := GetEvictionPolicy(c);
    badPolicy := SetEvictionPolicy(c, 10).result;
  }

  /** Deleting, or clearing, makes a stored key unreadable. */
  method ReplayDeleteAndClear() returns (deleted: Result<()>, afterDelete: Result<string>, afterClear: Result<string>)
    ensures deleted == Ok(()) && afterDelete == Err(NotFound) && afterClear == Err(NotFound)
  {
    var c: Cache<string, string> := New(Config(10, 0, LRU));
    var ev;
    c, ev := Store(c, "del_key", "del_value", TTL, 0);
    var d := Delete(c, "del_key");
    deleted := d.result;
    afterDelete := Get(d.cache, "del_key", 1).result;
    c := Clear(c);
    afterClear := Get(c, "del_key", 2).result;
  }

  /** k1 stored twice, then k2: the list holds a second, stale node for k1. */
  method InsertDuplicate() returns (c: Cache<string, string>)
    ensures c.keys == ["k2", "k1", "k1"] && c.entries.Keys == {"k1", "k2"}
    ensures c.capacity == 2 && c.evictionPolicy == LRU && Covered(c)
    ensures !NoDup(c.keys)
  {
    c := New(Config(2, 0, LRU));
    var ev;
    c, ev := Store(c, "k1", "v1", TTL, 0);
    assert c.keys == ["k1"] && c.entries.Keys == {"k1"};
    c, ev := Store(c, "k1", "v1", TTL, 1);
    assert c.keys == ["k1", "k1"] && c.entries.Keys == {"k1"};
    c, ev := Store(c, "k2", "v2", TTL, 2);
    assert c.keys[1] == c.keys[2];
  }

  /** The code as written: overwriting k1 leaves a stale second node for it.
      With capacity 2 and LRU, inserting k3 evicts k1 through its older node,
      and inserting k4 then "evicts" k1 again through the stale node, which
      removes nothing from the table: three entries for capacity 2. */
  method DuplicateKeyOverflow() returns (c: Cache<string, string>)
    ensures c.capacity == 2 && |c.entries| == 3
  {
    c := InsertDuplicate();
    c := EvictThroughFirstNode(c);
    var ev;
    c, ev := Store(c, "k4", "v4", TTL, 4);
    assert ev == Some("k1");
    assert c.entries.Keys == {"k2", "k3", "k4"};
  }

  /** Inserting k3 into the state with the stale node evicts k1 through its
      first node; the stale one is now at the back of the list. */
  method EvictThroughFirstNode(c: Cache<string, string>) returns (d: Cache<string, string>)
    requires c.keys == ["k2", "k1", "k1"] && c.entries.Keys == {"k1", "k2"}
    requires c.capacity == 2 && c.evictionPolicy == LRU
    ensures d.keys == ["k3", "k2", "k1"] && d.entries.Keys == {"k2", "k3"}
    ensures d.capacity == 2 && d.evictionPolicy == LRU
  {
    var ev;
    d, ev := Store(c, "k3", "v3", TTL, 3);
    assert ev == Some("k1");
    assert FirstIndex(["k2", "k1", "k1"], "k1") == Some(1);
  }

  /** The same trace on the corrected cache stays within capacity. */
  method DuplicateKeyTraceFixed() returns (c: Cache<string, string>)
    ensures c.capacity == 2 && |c.entries| <= 2 && "k4" in c.entries
  {
    c := New(Config(2, 0, LRU));
    var ev;
    c, ev := Fixed.SetDedup(c, "k1", "v1", TTL, 0);
    c, ev := Fixed.SetDedup(c, "k1", "v1", TTL, 1);
    c, ev := Fixed.SetDedup(c, "k2", "v2", TTL, 2);
    c, ev := Fixed.SetDedup(c, "k3", "v3", TTL, 3);
    c, ev := Fixed.SetDedup(c, "k4", "v4", TTL, 4);
  }
}
