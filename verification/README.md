# cacher — a verified model of the cache engine

`cacher` is an in-memory key/value cache written in Go (`cacher.go`). Every item
has a time-to-live, and an item whose ttl has elapsed is expired. The cache
holds at most `Capacity` items and evicts one item, chosen by a policy (LRU,
MRU, LFU or RANDOM), before inserting into a full table. A background ticker
sweeps expired items out of the table.

The state is a map of entries plus a recency list (a `container/list`, whose
front is the most recently used key). `Get` and `removeKey` (and so `Delete`,
the sweep and every eviction) locate a key's list node by a front-to-back
scan, `getKeyNote`. `Set` does not look up the node of the key it stores: it
only pushes a new node onto the front, and reaches `getKeyNote` only through
`evict` for the victim.

This project restates that engine as a sequential state machine in Dafny.

- `common.dfy` (`Common`): `Option`, duplicate-free sequences, and
  `Enumerate`. `Enumerate` models a Go map range loop as an arbitrary
  duplicate-free listing of a set.
- `recency.dfy` (`Recency`): the recency list as a `seq` whose index 0 is the
  front. It models `getKeyNote`, `Remove`, `MoveToFront`, and the list half of
  the expiry sweep. Every list operation acts on the first node of a key, as the
  scan does.
- `entries.dfy` (`Entries`): one item (`cache` in Go), the expiry test
  `checkExpiration` and the access bookkeeping `update`.
- `cacher.dfy` (`Cacher`): the `Cacher` state and every public and internal
  operation. It also holds the reference sweep, the state invariants and the
  one-step state machine `Apply`.
- `fixed.dfy` (`Fixed`): the same cache with `Set` corrected (see Findings).
- `scenarios.dfy` (`Scenarios`): the repository's unit tests, replayed on the
  model with concrete keys and times, plus the trace behind the finding.

Time is an integer nanosecond clock passed to each operation as `now`. Go's map
iteration order is unspecified, and four places depend on it: LFU tie-breaking,
RANDOM eviction, the order of `Keys`/`GetAll`, and the order of the sweep.
These are methods that choose with `:|`, and their postconditions hold for
every choice.

## Model

| member | source | states |
|---|---|---|
| Common.Enumerate | cacher.go:270-273 | The result lists every element of the set exactly once and nothing else, so its length is the set's size. This holds whatever order the map range loop yields. |
| Common.EnumerationLength | cacher.go:117-120 | A duplicate-free listing of exactly a set's elements is as long as the set. This is why `GetAll` and `Keys` return one item per entry. |
| Recency.FirstIndex | cacher.go:430-438 | `getKeyNote` finds nothing exactly when the key is absent from the list. Otherwise it finds a position holding the key with no earlier occurrence, i.e. the first node front to back. |
| Recency.RemoveFirst | cacher.go:363-367 | Removing a key's node takes out its first occurrence, front to back, and keeps every other node in order. The multiset loses one copy and the length drops by one. It leaves the list unchanged when the key is absent. |
| Recency.RemoveFirstNoDup | cacher.go:363-367 | On a duplicate-free list, removing the key's node removes the key entirely and keeps the list duplicate-free. |
| Recency.MoveToFront | cacher.go:104-107 | The key's first node goes to the front and the remaining nodes keep their order. An absent key changes nothing. The list keeps its multiset and its element set, and stays duplicate-free if it was. |
| Recency.RemoveFirstEach | cacher.go:353-360 | The list left by a sweep has no new keys and keeps every key that is not dead. On a duplicate-free list it stays duplicate-free and holds no dead key. |
| Recency.RemoveFirstEachStep | cacher.go:355-358 | Removing one dead key's node and then sweeping the rest gives the same list as sweeping all of them. So the order in which the map loop meets dead keys does not matter. |
| Entries.Touch | cacher.go:329-333 | `update` keeps the value and ttl, adds one to the counter and sets the last-use time to now. A touched item with a non-negative ttl is not expired at that instant. |
| Entries.ExpiryIsPermanent | cacher.go:423-428 | An untouched expired item stays expired at every later time. An item with ttl 0 never expires. |
| Entries.NegativeTtlExpiresAtOnce | cacher.go:423-428 | A negative ttl makes an item expired at any time after its last use. |
| Cacher.New | cacher.go:64-82 | A new cache is empty and satisfies the invariant. A zero clearing interval becomes 100 seconds, and any other value is kept. Capacity and policy are stored unvalidated. |
| Cacher.RemoveKey | cacher.go:363-369 | The key leaves the table and its first node leaves the list. Every other entry is kept unchanged, and the size drops by one exactly when the key was present. The invariant, key coverage and positive counters are preserved. |
| Cacher.Get | cacher.go:86-110 | Absent key: NotFound, nothing changes. Expired key: TtlExpired, and the key is removed. Otherwise (and only then) it returns the stored value, the entry is touched, its node moves to the front, and every other entry is kept. The invariants are preserved. |
| Cacher.GetTTL | cacher.go:238-246 | Fails with NotFound exactly when the key is absent. Otherwise it returns the stored ttl, not the remaining time. |
| Cacher.GetCounter | cacher.go:250-258 | Fails with NotFound exactly when the key is absent. Otherwise it returns the access counter, which is at least 1 in every reachable state. |
| Cacher.GetEvictionPolicy | cacher.go:204-219 | The name is "UNKNOWN" exactly when the policy is outside 0..3. |
| Cacher.PolicyNamesDistinct | cacher.go:208-218 | Distinct recognised policies have distinct names. |
| Cacher.Keys | cacher.go:262-275 | Fails with NoKeys exactly when the table is empty. Otherwise it lists every key of the table exactly once. |
| Cacher.GetAll | cacher.go:113-122 | Returns one value per entry. Some duplicate-free listing of all the keys has, at each position, the value stored under that key. |
| Cacher.Delete | cacher.go:156-166 | Fails with NotFound and changes nothing exactly when the key is absent. Otherwise it is `removeKey`. Afterwards the table holds exactly the old keys minus this one, with their entries unchanged. |
| Cacher.Clear | cacher.go:146-152 | Empty table, empty list, configuration kept. |
| Cacher.SetTTL | cacher.go:222-234 | Fails with NotFound exactly when the key is absent. Otherwise only that entry's ttl changes: its value, counter and last use are kept, as are the other entries and the list. |
| Cacher.SetCapacity | cacher.go:170-187 | Refused with NegativeCapacity exactly when the new capacity is negative. Otherwise `GetCapacity` then reports it, and nothing is evicted or reordered. |
| Cacher.SetEvictionPolicy | cacher.go:191-201 | Refused with InvalidPolicy exactly when the policy is outside 0..3. Otherwise `GetEvictionPolicy` reports the new policy's name, and only the policy changes. |
| Cacher.EvictLRU | cacher.go:386-390 | Removes the key at the back of the list, or does nothing on an empty list. Under the invariant a non-empty table shrinks by one. |
| Cacher.EvictMRU | cacher.go:393-397 | Removes the key at the front of the list, or does nothing on an empty list. Under the invariant a non-empty table shrinks by one. |
| Cacher.EvictLFU | cacher.go:400-412 | Picks nothing exactly when the table is empty. Otherwise it removes a key of the table, and when every counter is positive that key has a minimal counter. |
| Cacher.EvictRandom | cacher.go:415-420 | Picks nothing exactly when the table is empty. Otherwise it removes some key of the table. |
| Cacher.EvictListEnd | cacher.go:386-397 | LRU takes the key at the back of the list and MRU the key at the front. There is a victim exactly when the list is non-empty, and the victim is the key removed. |
| Cacher.Evict | cacher.go:372-383 | Removes a key exactly when the policy has a candidate, and then removes exactly one key that the policy may pick. An unknown policy removes nothing. Under the invariant with a known policy, a non-empty table shrinks by exactly one. |
| Cacher.EvictIfFull | cacher.go:137-139 | Below capacity nothing is evicted. At capacity a key is evicted exactly when the policy has a candidate, and it is one the policy may pick. Under the invariant with a known policy, a full table loses exactly one entry. |
| Cacher.Set | cacher.go:126-143 | Evicts first only at capacity. Then it stores the fresh entry (counter 1, last use now) and pushes the key onto the front. Other entries and the list behind the new node are as the eviction left them. From a state with the invariant and a known policy, the table stays within capacity for any key. A present key never grows the table. For a new key the invariant and the exact size are kept. Key coverage and positive counters are always kept. |
| Cacher.Push | cacher.go:141-142 | Stores the entry and puts a new node at the front, with the old list intact behind it. The invariant survives only when the key was not yet in the table. |
| Cacher.PushPresentKeyDuplicates | cacher.go:141-142 | Pushing a key that is already on the list leaves two nodes for it. |
| Cacher.Sweep | cacher.go:353-360 | Reference sweep: exactly the unexpired entries remain, unchanged, and no remaining entry is expired. The invariants are preserved. |
| Cacher.SweepIdempotent | cacher.go:353-360 | A second sweep at the same instant changes nothing. |
| Cacher.ProcessClearing | cacher.go:353-360 | The loop over the map in any iteration order yields exactly the reference sweep. |
| Cacher.TtlLaw | cacher.go:98-101 | Reading an expired key fails with TtlExpired. After a sweep the key is gone and reading it gives NotFound. |
| Cacher.GetAfterSet | cacher.go:126-143 | Round trip: right after `Set`, a read before the ttl elapses returns the stored value and leaves the counter at 2. |
| Cacher.GetTTLAfterSetTTL | cacher.go:222-246 | `GetTTL` after `SetTTL` on a present key returns the new ttl. |
| Cacher.GetAfterClear | cacher.go:146-152 | After `Clear` every read fails with NotFound. |
| Cacher.Apply | cacher.go:86-369 | Every operation step, including a sweep tick, keeps every table key on the list and every counter positive. Every step except a `Set` of a key already present keeps the full invariant. A `Set` from a state with the invariant and a known policy stays within capacity. |
| Fixed.SetDedup | cacher.go:126-143 | The corrected `Set` drops the key's old node before pushing the new one. It keeps the invariant for every key and agrees with `Set` on new keys. With a known policy and positive capacity it keeps the table within capacity. |
| Fixed.PushDedup | cacher.go:141-142 | The corrected insertion stores the entry and leaves exactly one node for the key at the front. |
| Fixed.Apply | cacher.go:86-369 | With the corrected `Set`, every step keeps the invariant, and a `Set` under a known policy keeps the table within capacity. |
| Scenarios.ReadThree | cacher_test.go:90-95 | Three reads of distinct unexpired keys each see exactly what the table held before the first read. |
| Scenarios.ReplayCapacity | cacher_test.go:82-96 | Capacity 2, LRU, inserting k1, k2, k3: k1 is gone, and k2 and k3 read back. |
| Scenarios.ReplayLRU | cacher_test.go:98-113 | Reading k1 before inserting k3 makes k2 the victim. |
| Scenarios.ReplayMRU | cacher_test.go:115-129 | Under MRU, inserting k3 evicts k2. |
| Scenarios.ReplayLFU | cacher_test.go:131-147 | Under LFU, k1 read twice survives and k2 (counter 1) is evicted. |
| Scenarios.ReplayRandom | cacher_test.go:149-165 | Under RANDOM exactly one of k1 and k2 remains, and k3 is present. |
| Scenarios.ReplayCounter | cacher_test.go:195-207 | One `Set` and two reads leave the counter at 3. |
| Scenarios.ReplayGetExpired | cacher_test.go:27-42 | A 20 ms item read at 30 ms fails with TtlExpired. |
| Scenarios.ReplayTTLUpdate | cacher_test.go:167-181 | Raising a ttl from 5 s to 10 s keeps the item readable at 6 s. |
| Scenarios.ReplayGetTTL | cacher_test.go:183-193 | `GetTTL` reports the 5 s given to `Set`. |
| Scenarios.ReplayKeys | cacher_test.go:209-221 | `Keys` after two inserts has length 2 and contains k1 and k2. |
| Scenarios.ReplayGetAll | cacher_test.go:44-55 | `GetAll` after two inserts has length 2 and contains v1 and v2. |
| Scenarios.ReplaySettings | cacher_test.go:245-267 | Capacity 5 is accepted and -1 refused. MRU is accepted and reported as "MRU", and policy 10 is refused. |
| Scenarios.ReplayDeleteAndClear | cacher_test.go:57-80 | After `Delete` or `Clear` the stored key reads as NotFound. |
| Scenarios.DuplicateKeyOverflow | cacher.go:137-142 | The trace of the finding ends with three entries in a cache of capacity 2. |
| Scenarios.DuplicateKeyTraceFixed | cacher.go:137-142 | The same trace on the corrected cache ends within capacity, holding k4. |

## Left out

- The background ticker goroutine, its context and `Close` (cacher.go:80, 324-326, 336-350). These are concurrency and lifecycle. One sweep tick is the `SweepOp` step of `Apply`.
- The mutex. Each operation is one atomic step. `Get` reads its snapshot under a read lock and re-locks afterwards (cacher.go:87-96). The model reads and updates in one step, so the window in which a concurrent `Set` could be overwritten by the stale snapshot is not modelled.
- `Stats` (cacher.go:279-320). It only formats text and uses floating point for occupancy.
- Wall-clock time. `time.Now()` becomes the `now` parameter, one per operation. Go's `time.Time` monotonic details and the overflow of `lastUsedAt.Add(ttl)` are not modelled: times and durations are unbounded integers.
- Go `int` overflow of the access counter. The counter is an unbounded integer.
- Cacher.EvictLFU: the Go check `minKey != nil` also skips a victim whose key is the nil interface value. The model has no nil key, so such a key would be evicted here.
- Cacher.EvictLFU: minimality of the victim is stated only when every counter is positive. A counter equal to the `-1` sentinel could be overtaken. Counters start at 1 and only grow, so this never happens in a reachable state.
- Cacher.GetTTL and Cacher.GetCounter: the placeholder values returned next to an error (0 and -1) are not modelled. The error result carries no value.
- Cacher.GetTTL: the doc comment says "remaining TTL", but the code returns the stored ttl. The model follows the code.
- Cacher.Get: an expired key is reported as the separate "TTL expired" error, not as not-found, because that is what the code does.
- Cacher.New: the policy is not validated. With a policy outside 0..3, `evict` does nothing and the table can grow past capacity. This is why the capacity bounds of `Cacher.Set` and `Fixed.SetDedup` require a known policy.
- Cacher.Set: the invariant is promised only for a key not yet in the table. For a present key the code as written can break it, whenever the key's old node survives the eviction step. For example, this happens below capacity, or when the victim is another key. Once the invariant is broken, a later `Set` of a new key can push the table past capacity (see Findings). When the victim is the key itself, as with capacity 1, the invariant happens to survive.
- The linear cost of `getKeyNote`. The model is about results, not running time.
- The clearing interval is stored and reported but drives nothing else in the model.
- Cacher.New: a negative clearing interval is kept and yields a working cache here. In the program, the goroutine started by `New` passes it to `time.NewTicker` (cacher.go:337), which panics on a non-positive interval and ends the process.

## Findings

| source | as written | input that shows it | evidently intended | confidence | as-written member | corrected member |
|---|---|---|---|---|---|---|
| cacher.go:141-142 | `Set` of a key already in the table overwrites the entry but pushes a second list node for the key. `removeKey` then removes only the first node, so a stale node remains after the key leaves the table. When LRU or MRU later evicts that stale node, the key is deleted from the table, where it is absent, and nothing is freed. | Capacity 2, LRU: Set k1, Set k1, Set k2, Set k3, Set k4. The table ends with k2, k3 and k4: three entries. | Each key has exactly one list node, so eviction always frees a slot and the table never exceeds its capacity. | not executed | Scenarios.DuplicateKeyOverflow | Fixed.SetDedup |
