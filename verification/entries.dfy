/** One cached item (the Go struct `cache`) and the two things done to a single
    item: the expiry test `checkExpiration` and the access bookkeeping `update`.
    Times are integer nanoseconds on an abstract clock; a duration is a signed
    integer number of nanoseconds, as Go's `time.Duration` is. */
module Entries {

  const Second: int := 1_000_000_000

  /** `ttl == 0` means the item never expires. `counter` counts the Set and every
      successful Get; `lastUsedAt` is the time of the last of those. */
  datatype Entry<+V> = Entry(value: V, ttl: int, counter: int, lastUsedAt: int)

  /** `checkExpiration` at time `now`: a non-zero ttl has elapsed, i.e.
      `lastUsedAt + ttl` lies strictly before `now`. */
  predicate Expired<V>(e: Entry<V>, now: int) {
    e.ttl != 0 && e.lastUsedAt + e.ttl < now
  }

  /** `update`: count one more access and refresh the access time. */
  function Touch<V>(e: Entry<V>, now: int): (r: Entry<V>)
    ensures r.value == e.value && r.ttl == e.ttl
    ensures r.counter == e.counter + 1
    ensures r.lastUsedAt == now
    ensures e.ttl >= 0 ==> !Expired(r, now)
  {
    e.(counter := e.counter + 1, lastUsedAt := now)
  }

  /** Expiry is permanent as long as nobody touches the item, and an item with
      ttl 0 never expires. */
  lemma ExpiryIsPermanent<V>(e: Entry<V>, now: int, later: int)
    requires now <= later
    ensures Expired(e, now) ==> Expired(e, later)
    ensures e.ttl == 0 ==> !Expired(e, later)
  {
  }

  /** A negative ttl (Go durations may be negative) makes an item expired at
      every instant after its last use, including right after being stored. */
  lemma NegativeTtlExpiresAtOnce<V>(e: Entry<V>, now: int)
    requires e.ttl < 0 && e.lastUsedAt <= now
    ensures Expired(e, now)
  {
  }
}
