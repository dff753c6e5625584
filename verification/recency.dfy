/** The recency list of the cache (`Cacher.keys`, a `container/list`), as a
    sequence whose index 0 is the front. The Go code finds a key's node by a
    front-to-back scan (`getKeyNote`), so every list operation below acts on the
    FIRST occurrence of the key; later duplicates are left alone. */
module Recency {
  import opened Common

  /** `getKeyNote`: the position of the first occurrence of `k`, or None. */
  function FirstIndex<K(==)>(s: seq<K>, k: K): (r: Option<nat>)
    ensures r.None? <==> k !in s
    ensures r.Some? ==> r.value < |s| && s[r.value] == k
    ensures r.Some? ==> forall j :: 0 <= j < r.value ==> s[j] != k
  {
    if |s| == 0 then None
    else if s[0] == k then Some(0)
    else
      match FirstIndex(s[1..], k)
      case None => None
      case Some(i) => assert s[1..][i] == s[i + 1]; Some(i + 1)
  }

  /** `keys.Remove(getKeyNote(k))`: drop the first occurrence of `k`, if any. */
  function RemoveFirst<K(==)>(s: seq<K>, k: K): (r: seq<K>)
    ensures k !in s ==> r == s
    ensures k in s ==> |r| == |s| - 1
    ensures multiset(r) == multiset(s) - multiset{k}
    ensures k in s ==> exists i :: 0 <= i < |s| && s[i] == k && k !in s[..i] && r == s[..i] + s[i + 1..]
  {
    match FirstIndex(s, k)
    case None => s
    case Some(i) =>
      assert s == s[..i] + [s[i]] + s[i + 1..];
      assert k !in s[..i];
      s[..i] + s[i + 1..]
  }

  /** Removing one occurrence of `k` does not change which other keys occur. */
  lemma RemoveFirstOthers<K>(s: seq<K>, k: K, x: K)
    requires x != k
    ensures x in RemoveFirst(s, k) <==> x in s
  {
    assert multiset(RemoveFirst(s, k))[x] == multiset(s)[x];
  }

  /** On a duplicate-free list, removing the first occurrence removes the key
      altogether and keeps the list duplicate-free. */
  lemma RemoveFirstNoDup<K>(s: seq<K>, k: K)
    requires NoDup(s)
    ensures NoDup(RemoveFirst(s, k))
    ensures k !in RemoveFirst(s, k)
  {
    match FirstIndex(s, k)
    case None =>
    case Some(i) =>
      var r := RemoveFirst(s, k);
      assert r == s[..i] + s[i + 1..];
      forall a, b | 0 <= a < b < |r|
        ensures r[a] != r[b]
      {
        var a' := if a < i then a else a + 1;
        var b' := if b < i then b else b + 1;
        assert r[a] == s[a'] && r[b] == s[b'];
      }
      forall j | 0 <= j < |r|
        ensures r[j] != k
      {
        if j >= i {
          assert r[j] == s[j + 1];
        }
      }
  }

  /** `keys.MoveToFront(getKeyNote(k))`: the first occurrence of `k` goes to the
      front and the rest keeps its order; a key not in the list changes nothing. */
  function MoveToFront<K(==)>(s: seq<K>, k: K): (r: seq<K>)
    ensures k in s ==> r == [k] + RemoveFirst(s, k)
    ensures k !in s ==> r == s
    ensures multiset(r) == multiset(s)
    ensures forall x :: x in r ==> x in s
    ensures forall x :: x in s ==> x in r
    ensures NoDup(s) ==> NoDup(r)
  {
    if k in s then
      var r := [k] + RemoveFirst(s, k);
      SameMultisetSameElements(r, s);
      assert NoDup(s) ==> NoDup(r) by {
        if NoDup(s) {
          RemoveFirstNoDup(s, k);
          NoDupCons(k, RemoveFirst(s, k));
        }
      }
      r
    else s
  }

  /** Sequences with the same multiset have the same elements. */
  lemma SameMultisetSameElements<K>(a: seq<K>, b: seq<K>)
    requires multiset(a) == multiset(b)
    ensures forall x :: x in a ==> x in b
    ensures forall x :: x in b ==> x in a
  {
    forall x | x in a || x in b
      ensures x in a <==> x in b
    {
      assert x in a <==> x in multiset(a);
      assert x in b <==> x in multiset(b);
    }
  }

  /** Pushing a key that is not yet present keeps a list duplicate-free. */
  lemma NoDupCons<K>(k: K, s: seq<K>)
    requires NoDup(s) && k !in s
    ensures NoDup([k] + s)
  {
    var r := [k] + s;
    forall a, b | 0 <= a < b < |r|
      ensures r[a] != r[b]
    {
      assert r[b] == s[b - 1];
      if a > 0 {
        assert r[a] == s[a - 1];
      }
    }
  }

  /** What the expiry sweep leaves of the list: for every key of `dead`, the
      first occurrence is dropped, everything else stays in order. */
  function RemoveFirstEach<K(==)>(s: seq<K>, dead: set<K>): (r: seq<K>)
    ensures forall x :: x in r ==> x in s
    ensures forall x :: x in s && x !in dead ==> x in r
    ensures NoDup(s) ==> NoDup(r) && forall x :: x in dead ==> x !in r
  {
    if |s| == 0 then []
    else
      var tail := if s[0] in dead then RemoveFirstEach(s[1..], dead - {s[0]})
                  else [s[0]] + RemoveFirstEach(s[1..], dead);
      assert forall x :: x in s ==> x == s[0] || x in s[1..];
      assert NoDup(s) ==> NoDup(tail) && forall x :: x in dead ==> x !in tail by {
        if NoDup(s) {
          NoDupTail(s);
          if s[0] !in dead {
            NoDupCons(s[0], RemoveFirstEach(s[1..], dead));
          }
        }
      }
      tail
  }

  /** With nothing to remove, the sweep leaves the list as it is. */
  lemma {:induction false} RemoveFirstEachNone<K>(s: seq<K>)
    ensures RemoveFirstEach(s, {}) == s
  {
    if |s| > 0 {
      RemoveFirstEachNone(s[1..]);
      assert s == [s[0]] + s[1..];
    }
  }

  /** Removing the first occurrence of a key other than the head happens in the tail. */
  lemma RemoveFirstCons<K>(s: seq<K>, k: K)
    requires |s| > 0 && s[0] != k
    ensures RemoveFirst(s, k) == [s[0]] + RemoveFirst(s[1..], k)
  {
    var t := s[1..];
    match FirstIndex(t, k)
    case None =>
      assert FirstIndex(s, k) == None;
    case Some(i) =>
      assert FirstIndex(s, k) == Some(i + 1);
      assert RemoveFirst(t, k) == t[..i] + t[i + 1..];
      assert RemoveFirst(s, k) == s[..i + 1] + s[i + 2..];
      SliceTail(s, i);
  }

  /** Cutting out position `i + 1` of `s` is cutting out position `i` of its tail. */
  lemma SliceTail<K>(s: seq<K>, i: nat)
    requires i + 1 < |s|
    ensures s[..i + 1] + s[i + 2..] == [s[0]] + (s[1..][..i] + s[1..][i + 1..])
  {
    assert s[..i + 1] == [s[0]] + s[1..][..i];
    assert s[i + 2..] == s[1..][i + 1..];
  }

  /** Removing one dead key first and sweeping the rest gives the same list as
      sweeping all of them: the order in which a sweep meets the dead keys does
      not matter. */
  lemma {:induction false} RemoveFirstEachStep<K>(s: seq<K>, dead: set<K>, k: K)
    requires k in dead
    ensures RemoveFirstEach(RemoveFirst(s, k), dead - {k}) == RemoveFirstEach(s, dead)
  {
    if |s| == 0 {
    } else if s[0] == k {
      assert FirstIndex(s, k) == Some(0);
      assert RemoveFirst(s, k) == s[1..];
    } else {
      var t := RemoveFirst(s[1..], k);
      var u := [s[0]] + t;
      RemoveFirstCons(s, k);
      assert u[0] == s[0] && u[1..] == t;
      if s[0] in dead {
        var d := dead - {s[0]};
        assert dead - {k} - {s[0]} == d - {k};
        assert RemoveFirstEach(u, dead - {k}) == RemoveFirstEach(t, d - {k});
        RemoveFirstEachStep(s[1..], d, k);
      } else {
        assert RemoveFirstEach(u, dead - {k}) == [s[0]] + RemoveFirstEach(t, dead - {k});
        RemoveFirstEachStep(s[1..], dead, k);
      }
    }
  }
}
