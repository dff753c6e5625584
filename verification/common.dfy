/** Small vocabulary shared by the cache model: an optional value, duplicate-freedom
    of a sequence, and enumerations of a finite set (how Go's `range` over a map
    hands out the keys: each one once, in an order nobody promises). */
module Common {

  datatype Option<+T> = None | Some(value: T)

  /** No element occurs twice in `s`. */
  ghost predicate NoDup<T>(s: seq<T>) {
    forall i, j :: 0 <= i < j < |s| ==> s[i] != s[j]
  }

  /** `order` lists every element of `domain` exactly once and nothing else. */
  ghost predicate Enumerates<T>(order: seq<T>, domain: set<T>) {
    && NoDup(order)
    && (forall x :: x in order ==> x in domain)
    && (forall x :: x in domain ==> x in order)
  }

  /** Dropping the head of a duplicate-free sequence leaves it duplicate-free,
      and the head does not occur again. */
  lemma NoDupTail<T>(s: seq<T>)
    requires NoDup(s) && |s| > 0
    ensures NoDup(s[1..]) && s[0] !in s[1..]
  {
    forall j | 0 <= j < |s| - 1
      ensures s[1..][j] != s[0]
    {
      assert s[1..][j] == s[j + 1];
    }
  }

  /** An enumeration of a set is exactly as long as the set is large. */
  lemma {:induction false} EnumerationLength<T>(order: seq<T>, domain: set<T>)
    requires Enumerates(order, domain)
    ensures |order| == |domain|
  {
    if |order| == 0 {
      assert domain == {};
    } else {
      var rest := domain - {order[0]};
      NoDupTail(order);
      forall x | x in order[1..]
        ensures x in rest
      {
        assert x in order;
      }
      forall x | x in rest
        ensures x in order[1..]
      {
        assert x in order;
        var i :| 0 <= i < |order| && order[i] == x;
        assert i != 0;
        assert order[1..][i - 1] == x;
      }
      EnumerationLength(order[1..], rest);
    }
  }

  /** Go's `for k := range m`: visits every key of the domain once, in an
      unspecified order, modelled as a nondeterministic choice at each step. */
  method Enumerate<T(==)>(domain: set<T>) returns (order: seq<T>)
    ensures Enumerates(order, domain)
    ensures |order| == |domain|
  {
    order := [];
    var rest := domain;
    while rest != {}
      invariant rest <= domain
      invariant NoDup(order)
      invariant forall x :: x in order ==> x in domain && x !in rest
      invariant forall x :: x in domain ==> x in order || x in rest
      decreases rest
    {
      var x :| x in rest;
      order := order + [x];
      rest := rest - {x};
    }
    EnumerationLength(order, domain);
  }
}
