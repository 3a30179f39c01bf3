/**
 The recency list kept beside both caches of the warmed-host registry: a queue
 of keys, oldest first, in which every key occurs at most once.
 */
module Lru {

  ghost predicate NoDup<K>(order: seq<K>) {
    forall i, j :: 0 <= i < j < |order| ==> order[i] != order[j]
  }

  function Elements<K>(order: seq<K>): set<K> {
    set k | k in order
  }

  /** `retain(|candidate| candidate != key)`. */
  function Without<K(==, !new)>(order: seq<K>, key: K): (r: seq<K>)
    ensures forall k :: k in r <==> k in order && k != key
  {
    if order == [] then []
    else if order[0] == key then Without(order[1..], key)
    else [order[0]] + Without(order[1..], key)
  }

  /** `retain(|candidate| !keys.contains(candidate))`. */
  function WithoutAll<K(==, !new)>(order: seq<K>, keys: set<K>): (r: seq<K>)
    ensures forall k :: k in r <==> k in order && k !in keys
  {
    if order == [] then []
    else if order[0] in keys then WithoutAll(order[1..], keys)
    else [order[0]] + WithoutAll(order[1..], keys)
  }

  /** `touch_lru`: drop every occurrence, then append as the newest. */
  function Touch<K(==, !new)>(order: seq<K>, key: K): (r: seq<K>) {
    Without(order, key) + [key]
  }

  lemma {:induction false} WithoutAbsent<K(!new)>(order: seq<K>, key: K)
    requires key !in order
    ensures Without(order, key) == order
  {
    if order == [] {
    } else {
      WithoutAbsent(order[1..], key);
    }
  }

  lemma {:induction false} WithoutConcat<K(!new)>(a: seq<K>, b: seq<K>, key: K)
    ensures Without(a + b, key) == Without(a, key) + Without(b, key)
  {
    if a == [] {
      assert a + b == b;
    } else {
      assert (a + b)[1..] == a[1..] + b;
      WithoutConcat(a[1..], b, key);
    }
  }

  lemma WithoutMiddle<K(!new)>(a: seq<K>, b: seq<K>, key: K)
    requires key !in a && key !in b
    ensures Without(a + ([key] + b), key) == a + b
  {
    WithoutConcat(a, [key] + b, key);
    WithoutConcat([key], b, key);
    WithoutAbsent(a, key);
    WithoutAbsent(b, key);
    assert Without([key], key) == [];
  }

  lemma SplitAround<K>(order: seq<K>, i: nat)
    requires i < |order|
    ensures order[..i] + ([order[i]] + order[i + 1..]) == order
  {
    assert [order[i]] + order[i + 1..] == order[i..];
  }

  lemma OnceOnly<K(!new)>(order: seq<K>, i: nat)
    requires NoDup(order) && i < |order|
    ensures order[i] !in order[..i] && order[i] !in order[i + 1..]
  {
  }

  /** In a duplicate-free list exactly one position disappears. */
  lemma WithoutAt<K(!new)>(order: seq<K>, i: nat)
    requires NoDup(order) && i < |order|
    ensures Without(order, order[i]) == order[..i] + order[i + 1..]
  {
    hide NoDup, Without;
    OnceOnly(order, i);
    var a, b, key := order[..i], order[i + 1..], order[i];
    SplitAround(order, i);
    WithoutMiddle(a, b, key);
  }

  lemma WithoutNoDup<K(!new)>(order: seq<K>, key: K)
    requires NoDup(order)
    ensures NoDup(Without(order, key))
    ensures |Without(order, key)| == |order| - (if key in order then 1 else 0)
  {
    if key in order {
      var i :| 0 <= i < |order| && order[i] == key;
      WithoutAt(order, i);
    } else {
      WithoutAbsent(order, key);
    }
  }

  lemma TouchNoDup<K(!new)>(order: seq<K>, key: K)
    requires NoDup(order)
    ensures NoDup(Touch(order, key))
    ensures |Touch(order, key)| == |order| + (if key in order then 0 else 1)
    ensures Elements(Touch(order, key)) == Elements(order) + {key}
  {
    WithoutNoDup(order, key);
  }

  lemma {:induction false} WithoutAllNoDup<K(!new)>(order: seq<K>, keys: set<K>)
    requires NoDup(order)
    ensures NoDup(WithoutAll(order, keys))
  {
    if order == [] {
    } else {
      WithoutAllNoDup(order[1..], keys);
    }
  }

  lemma {:induction false} WithoutAllAbsent<K(!new)>(order: seq<K>, keys: set<K>)
    requires forall k | k in keys :: k !in order
    ensures WithoutAll(order, keys) == order
  {
    if order == [] {
    } else {
      WithoutAllAbsent(order[1..], keys);
    }
  }

  lemma {:induction false} NoDupCardinality<K(!new)>(order: seq<K>)
    requires NoDup(order)
    ensures |Elements(order)| == |order|
  {
    if order == [] {
    } else {
      NoDupCardinality(order[1..]);
      assert Elements(order) == {order[0]} + Elements(order[1..]);
    }
  }

  /** The newest `n` positions of a list, or all of it. */
  function Newest<K>(order: seq<K>, n: nat): seq<K> {
    if |order| <= n then order else order[|order| - n..]
  }

  lemma NewestTail<K>(order: seq<K>, n: nat)
    requires |order| > n
    ensures Newest(order[1..], n) == Newest(order, n)
  {
    assert |order[1..]| - n + 1 == |order| - n;
  }

  lemma NewestLast<K>(order: seq<K>, n: nat)
    requires n >= 1 && order != []
    ensures Newest(order, n) != [] && Newest(order, n)[|Newest(order, n)| - 1] == order[|order| - 1]
  {
  }

  lemma {:induction false} SubsetSize<K>(small: set<K>, big: set<K>)
    requires small <= big
    ensures |small| <= |big|
  {
    assert big == small + (big - small);
    assert |big| == |small| + |big - small|;
  }
}
