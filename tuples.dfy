/** Records flowing through the join, the configured sort order and the key comparator. */
module Tuples {

  /** A tuple read from an input relation: its join-key value and the rest of the record. */
  datatype Tuple = Tuple(key: int, payload: string)

  /** The order both inputs are sorted in (TupleOrder.Ascending / TupleOrder.Descending). */
  datatype Order = Ascending | Descending

  /** Position of a key along the configured order: descending order is ascending order on -key. */
  function Rank(order: Order, k: int): int
  {
    if order == Ascending then k else -k
  }

  /** Key `a` comes strictly before key `b` in the configured order. */
  predicate Precedes(order: Order, a: int, b: int)
  {
    Rank(order, a) < Rank(order, b)
  }

  /** The key at position `i` of `s` does not come after the key at position `j`. */
  predicate InOrder(order: Order, s: seq<Tuple>, i: int, j: int)
    requires 0 <= i < |s| && 0 <= j < |s|
  {
    Rank(order, s[i].key) <= Rank(order, s[j].key)
  }

  /** `s` is sorted on the join key in the configured order (non-decreasing, or non-increasing). */
  predicate Sorted(order: Order, s: seq<Tuple>)
  {
    forall i, j :: 0 <= i < j < |s| ==> InOrder(order, s, i, j)
  }

  /** The key comparator: negative, zero or positive as `a`'s key is below, equal to or above `b`'s.
      The orientation of the sort is applied by the caller, not here. */
  function CompareKeys(a: Tuple, b: Tuple): (c: int)
    ensures c < 0 <==> a.key < b.key
    ensures c == 0 <==> a.key == b.key
    ensures c > 0 <==> a.key > b.key
  {
    if a.key < b.key then -1 else if a.key == b.key then 0 else 1
  }

  /** The comparison result `c` of outer against inner says that the outer key is behind in `order`. */
  predicate OuterBehind(order: Order, c: int)
  {
    (c < 0 && order == Ascending) || (c > 0 && order == Descending)
  }

  /** The driver's test agrees with the order: the outer side is behind exactly when its key
      precedes the inner key, and the inner side is behind exactly when the reverse holds. */
  lemma BehindMeansPrecedes(order: Order, outer: Tuple, inner: Tuple)
    ensures OuterBehind(order, CompareKeys(outer, inner)) <==> Precedes(order, outer.key, inner.key)
    ensures OuterBehind(order, CompareKeys(inner, outer)) <==> Precedes(order, inner.key, outer.key)
  {
  }

  /** A suffix of a sorted sequence is sorted. */
  lemma SortedSuffix(order: Order, s: seq<Tuple>, n: nat)
    requires Sorted(order, s) && n <= |s|
    ensures Sorted(order, s[n..])
  {
    forall i, j | 0 <= i < j < |s[n..]|
      ensures InOrder(order, s[n..], i, j)
    {
      assert s[n..][i] == s[n + i] && s[n..][j] == s[n + j];
      assert InOrder(order, s, n + i, n + j);
    }
  }
}
