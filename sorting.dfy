/** The fitness-keyed `std::sort` calls of both programs. The library's algorithm is not
    part of the model; what the callers rely on is its result: the same elements, in
    non-decreasing order of the key. An insertion sort by adjacent swaps stands in for
    it; any order `std::sort` may choose among elements of equal key satisfies the same
    contract. */
module Sorting {

  predicate SortedByKey<T>(s: seq<T>, key: T -> int) {
    forall p, q :: 0 <= p < q < |s| ==> key(s[p]) <= key(s[q])
  }

  /** Sorts `a` in place by `key`, keeping its elements. */
  method SortByKey<T>(a: array<T>, key: T -> int)
    modifies a
    ensures SortedByKey(a[..], key)
    ensures multiset(a[..]) == multiset(old(a[..]))
  {
    var i := 0;
    while i < a.Length
      invariant 0 <= i <= a.Length
      invariant SortedByKey(a[..i], key)
      invariant multiset(a[..]) == multiset(old(a[..]))
    {
      InsertLast(a, i, key);
      i := i + 1;
    }
    assert a[..] == a[..a.Length];
  }

  /** Moves `a[i]` down into the sorted prefix `a[..i]`. */
  method InsertLast<T>(a: array<T>, i: int, key: T -> int)
    requires 0 <= i < a.Length
    requires SortedByKey(a[..i], key)
    modifies a
    ensures SortedByKey(a[..i + 1], key)
    ensures multiset(a[..]) == multiset(old(a[..]))
  {
    var j := i;
    while j > 0 && key(a[j - 1]) > key(a[j])
      invariant 0 <= j <= i
      invariant forall p, q :: 0 <= p < q <= i && q != j ==> key(a[p]) <= key(a[q])
      invariant multiset(a[..]) == multiset(old(a[..]))
    {
      SwapAdjacent(a, j);
      j := j - 1;
    }
  }

  method SwapAdjacent<T>(a: array<T>, j: int)
    requires 0 < j < a.Length
    modifies a
    ensures a[j - 1] == old(a[j]) && a[j] == old(a[j - 1])
    ensures forall k :: 0 <= k < a.Length && k != j - 1 && k != j ==> a[k] == old(a[k])
    ensures multiset(a[..]) == multiset(old(a[..]))
  {
    a[j - 1], a[j] := a[j], a[j - 1];
  }
}
