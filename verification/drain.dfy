/**
 What repeated `pop` delivers: popping a heap until it is empty yields its
 elements in non-decreasing order, and `init` followed by that yields any
 container's elements sorted.
 */
module Drain {
  import opened Orders
  import opened HeapInvariant
  import opened Heap

  /** Pop a heap until it is empty, collecting the popped elements. */
  method PopAll<T(!new)>(h: seq<T>, less: (T, T) -> bool) returns (out: seq<T>)
    requires StrictWeakOrder(less)
    requires IsHeap(h, |h|, less)
    ensures |out| == |h| && multiset(out) == multiset(h)
    ensures NonDecreasing(out, less)
  {
    out := [];
    var rest := h;
    while |rest| > 0
      invariant IsHeap(rest, |rest|, less)
      invariant multiset(out) + multiset(rest) == multiset(h)
      invariant |out| + |rest| == |h|
      invariant NonDecreasing(out, less)
      invariant |out| > 0 ==> forall k :: 0 <= k < |rest| ==> !less(rest[k], out[|out| - 1])
      decreases |rest|
    {
      var x;
      x, rest := Pop(rest, less);
      out := out + [x];
    }
  }

  /** Heapify an arbitrary container and pop it empty: the elements come out
      sorted. */
  method InitThenPopAll<T(!new)>(a: seq<T>, less: (T, T) -> bool) returns (out: seq<T>)
    requires StrictWeakOrder(less)
    ensures |out| == |a| && multiset(out) == multiset(a)
    ensures NonDecreasing(out, less)
  {
    var h := Init(a, less);
    out := PopAll(h, less);
  }
}
