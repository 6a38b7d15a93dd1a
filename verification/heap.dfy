/**
 The heap operations: the private sifting primitives `up` and `down`, and
 the five exported operations `init`, `push`, `pop`, `remove` and `fix`,
 each taking the container's contents and returning its new contents (and
 the detached element, where the operation returns one).
 */
module Heap {
  import opened Orders
  import opened HeapIndex
  import opened HeapInvariant
  import opened Container

  /** The child `down` compares against its cursor `k`: the right child when
      it exists and the left one is not strictly less than it, else the left
      child. It is a least child of `k`, and ties go to the right. */
  function SelectChild<T(!new)>(a: seq<T>, k: nat, n: nat, less: (T, T) -> bool): (j: nat)
    requires StrictWeakOrder(less)
    requires Left(k) < n <= |a|
    ensures j < n && j > 0 && Parent(j) == k
    ensures forall c :: 0 < c < n && Parent(c) == k ==> !less(a[c], a[j])
    ensures Right(k) < n ==>
      (!less(a[Left(k)], a[Right(k)]) && !less(a[Right(k)], a[Left(k)]) ==> j == Right(k))
  {
    ChildrenOfParent(k, 0);
    var j1 := Left(k);
    var j2 := j1 + 1;
    if j2 < n && !less(a[j1], a[j2]) then j2 else j1
  }

  /** On a tie between the two children (equal keys, distinct elements),
      `down` picks the right one. */
  lemma TieGoesToRightChild()
    ensures var byKey := (x: (int, int), y: (int, int)) => x.0 < y.0;
      StrictWeakOrder(byKey) && SelectChild([(5, 0), (7, 1), (7, 2)], 0, 3, byKey) == 2
  {
  }

  /** After `down` from `i` moved something: the element now at `i` is a
      child of `i` from before, strictly less than the old element at `i`,
      and no child of `i` was less than it. */
  ghost predicate LeastChildRose<T>(a: seq<T>, r: seq<T>, i: nat, n: nat, less: (T, T) -> bool)
  {
    && Left(i) < n <= |a| && i < |r|
    && less(r[i], a[i])
    && (r[i] == a[Left(i)] || (Right(i) < n && r[i] == a[Right(i)]))
    && forall c :: 0 < c < n && Parent(c) == i ==> !less(a[c], r[i])
  }

  /** `down(h, i, n)`: move the element at `i` toward the leaves, inside the
      first `n` positions, until no child in the bound is less than it. */
  method Down<T(!new)>(a: seq<T>, i: nat, n: nat, less: (T, T) -> bool) returns (r: seq<T>)
    requires StrictWeakOrder(less)
    requires n <= |a|
    ensures |r| == |a| && multiset(r) == multiset(a)
    ensures forall m :: 0 <= m < |a| && !(m < n && IsAncestorOrSelf(i, m)) ==> r[m] == a[m]
    ensures HeapFrom(a, n, i + 1, less) ==> HeapFrom(r, n, i, less)
    ensures r == a <==> HeapAt(a, n, i, less)
    ensures r != a ==> LeastChildRose(a, r, i, n, less)
  {
    ghost var ready := HeapFrom(a, n, i + 1, less);
    r := a;
    var k: nat := i;
    while true
      invariant |r| == |a| && multiset(r) == multiset(a)
      invariant i <= k && IsAncestorOrSelf(i, k)
      invariant forall m :: 0 <= m < |a| && !(m < n && IsAncestorOrSelf(i, m)) ==> r[m] == a[m]
      invariant ready ==> SiftDownShape(r, n, i, k, less)
      invariant k == i ==> r == a
      invariant k != i ==> LeastChildRose(a, r, i, n, less)
      invariant HeapAt(a, n, i, less) ==> k == i
      decreases n - k
    {
      var j1 := 2 * k + 1;
      if j1 >= n {
        LeafIsHeapAt(r, n, k, less);
        break;
      }
      var j := SelectChild(r, k, n, less);
      if !less(r[j], r[k]) {
        forall c | 0 < c < n && Parent(c) == k
          ensures !less(r[c], r[k])
        {
          assert !less(r[c], r[j]);
        }
        break;
      }
      ChildInSubtree(i, k, j);
      ghost var prev := r;
      r := Swap(r, k, j);
      if ready {
        SiftDownStep(prev, r, n, i, k, j, less);
      }
      k := j;
    }
  }

  /** `up(h, j)`: move the element at `j` toward the root while it is less
      than its parent. The code takes no bound; `n` is the heap bound the
      caller maintains, used only to state what is restored. */
  method Up<T(!new)>(a: seq<T>, j: nat, ghost n: nat, less: (T, T) -> bool) returns (r: seq<T>)
    requires StrictWeakOrder(less)
    requires j < |a|
    ensures |r| == |a| && multiset(r) == multiset(a)
    ensures forall m :: 0 <= m < |a| && !IsAncestorOrSelf(m, j) ==> r[m] == a[m]
    ensures UpReady(a, j, n, less) ==> IsHeap(r, n, less)
    ensures r == a <==> j == 0 || !less(a[j], a[Parent(j)])
  {
    ghost var ready := UpReady(a, j, n, less);
    r := a;
    var k: nat := j;
    while true
      invariant |r| == |a| && multiset(r) == multiset(a)
      invariant k <= j && IsAncestorOrSelf(k, j)
      invariant forall m :: 0 <= m < |a| && !IsAncestorOrSelf(m, j) ==> r[m] == a[m]
      invariant ready ==> UpReady(r, k, n, less)
      invariant k == j ==> r == a
      invariant k != j ==> r[j] == a[Parent(j)] && less(a[j], a[Parent(j)])
      invariant j == 0 || !less(a[j], a[Parent(j)]) ==> k == j
      decreases k
    {
      var i := Parent(k);
      if i == k || !less(r[k], r[i]) {
        ParentIsSelfOnlyAtRoot(k);
        break;
      }
      ParentOfAncestor(k, j);
      ghost var prev := r;
      r := Swap(r, i, k);
      if ready {
        SiftUpStep(prev, r, n, k, less);
      }
      k := i;
    }
    if ready {
      SiftUpDone(r, n, k, less);
    }
  }

  /** `init(h)`: bottom-up heapify, sifting down every position that has a
      child, from the last such position back to the root. */
  method Init<T(!new)>(a: seq<T>, less: (T, T) -> bool) returns (r: seq<T>)
    requires StrictWeakOrder(less)
    ensures |r| == |a| && multiset(r) == multiset(a)
    ensures IsHeap(r, |r|, less)
    ensures IsHeap(a, |a|, less) ==> r == a
  {
    var n := |a|;
    r := a;
    var i := n / 2 - 1;
    forall c | 0 < c < n
      ensures Parent(c) < n / 2
    {
    }
    while i >= 0
      invariant -1 <= i < n / 2
      invariant |r| == n && multiset(r) == multiset(a)
      invariant HeapFrom(r, n, i + 1, less)
      invariant IsHeap(a, n, less) ==> r == a
      decreases i
    {
      r := Down(r, i, n, less);
      i := i - 1;
    }
  }

  /** `push(h, x)`: append `x` and sift it up from the new last position. */
  method Push<T(!new)>(a: seq<T>, x: T, less: (T, T) -> bool) returns (r: seq<T>)
    requires StrictWeakOrder(less)
    requires IsHeap(a, |a|, less)
    ensures |r| == |a| + 1
    ensures multiset(r) == multiset(a) + multiset{x}
    ensures IsHeap(r, |r|, less)
  {
    var b := a + [x];
    forall c | 0 < c < |b|
      ensures Parent(c) < |a|
    {
    }
    r := Up(b, |b| - 1, |b|, less);
  }

  /** When `down` from an overwritten position `i` moved something, the
      least child it lifted into `i` is no less than the parent of `i`, so
      the whole bound is a heap again. */
  lemma DownMovedRestoresHeap<T(!new)>(b: seq<T>, r: seq<T>, i: nat, n: nat, less: (T, T) -> bool)
    requires StrictWeakOrder(less)
    requires i < n <= |b| && |r| == |b|
    requires HeapExcept(b, n, i, less)
    requires forall m :: 0 <= m < |b| && !(m < n && IsAncestorOrSelf(i, m)) ==> r[m] == b[m]
    requires HeapFrom(r, n, i, less)
    requires LeastChildRose(b, r, i, n, less)
    ensures IsHeap(r, n, less)
  {
    forall c | 0 < c < n
      ensures !less(r[c], r[Parent(c)])
    {
      if Parent(c) < i {
        assert !IsAncestorOrSelf(i, Parent(c));
        if c == i {
          assert r[Parent(c)] == b[Parent(c)];
          assert Parent(Left(i)) == i;
        } else {
          assert r[c] == b[c] && r[Parent(c)] == b[Parent(c)];
        }
      }
    }
  }

  /** What `down` from `i` followed by `up` from `i` needs: after the value at
      `i` was overwritten, `down` either left the container alone, and then
      only `i` against its parent can be out of order, or it lifted the least
      child into `i`, and then everything is in order. */
  lemma DownThenUpReady<T(!new)>(b: seq<T>, r: seq<T>, i: nat, n: nat, less: (T, T) -> bool)
    requires StrictWeakOrder(less)
    requires i < n <= |b| && |r| == |b|
    requires HeapExcept(b, n, i, less)
    requires forall m :: 0 <= m < |b| && !(m < n && IsAncestorOrSelf(i, m)) ==> r[m] == b[m]
    requires HeapFrom(r, n, i, less)
    requires r == b <==> HeapAt(b, n, i, less)
    requires r != b ==> LeastChildRose(b, r, i, n, less)
    ensures UpReady(r, i, n, less)
  {
    if r != b {
      DownMovedRestoresHeap(b, r, i, n, less);
      HeapIsUpReady(r, i, n, less);
    }
  }

  /** `pop(h)`: swap the root with the last element, sift the new root down
      within the first `len()-1` positions, and detach the last element. */
  method Pop<T(!new)>(a: seq<T>, less: (T, T) -> bool) returns (x: T, r: seq<T>)
    requires StrictWeakOrder(less)
    requires |a| >= 1 && IsHeap(a, |a|, less)
    ensures x == a[0]
    ensures forall k :: 0 <= k < |a| ==> !less(a[k], x)
    ensures |r| == |a| - 1 && multiset(a) == multiset(r) + multiset{x}
    ensures IsHeap(r, |r|, less)
    ensures forall k :: 0 <= k < |r| ==> !less(r[k], x)
  {
    var n := |a| - 1;
    var b := Swap(a, 0, n);
    HeapChangedAt(a, b, n, 0, less);
    var c := Down(b, 0, n, less);
    var detached := RemoveLast(c);
    x, r := detached.1, detached.0;
    HeapPrefix(c, n, n, less);
    assert r == c[..n];
    forall k | 0 <= k < |a|
      ensures !less(a[k], x)
    {
      RootIsMinimum(a, |a|, k, less);
    }
    forall k | 0 <= k < |r|
      ensures !less(r[k], x)
    {
      assert r[k] in multiset(a);
      var m :| 0 <= m < |a| && a[m] == r[k];
    }
  }

  /** `remove(h, i)`: unless `i` is the last position, swap it with the last
      element, sift down then up from `i` within the first `len()-1`
      positions; then detach the last element, which is the one that was at
      `i`. */
  method Remove<T(!new)>(a: seq<T>, i: nat, less: (T, T) -> bool) returns (x: T, r: seq<T>)
    requires StrictWeakOrder(less)
    requires i < |a| && IsHeap(a, |a|, less)
    ensures x == a[i]
    ensures |r| == |a| - 1 && multiset(a) == multiset(r) + multiset{x}
    ensures IsHeap(r, |r|, less)
    ensures i == |a| - 1 ==> r == a[..i]
  {
    var n := |a| - 1;
    var d := a;
    if n != i {
      var b := Swap(a, i, n);
      HeapChangedAt(a, b, n, i, less);
      var c := Down(b, i, n, less);
      DownThenUpReady(b, c, i, n, less);
      d := Up(c, i, n, less);
      assert !IsAncestorOrSelf(n, i);
    } else {
      HeapPrefix(a, |a|, n, less);
    }
    var detached := RemoveLast(d);
    x, r := detached.1, detached.0;
    assert r == d[..n];
  }

  /** `fix(h, i)`: after the element at `i` changed its value, sift down from
      `i` over the whole container and then sift up from `i`. */
  method Fix<T(!new)>(a: seq<T>, i: nat, less: (T, T) -> bool) returns (r: seq<T>)
    requires StrictWeakOrder(less)
    requires i < |a| && HeapExcept(a, |a|, i, less)
    ensures |r| == |a| && multiset(r) == multiset(a)
    ensures IsHeap(r, |r|, less)
    ensures IsHeap(a, |a|, less) ==> r == a
  {
    var c := Down(a, i, |a|, less);
    DownThenUpReady(a, c, i, |a|, less);
    r := Up(c, i, |a|, less);
  }
}
