/**
 The min-heap invariant over the first `n` positions of a container, and
 the weakened forms of it that hold while `up` and `down` are half-way
 through restoring it.
 */
module HeapInvariant {
  import opened Orders
  import opened HeapIndex

  /** No element among the first `n` compares less than its parent. */
  ghost predicate IsHeap<T>(a: seq<T>, n: nat, less: (T, T) -> bool)
  {
    n <= |a| && forall c :: 0 < c < n ==> !less(a[c], a[Parent(c)])
  }

  /** The invariant holds for every parent at position `lo` or beyond; this
      is what bottom-up heapify has established after visiting `lo`. */
  ghost predicate HeapFrom<T>(a: seq<T>, n: nat, lo: nat, less: (T, T) -> bool)
  {
    n <= |a| && forall c :: 0 < c < n && lo <= Parent(c) ==> !less(a[c], a[Parent(c)])
  }

  /** Neither child of `k` inside the bound compares less than `k`. */
  ghost predicate HeapAt<T>(a: seq<T>, n: nat, k: nat, less: (T, T) -> bool)
  {
    n <= |a| && forall c :: 0 < c < n && Parent(c) == k ==> !less(a[c], a[k])
  }

  /** The shape a heap has after the value at `i` was overwritten: every
      pair not involving `i` is ordered, and the children of `i` are still
      no less than the parent of `i`. */
  ghost predicate HeapExcept<T>(a: seq<T>, n: nat, i: nat, less: (T, T) -> bool)
  {
    && n <= |a|
    && (forall c :: 0 < c < n && c != i && Parent(c) != i ==> !less(a[c], a[Parent(c)]))
    && (0 < i < n ==> forall c :: 0 < c < n && Parent(c) == i ==> !less(a[c], a[Parent(i)]))
  }

  /** The shape `up` expects with its cursor at `j`: every pair is ordered
      except possibly `j` against its parent, and the children of `j` are no
      less than that parent. */
  ghost predicate UpReady<T>(a: seq<T>, j: nat, n: nat, less: (T, T) -> bool)
  {
    && j < n <= |a|
    && (forall c :: 0 < c < n && c != j ==> !less(a[c], a[Parent(c)]))
    && (j > 0 ==> forall c :: 0 < c < n && Parent(c) == j ==> !less(a[c], a[Parent(j)]))
  }

  /** The shape `down` keeps with its cursor at `k` after starting from `i`:
      every pair whose parent is at `i` or beyond is ordered, except at the
      cursor, and once the cursor has left `i` its children are no less than
      its parent. */
  ghost predicate SiftDownShape<T>(a: seq<T>, n: nat, i: nat, k: nat, less: (T, T) -> bool)
  {
    && n <= |a|
    && (forall c :: 0 < c < n && i <= Parent(c) && Parent(c) != k ==> !less(a[c], a[Parent(c)]))
    && (k != i ==> forall c :: 0 < c < n && Parent(c) == k ==> !less(a[c], a[Parent(k)]))
  }

  /** A position with no child inside the bound is trivially in order. */
  lemma LeafIsHeapAt<T>(a: seq<T>, n: nat, k: nat, less: (T, T) -> bool)
    requires n <= |a| && Left(k) >= n
    ensures HeapAt(a, n, k, less)
  {
    forall c | 0 < c < n
      ensures Parent(c) != k
    {
      ChildrenOfParent(k, c);
    }
  }

  /** One swap of `down`: exchanging the cursor `k` with its least child `j`,
      when that child is less than it, moves the exception down to `j`. */
  lemma SiftDownStep<T(!new)>(a: seq<T>, r: seq<T>, n: nat, i: nat, k: nat, j: nat, less: (T, T) -> bool)
    requires StrictWeakOrder(less)
    requires SiftDownShape(a, n, i, k, less)
    requires i <= k && 0 < j < n && Parent(j) == k
    requires less(a[j], a[k])
    requires forall c :: 0 < c < n && Parent(c) == k ==> !less(a[c], a[j])
    requires |r| == |a| && r[k] == a[j] && r[j] == a[k]
    requires forall m :: 0 <= m < |a| && m != k && m != j ==> r[m] == a[m]
    ensures SiftDownShape(r, n, i, j, less)
  {
    forall c | 0 < c < n && i <= Parent(c) && Parent(c) != j
      ensures !less(r[c], r[Parent(c)])
    {
      if c == j {
      } else if Parent(c) == k {
        assert !less(a[c], a[j]);
      } else if c == k {
        assert !less(a[j], a[Parent(k)]);
      } else {
        assert c != j && Parent(c) != j && Parent(c) != k;
      }
    }
    forall c | 0 < c < n && Parent(c) == j
      ensures !less(r[c], r[Parent(j)])
    {
      assert c != k && c != j && !less(a[c], a[j]);
    }
  }

  /** One swap of `up`: exchanging the cursor `k` with its parent, when the
      cursor is less than it, moves the exception up to the parent. */
  lemma SiftUpStep<T(!new)>(a: seq<T>, r: seq<T>, n: nat, k: nat, less: (T, T) -> bool)
    requires StrictWeakOrder(less)
    requires UpReady(a, k, n, less)
    requires k > 0 && less(a[k], a[Parent(k)])
    requires |r| == |a| && r[k] == a[Parent(k)] && r[Parent(k)] == a[k]
    requires forall m :: 0 <= m < |a| && m != k && m != Parent(k) ==> r[m] == a[m]
    ensures UpReady(r, Parent(k), n, less)
  {
    var p := Parent(k);
    forall c | 0 < c < n && c != p
      ensures !less(r[c], r[Parent(c)])
    {
      if c == k {
      } else if Parent(c) == k {
        assert !less(a[c], a[p]);
      } else if Parent(c) == p {
        assert !less(a[c], a[p]);
      } else {
        assert c != k && c != p && Parent(c) != k && Parent(c) != p;
      }
    }
    if p > 0 {
      forall c | 0 < c < n && Parent(c) == p
        ensures !less(r[c], r[Parent(p)])
      {
        assert !less(a[p], a[Parent(p)]);
        if c != k {
          assert !less(a[c], a[p]);
        }
      }
    }
  }

  /** When `up` stops, the whole bound is in order. */
  lemma SiftUpDone<T>(a: seq<T>, n: nat, k: nat, less: (T, T) -> bool)
    requires UpReady(a, k, n, less)
    requires k == 0 || !less(a[k], a[Parent(k)])
    ensures IsHeap(a, n, less)
  {
  }

  /** The recursive check the repository's test harness runs after every
      operation: walk down from `i` and compare each child with its parent. */
  predicate VerifiedFrom<T>(a: seq<T>, i: nat, less: (T, T) -> bool)
    decreases |a| - i
  {
    && (Left(i) < |a| ==> !less(a[Left(i)], a[i]) && VerifiedFrom(a, Left(i), less))
    && (Right(i) < |a| ==> !less(a[Right(i)], a[i]) && VerifiedFrom(a, Right(i), less))
  }

  lemma {:induction false} HeapVerifiesFrom<T>(a: seq<T>, i: nat, less: (T, T) -> bool)
    requires IsHeap(a, |a|, less)
    ensures VerifiedFrom(a, i, less)
    decreases |a| - i
  {
    ChildrenOfParent(i, 0);
    if Left(i) < |a| {
      HeapVerifiesFrom(a, Left(i), less);
    }
    if Right(i) < |a| {
      HeapVerifiesFrom(a, Right(i), less);
    }
  }

  lemma {:induction false} VerifiedReachesEveryNode<T>(a: seq<T>, k: nat, less: (T, T) -> bool)
    requires VerifiedFrom(a, 0, less)
    requires k < |a|
    ensures VerifiedFrom(a, k, less)
    decreases k
  {
    if k > 0 {
      VerifiedReachesEveryNode(a, Parent(k), less);
      ChildrenOfParent(Parent(k), k);
    }
  }

  /** The test harness's recursive check from the root accepts exactly the
      heaps. */
  lemma VerifiedIffHeap<T>(a: seq<T>, less: (T, T) -> bool)
    ensures VerifiedFrom(a, 0, less) <==> IsHeap(a, |a|, less)
  {
    if VerifiedFrom(a, 0, less) {
      forall c | 0 < c < |a|
        ensures !less(a[c], a[Parent(c)])
      {
        VerifiedReachesEveryNode(a, Parent(c), less);
        ChildrenOfParent(Parent(c), c);
      }
    }
    if IsHeap(a, |a|, less) {
      HeapVerifiesFrom(a, 0, less);
    }
  }

  /** Position 0 of a heap holds a minimum: nothing in the heap is less. */
  lemma {:induction false} RootIsMinimum<T(!new)>(a: seq<T>, n: nat, k: nat, less: (T, T) -> bool)
    requires StrictWeakOrder(less)
    requires IsHeap(a, n, less)
    requires k < n
    ensures !less(a[k], a[0])
    decreases k
  {
    if k > 0 {
      RootIsMinimum(a, n, Parent(k), less);
    }
  }

  /** Overwriting position `i` of a heap (with the rest of the first `n`
      positions kept) leaves the shape `fix` starts from. */
  lemma HeapChangedAt<T(!new)>(h: seq<T>, b: seq<T>, n: nat, i: nat, less: (T, T) -> bool)
    requires StrictWeakOrder(less)
    requires IsHeap(h, n, less)
    requires n <= |b|
    requires forall k :: 0 <= k < n && k != i ==> b[k] == h[k]
    ensures HeapExcept(b, n, i, less)
  {
    if 0 < i < n {
      forall c | 0 < c < n && Parent(c) == i
        ensures !less(b[c], b[Parent(i)])
      {
        assert !less(h[c], h[i]) && !less(h[i], h[Parent(i)]);
      }
    }
  }

  /** A valid heap is ready for `up` at any position. */
  lemma HeapIsUpReady<T(!new)>(a: seq<T>, j: nat, n: nat, less: (T, T) -> bool)
    requires StrictWeakOrder(less)
    requires IsHeap(a, n, less)
    requires j < n
    ensures UpReady(a, j, n, less)
  {
    if j > 0 {
      forall c | 0 < c < n && Parent(c) == j
        ensures !less(a[c], a[Parent(j)])
      {
        assert !less(a[c], a[j]) && !less(a[j], a[Parent(j)]);
      }
    }
  }

  /** The first `m` positions of a heap on `n >= m` positions form a heap. */
  lemma HeapPrefix<T>(a: seq<T>, n: nat, m: nat, less: (T, T) -> bool)
    requires IsHeap(a, n, less)
    requires m <= n
    ensures IsHeap(a[..m], m, less)
  {
  }
}
