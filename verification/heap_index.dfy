/**
 Index arithmetic of the implicit binary tree laid over positions
 `0 .. n-1`: the children of `i` are `2i+1` and `2i+2`, and the parent of
 `j` is `(j-1)/2` with JavaScript's truncating division, so that the root
 is its own parent.
 */
module HeapIndex {

  /** `Math.trunc(x / 2)`: halving rounded toward zero, unlike Dafny's `/`
      which rounds toward negative infinity. */
  function TruncHalf(x: int): (r: int)
    ensures x >= 0 ==> 0 <= r && r + r <= x < r + r + 2
    ensures x < 0 ==> r <= 0 && x <= r + r < x + 2
  {
    if x >= 0 then x / 2 else -((-x) / 2)
  }

  /** The parent position of `j`; the root is its own parent. */
  function Parent(j: nat): (p: nat)
    ensures j == 0 ==> p == 0
    ensures j > 0 ==> p < j && (j == 2 * p + 1 || j == 2 * p + 2)
  {
    TruncHalf(j - 1)
  }

  function Left(i: nat): nat { 2 * i + 1 }

  function Right(i: nat): nat { 2 * i + 2 }

  /** `up` stops when the computed parent equals the cursor: that happens
      exactly at the root. */
  lemma ParentIsSelfOnlyAtRoot(j: nat)
    ensures Parent(j) == j <==> j == 0
  {
  }

  /** Both children of `i` have `i` as their parent, and every non-root
      position is one of its parent's two children. */
  lemma ChildrenOfParent(i: nat, c: nat)
    ensures Parent(Left(i)) == i && Parent(Right(i)) == i
    ensures c > 0 && Parent(c) == i ==> c == Left(i) || c == Right(i)
  {
  }

  /** `p` lies on the path from the root down to `d` (`d` itself included),
      that is, `d` is in the subtree rooted at `p`. */
  predicate IsAncestorOrSelf(p: nat, d: nat)
    decreases d
  {
    d == p || (d > p && IsAncestorOrSelf(p, Parent(d)))
  }

  lemma {:induction false} AncestorIsNotBelow(p: nat, d: nat)
    requires IsAncestorOrSelf(p, d)
    ensures p <= d
  {
  }

  /** Moving the cursor from `k` to its parent stays on the root path of `d`. */
  lemma {:induction false} ParentOfAncestor(k: nat, d: nat)
    requires k > 0 && IsAncestorOrSelf(k, d)
    ensures IsAncestorOrSelf(Parent(k), d)
    decreases d
  {
    if d != k {
      ParentOfAncestor(k, Parent(d));
    }
  }

  /** A child of a node in the subtree of `p` is in the subtree of `p`. */
  lemma ChildInSubtree(p: nat, k: nat, c: nat)
    requires IsAncestorOrSelf(p, k)
    requires c > 0 && Parent(c) == k
    ensures IsAncestorOrSelf(p, c)
  {
    AncestorIsNotBelow(p, k);
  }
}
