/**
 The ordering a heap container supplies through `less(i, j)`. The heap
 operations only ever ask "is this element strictly less than that one",
 and their guarantees hold when that question is answered by a strict weak
 ordering: irreflexive, transitive, and with incomparability transitive
 (equivalently, "not less than" is transitive).
 */
module Orders {

  /** `less` is a strict weak ordering on `T`. */
  ghost predicate StrictWeakOrder<T(!new)>(less: (T, T) -> bool)
  {
    && (forall x :: !less(x, x))
    && (forall x, y, z :: less(x, y) && less(y, z) ==> less(x, z))
    && (forall x, y, z :: !less(x, y) && !less(y, z) ==> !less(x, z))
  }

  /** A sequence is in non-decreasing order under `less`: no element is
      strictly less than the one before it. */
  ghost predicate NonDecreasing<T>(s: seq<T>, less: (T, T) -> bool)
  {
    forall k :: 0 < k < |s| ==> !less(s[k], s[k - 1])
  }

  /** The ordering on integers the test harness uses. */
  lemma IntLessIsStrictWeakOrder()
    ensures StrictWeakOrder((x: int, y: int) => x < y)
  {
  }
}
