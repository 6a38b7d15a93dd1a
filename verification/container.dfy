/**
 The container capabilities the heap operations use, on a container
 modelled as the sequence of its elements: `len()` is `|a|`, `less(i, j)` is
 `less(a[i], a[j])`, `push(x)` is `a + [x]`, and `swap` and `pop` are below.
 */
module Container {

  /** `swap(i, j)`: exchange two positions and leave the rest in place. */
  function Swap<T>(a: seq<T>, i: nat, j: nat): (r: seq<T>)
    requires i < |a| && j < |a|
    ensures |r| == |a|
    ensures r[i] == a[j] && r[j] == a[i]
    ensures forall k :: 0 <= k < |a| && k != i && k != j ==> r[k] == a[k]
    ensures multiset(r) == multiset(a)
  {
    a[i := a[j]][j := a[i]]
  }

  /** `pop()`: detach the last element; the rest keeps its order and the
      two together make up the old contents. */
  function RemoveLast<T>(a: seq<T>): (res: (seq<T>, T))
    requires |a| > 0
    ensures |res.0| == |a| - 1 && a == res.0 + [res.1]
    ensures multiset(a) == multiset(res.0) + multiset{res.1}
  {
    var rest := a[..|a| - 1];
    assert a == rest + [a[|a| - 1]];
    (rest, a[|a| - 1])
  }
}
