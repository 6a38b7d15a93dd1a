# heapjs binary min-heap operations in Dafny

This project models `heapjs`, a JavaScript port of Go's `container/heap`. The
library owns no storage. It rearranges a caller-owned container that offers
`len`, `less`, `swap`, `push` and `pop`, and it does so only by swapping. The
model covers its five exported operations `init`, `push`, `pop`, `remove` and
`fix`, plus the two private primitives they are built from: `up` sifts toward
the root and `down` sifts toward the leaves.

The container is modelled as the sequence of its elements (`seq<T>`). The
`less(i, j)` capability becomes a function `less: (T, T) -> bool` applied to
the elements at those positions. Every operation takes the container's
contents and returns the new contents, plus the detached element for `pop`
and `remove`. Every rearrangement goes through `Container.Swap` or
`Container.RemoveLast`, the same capabilities the code calls.

Modules:

- `Orders` (orders.dfy): `StrictWeakOrder`, which is what `less` must be for
  the guarantees to hold. Also `NonDecreasing`.
- `HeapIndex` (heap_index.dfy): child and parent arithmetic. The parent is
  `Math.trunc((j - 1) / 2)`, written out with truncating halving, so the root
  is its own parent. The module also defines the ancestor/subtree relation.
- `HeapInvariant` (heap_invariant.dfy): the heap invariant `IsHeap(a, n, less)`,
  meaning no child within the first `n` positions compares less than its
  parent. It also holds the partial forms the sift loops maintain, and the test
  harness's recursive check `VerifiedFrom`, proved equivalent to `IsHeap`.
- `Container` (container.dfy): the container's `swap` and `pop` capabilities.
- `Heap` (heap.dfy): `SelectChild`, `Down`, `Up`, `Init`, `Push`, `Pop`,
  `Remove` and `Fix`.
- `Drain` (drain.dfy): popping a heap until it is empty yields its elements
  sorted.

`down` sends ties to the right child (src/heap.js:97-98): it selects the
right child whenever the left one is not strictly less than it.
`Heap.SelectChild` states this for all inputs, and `Heap.TieGoesToRightChild`
shows one concrete case.

The code has no error path. `pop` on an empty container calls `swap(0, -1)`,
and `remove`/`fix` index outside the container. The model therefore makes
these preconditions: `|a| >= 1` for `Pop`, and `i < |a|` for `Remove` and
`Fix`.

## Model

| member | source | states |
|---|---|---|
| `HeapIndex.TruncHalf` | src/heap.js:80 | halving rounds toward zero for negative and non-negative input alike, so the parent of the root is 0 and not -1 |
| `HeapIndex.Parent` | src/heap.js:80 | the parent of a non-root position is strictly smaller and has that position as its left or right child; the root's parent is itself |
| `HeapIndex.ParentIsSelfOnlyAtRoot` | src/heap.js:80-83 | the `i == j` stop test of `up` fires exactly at the root |
| `HeapIndex.ChildrenOfParent` | src/heap.js:91-98 | `2i+1` and `2i+2` have parent `i`, and they are the only positions that do |
| `HeapIndex.ParentOfAncestor` | src/heap.js:84-85 | moving `up`'s cursor to its parent keeps it on the root path of the start position |
| `HeapIndex.ChildInSubtree` | src/heap.js:103-104 | moving `down`'s cursor to a child keeps it in the subtree of the start position |
| `HeapIndex.AncestorIsNotBelow` | src/heap.js:84-85 | an ancestor's position is never greater than its descendant's |
| `Container.Swap` | src/heap.js:23 | the container's swap exchanges the two positions, keeps every other position and keeps the multiset of elements |
| `Container.RemoveLast` | src/heap.js:20 | the container's pop detaches the last element; the rest plus that element is the old container |
| `HeapInvariant.VerifiedIffHeap` | test/heap.js:33-45 | the test harness's recursive check from the root accepts a container exactly when no child is less than its parent |
| `HeapInvariant.HeapVerifiesFrom` | test/heap.js:33-45 | on a heap, the harness's check passes from every position |
| `HeapInvariant.VerifiedReachesEveryNode` | test/heap.js:37-44 | when the harness's check passes from the root, it passes from every position, because its recursion reaches all of them |
| `HeapInvariant.RootIsMinimum` | src/heap.js:46-47 | nothing in a heap is less than the element at position 0 |
| `HeapInvariant.HeapChangedAt` | src/heap.js:68-70 | overwriting one position of a heap leaves every pair away from it ordered, and that position's children no less than its parent |
| `HeapInvariant.HeapIsUpReady` | src/heap.js:73-74 | a valid heap meets what `up` needs at any position |
| `HeapInvariant.HeapPrefix` | src/heap.js:50-53 | the first `m` positions of a heap form a heap, which is why detaching the last element keeps the invariant |
| `HeapInvariant.LeafIsHeapAt` | src/heap.js:91-94 | a position whose left child is outside the bound has nothing to compare, so `down` may stop there |
| `HeapInvariant.SiftDownStep` | src/heap.js:95-104 | swapping the cursor with its least child, when that child is less, restores order at the cursor and moves the only exception down to the child |
| `HeapInvariant.SiftUpStep` | src/heap.js:80-85 | swapping the cursor with a greater parent restores order below and moves the only exception up to the parent |
| `HeapInvariant.SiftUpDone` | src/heap.js:81-83 | when `up` stops at the root or under a parent that is not greater, the whole bound is a heap |
| `Heap.SelectChild` | src/heap.js:95-99 | `down` compares against a child inside the bound that no other child of the cursor is less than; on a tie it is the right child |
| `Heap.TieGoesToRightChild` | src/heap.js:97-98 | with two children of equal key, the right one (position 2) is chosen |
| `Heap.Down` | src/heap.js:89-106 | only positions in the subtree of `i` and below `n` move (everything at `n` or beyond is untouched); the multiset is kept; when the invariant held for every parent after `i`, it holds from `i` on; nothing moves exactly when no child of `i` is less than it; otherwise the least child rises into `i` |
| `Heap.Up` | src/heap.js:78-87 | only positions on the root path of `j` move; the multiset is kept; when every pair except `j` against its parent is ordered and the children of `j` are no less than the parent of `j`, the result is a heap; nothing moves exactly when `j` is the root or its parent is not greater |
| `Heap.Init` | src/heap.js:32-37 | any container becomes a heap holding the same multiset; a container that is already a heap is returned unchanged (idempotence) |
| `Heap.Push` | src/heap.js:41-44 | a heap with `x` pushed is a heap one longer whose multiset gains `x` |
| `Heap.DownMovedRestoresHeap` | src/heap.js:61-62 | when `down` from an overwritten position moved something, the container is a heap again, because the child lifted into that position is no less than its parent |
| `Heap.DownThenUpReady` | src/heap.js:61-63 | after one position of a heap was overwritten, `down` from it leaves the container in the shape `up` from the same position repairs |
| `Heap.Pop` | src/heap.js:49-54 | returns the former element at position 0, which nothing in the heap is less than; the rest is a heap one shorter whose multiset lacks that element, and none of it is less than the returned element |
| `Heap.Remove` | src/heap.js:58-66 | returns the element that was at `i`; the rest is a heap one shorter whose multiset lacks it; removing the last position only truncates |
| `Heap.Fix` | src/heap.js:72-75 | after one position of a heap was overwritten, the result is a heap of the same length and multiset; on a container that is already a heap nothing moves |
| `Drain.PopAll` | test/heap.js:75-79 | popping a heap until it is empty yields its elements in non-decreasing order, each exactly as often as it occurred |
| `Drain.InitThenPopAll` | test/heap.js:69-80 | `init` followed by popping until empty sorts any container |
| `Orders.IntLessIsStrictWeakOrder` | test/heap.js:11-13 | the harness's `<` on numbers is a strict weak ordering, so the contracts apply to it |

## Left out

- The integer-overflow guard `j1 < 0` (src/heap.js:92) is not modelled. Dafny integers do not wrap, so that branch is dead.
- The O(n) and O(log n) complexity claims in the doc comments are not modelled. There is no swap or comparison counter.
- `Pop` is not modelled on an empty container. The code then calls `swap(0, -1)` and its behaviour is undefined, so `|a| >= 1` is a precondition.
- `Remove` and `Fix` are not modelled with an index out of range. The code indexes outside the container, so `i < |a|` is a precondition.
- Heap.Up: its heap-restoring claim depends on a ghost bound `n`. The code's `up` takes no bound. `remove` runs it over the whole container, including the element about to be detached. The claim is therefore about the first `n` positions.
- Heap.Fix: its precondition is the shape `HeapExcept`, not "a heap whose position `i` was overwritten". `HeapInvariant.HeapChangedAt` proves that the second gives the first.
- "`pop` is equivalent to `remove(h, 0)`" (src/heap.js:48) is not proved as an equality of results. Both are methods, and only their contracts can be compared: with `i = 0` those state the same returned element, length, multiset and invariant.
- "`fix` is equivalent to `remove` followed by `push`" (src/heap.js:69-70) is likewise stated only through the contracts. Both yield a heap with the same multiset; the arrangements can differ.
- JavaScript duck typing, `-0` from `Math.trunc`, and the npm packaging are not modelled.
- The test harness's `MyHeap` container and its random mutations are not modelled. Only its `verify` check (as `VerifiedFrom`) and its ordering are used.
