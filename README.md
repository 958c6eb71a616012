# BinaryHeap in Dafny

A verified model of `BinaryHeap<T>` (src/utils/BinaryHeap.ts). It is a generic
priority queue stored in one growable array and ordered by a comparator that
its caller supplies. `cmp(a, b) < 0` means that `a` has the higher priority
and belongs nearer the root. The array is read as a complete binary tree:
node `i` has children `2i+1` and `2i+2`, and parent `(i-1) >> 1`. The heap
invariant is that no child outranks its parent.

Files and modules:

- `comparators.dfy`, module `Comparators`: the comparator law the heap
  assumes (`TotalPreorder`: the sign of `cmp(a, b)` is opposite to that of
  `cmp(b, a)`, and `cmp(a, b) <= 0` is transitive), plus the min-heap and
  max-heap comparators from the source's doc comment.
- `heap_order.dfy`, module `HeapOrder`: the index arithmetic, the heap
  invariant `IsHeap`, the "broken at one node" states that `siftUp` and
  `siftDown` pass through, and the lemmas for one step of each loop.
- `binary_heap.dfy`, module `BinaryHeaps`: the class `BinaryHeap<T>`. Its
  fields are `data: seq<T>`, the array that the methods reassign cell by
  cell, and `const cmp`. `Valid()` is the object invariant (a lawful
  comparator and `IsHeap(data, cmp)`). The public mutating methods
  (`Clear`, `Push`, `Pop`, `ReplaceTop`, `PushPop`) require and ensure it
  and state their new `data` in terms of `old(data)`: length, multiset of
  contents, returned element. `Heapify` requires only the comparator law and
  ensures `Valid()`. The sifts work on a heap that is broken in one known
  place. `SiftUp(i)` requires every parent-child edge to hold
  except the one from `i` to its parent (`HeapExceptUp`), and ensures
  `Valid()`. `SiftDown(lo)` requires every edge whose parent lies in `lo..`
  to hold except those from `lo` to its children (`HeapExceptDown`), and
  ensures `HeapFrom(data, cmp, lo)`. `ReplaceRoot` requires `Valid()` and a
  non-empty heap. `siftUp`, `siftDown` and `heapify` are `while`/`for`
  loops with the invariants that prove them.
  `size`, `isEmpty`, `peek` and `toArray` only read, so they are functions.
- `scenario.dfy`, module `Scenarios`: a client method on a min-heap of
  integers, proved from the contracts alone.

Notes on the source:

- `SiftUp` and `SiftDown` work on `this.data` directly, and each step is a
  swap (`Swap`). The source binds the array to a local alias, which is the
  same thing.
- `siftDown` prefers the left child and takes the right child only when
  `cmp(data[r], data[l]) < 0` (`BestChild`). It stops as soon as that child
  does not strictly outrank the current node. On an input that is already a
  heap it changes nothing, and `SiftDown` proves this.
- `pushPop` is described in its doc comment as "push, then pop at once".
  The code, and the bullets under that comment, do something else. When
  `value` strictly outranks the root, the old root is evicted and returned,
  and `value` takes its place. Because `value` then outranks every element,
  no sift step moves it, and the new storage is exactly
  `old(data)[0 := value]`. When `value` does not strictly outrank the root,
  `value` is returned and the heap is left untouched. A literal push followed
  by a pop would do the reverse in both cases: when `value` strictly
  outranks the root it would return `value` and change nothing, and
  otherwise it would return the old root and keep `value`. The model follows
  the code.
- On the contents {3, 5, 8}, `pushPop(2)` returns 3 and leaves 2 at the
  root, and `pushPop(10)` then returns 10 and changes nothing;
  `Scenarios.EvictionScenario` proves both.

## Model

| member | source | states |
|---|---|---|
| `BinaryHeaps.BinaryHeap.constructor` | src/utils/BinaryHeap.ts:14-20 | With no initial collection the heap is empty. With one, the storage has the same length and the same multiset as the collection, and the heap invariant holds. The comparator is the one given. |
| `BinaryHeaps.BinaryHeap.Size` | src/utils/BinaryHeap.ts:22-24 | The count of elements held, counting repeats. |
| `BinaryHeaps.BinaryHeap.IsEmpty` | src/utils/BinaryHeap.ts:26-28 | True exactly when the heap holds no element. |
| `BinaryHeaps.BinaryHeap.Peek` | src/utils/BinaryHeap.ts:30-32 | `None` exactly on an empty heap. Otherwise returns the root, which is an element of the heap that no element strictly outranks. It reads the state and never changes it. |
| `BinaryHeaps.BinaryHeap.Clear` | src/utils/BinaryHeap.ts:34-36 | The storage becomes empty and the invariant holds. The comparator is a constant field, so it is kept. |
| `BinaryHeaps.BinaryHeap.Push` | src/utils/BinaryHeap.ts:38-41 | The size grows by exactly one. The multiset gains exactly one `value`. The invariant is restored. |
| `BinaryHeaps.BinaryHeap.Pop` | src/utils/BinaryHeap.ts:46-55 | On an empty heap: returns `None` and leaves the storage unchanged. Otherwise: returns the old root, shrinks the size by one, and removes exactly one copy of that root from the multiset. The invariant holds, and the returned element ranks at least as high as every element left. That last fact gives sorted extraction. |
| `BinaryHeaps.BinaryHeap.ReplaceTop` | src/utils/BinaryHeap.ts:61-70 | On an empty heap: the storage becomes `[value]` and the result is `None`. Otherwise: returns the old root, keeps the size, and swaps one copy of the old root for `value` in the multiset, with the invariant kept. |
| `BinaryHeaps.BinaryHeap.PushPop` | src/utils/BinaryHeap.ts:77-92 | On an empty heap: the storage becomes `[value]` and `value` is returned. If `cmp(value, root) >= 0`: returns `value` and leaves the storage exactly as it was. If `cmp(value, root) < 0`: returns the old root, keeps the size, swaps the root for `value` in the multiset, and leaves the storage as the old one with `value` at index 0. On a non-empty heap, contents plus result always equal old contents plus `value`. |
| `BinaryHeaps.BinaryHeap.ToArray` | src/utils/BinaryHeap.ts:94-96 | A sequence of the same length as the storage with the same element at every index. It is a value, so later changes to the heap do not reach it. |
| `BinaryHeaps.BinaryHeap.ReplaceRoot` | src/utils/BinaryHeap.ts:66-68 | Overwriting the root of a non-empty heap and sifting down keeps the size. It swaps the old root for `value` in the multiset and restores the invariant. It leaves every other cell alone when the overwritten storage is already a heap. |
| `BinaryHeaps.BinaryHeap.Heapify` | src/utils/BinaryHeap.ts:100-105 | Sifting down from index `n/2 - 1` to 0 makes any storage a heap, with the length and the multiset unchanged. |
| `BinaryHeaps.BinaryHeap.SiftUp` | src/utils/BinaryHeap.ts:107-115 | Starting from a heap broken only at the edge above `i`, the loop ends in a heap with the same multiset. |
| `BinaryHeaps.BinaryHeap.SiftDown` | src/utils/BinaryHeap.ts:117-135 | Starting from a state broken only below `lo`, the loop makes every edge whose parent index is at least `lo` hold. The multiset is unchanged, and on an input that already holds it nothing moves. |
| `HeapOrder.Parent` | src/utils/BinaryHeap.ts:110 | The parent of a non-root index is smaller than it, and the index is that parent's left or right child. |
| `HeapOrder.Swap` | src/utils/BinaryHeap.ts:112 | Exchanges two cells. Every other cell is unchanged and the multiset is the same. |
| `HeapOrder.BestChild` | src/utils/BinaryHeap.ts:121-127 | The child of `i` that `siftDown` compares: always a child of `i` within bounds. It is the right child exactly when the right child exists and strictly outranks the left one. |
| `HeapOrder.BestChildOutranks` | src/utils/BinaryHeap.ts:125-127 | The chosen child ranks at least as high as every child of `i`. |
| `HeapOrder.RootOutranks` | src/utils/BinaryHeap.ts:4-9 | In a heap under a total preorder, the root ranks at least as high as the element at any index. Proved by induction along the parent chain. |
| `HeapOrder.RootOutranksAll` | src/utils/BinaryHeap.ts:30-32 | The same fact for every element of the heap, which is what `peek` promises. |
| `HeapOrder.AppendExceptUp` | src/utils/BinaryHeap.ts:38-40 | Appending to a heap leaves it broken at most at the edge above the new last cell, and the new cell has no children. |
| `HeapOrder.WriteRootExceptDown` | src/utils/BinaryHeap.ts:67 | Overwriting the root of a heap breaks at most the edges below the root. |
| `HeapOrder.MoveLastToRoot` | src/utils/BinaryHeap.ts:51-52 | Removing the last element and writing it over the root loses exactly one copy of the root. It breaks at most the edges below the root. |
| `HeapOrder.SiftUpStep` | src/utils/BinaryHeap.ts:110-113 | When the element at `i` strictly outranks its parent, swapping the two moves the one broken edge up to the parent. |
| `HeapOrder.SiftUpDone` | src/utils/BinaryHeap.ts:109-111 | Stopping at the root, or below a parent the element does not outrank, leaves a heap. |
| `HeapOrder.SiftDownStep` | src/utils/BinaryHeap.ts:126-133 | When the chosen child strictly outranks `i`, swapping the two moves the broken edges down to that child. |
| `HeapOrder.HeapHasNoSwap` | src/utils/BinaryHeap.ts:130 | On a heap, the chosen child never strictly outranks its parent, so `siftDown` stops at once. |
| `HeapOrder.SiftDownDone` | src/utils/BinaryHeap.ts:121-130 | Stopping at a leaf, or above a chosen child that does not strictly outrank the node, leaves every edge from `lo` down intact. |
| `HeapOrder.NewRootKeepsHeap` | src/utils/BinaryHeap.ts:83-87 | Writing an element that strictly outranks the root into the root of a heap leaves a heap. |
| `Comparators.PreorderReflexiveTotal` | src/utils/BinaryHeap.ts:4-9 | Under the comparator law, every element compares equal to itself, and of any two elements one ranks at least as high as the other. |
| `Comparators.StrictThenWeak` | src/utils/BinaryHeap.ts:4-9 | Outranking strictly and then weakly is outranking strictly. |
| `Comparators.WeakThenStrict` | src/utils/BinaryHeap.ts:4-9 | Outranking weakly and then strictly is outranking strictly. |
| `Comparators.AscendingIsTotalPreorder` | src/utils/BinaryHeap.ts:7 | The min-heap comparator `(a, b) => a - b` meets the comparator law. |
| `Comparators.DescendingIsTotalPreorder` | src/utils/BinaryHeap.ts:8 | The max-heap comparator `(a, b) => b - a` meets the comparator law. |

## Left out

- src/components/SettingsModal.tsx: a dialog component with no algorithmic content.
- Comparator results are modelled as `int`. JavaScript `number` results such as NaN or fractions are not modelled; only the sign is used.
- A comparator that is not a total preorder is a caller error. The model makes `TotalPreorder` a precondition of construction and part of `Valid()`; it has no runtime check.
- `>>` is modelled as floor division by 2 on non-negative indices. Its 32-bit semantics is not modelled: arrays longer than 2^31 are out of scope.
- `initial?: Iterable<T>` and `Array.from` are modelled as an optional finite sequence, `Option<seq<T>>`. Lazy or infinite iterables are not modelled.
- Element types are restricted to `T(!new)`, which excludes values that hold references to heap objects. `toArray`'s shallow copy of element objects, and aliasing through them, are not modelled.
- There is no lemma about a whole sequence of pops as one ordered list. Sorted extraction follows from applying `Pop`'s contract at each step of such a sequence.
