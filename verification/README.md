# Array-backed binary min-heap

A Dafny model of the fixed-capacity binary min-heap in `handson5_min_heap.c`.
The heap keeps its live elements in buffer slots `[0, size)`. These slots form
a binary tree encoded by position: slot 0 is the root, and slot `i` has its
children at `2i+1` and `2i+2`. No child may compare less than its parent.

The model covers these operations:

- the index macros `PARENT`, `LEFT` and `RIGHT`;
- the slot `swap`;
- `create_min_heap`;
- the sift-down `min_heapify`;
- the bulk `build_min_heap`;
- the bounded `insert` with its bubble-up loop;
- the extract-min `pop`.

It also models the demo driver's integer run as a usage scenario.

Modules, one per file:

- `HeapIndex` (`heap_index.dfy`): the index arithmetic, and subtree membership `InSubtree`.
- `HeapOrder` (`heap_order.dfy`): the heap property, its per-subtree variants, and `Swap`.
- `SiftDown` (`sift_down.dfy`): `min_heapify`, including its choice of the smallest slot.
- `BuildHeap` (`build_heap.dfy`): `build_min_heap`, as a loop from `size/2 - 1` down to 0.
- `BubbleUp` (`bubble_up.dfy`): the sift-up loop of `insert`.
- `PriorityQueue` (`priority_queue.dfy`): the heap record and `Create`, `Insert`, `Pop`.
  It also holds repeated extraction (`Drain`) and the demo scenarios.

Representation choices:

- Elements are mathematical integers. The comparator is integer ascending order,
  which is the sign of what `compare_int` computes. So "compares greater" in the
  source is `>` here, and "compares less" is `<`.
- The heap record is `MinHeap(elems, capacity)`. `elems` is the sequence of live
  slots, so `size` is `|elems|`. Slots at `size` and beyond are never read by any
  operation, and the source leaves their contents unspecified, so they are not
  represented. After a `pop`, the stale copy left in the old last slot is therefore
  not modelled.
- `swap` exchanges two sequence positions. The source's temporary allocation and
  byte copies do not appear.
- `PARENT(i)` is `(i - 1) >> 1`. For `i > 0` the shifted value is non-negative,
  and shifting it right by one is floor division by 2, which Dafny's `/` computes.
  The source never evaluates `PARENT(0)`: the bubble-up loop tests `i > 0` first
  (handson5_min_heap.c:80). The model's `Parent(0)` is -1, a value no operation uses.
- Failure paths return the input unchanged. `insert` on a full heap prints a
  diagnostic and returns with no error value (handson5_min_heap.c:70-73); `Insert`
  returns `h` unchanged. `Pop` on an empty heap returns `(None, h)`, where `None`
  stands for the source's NULL (handson5_min_heap.c:91).

## Model

| member | source | states |
|---|---|---|
| HeapIndex.Parent | handson5_min_heap.c:15 | for i > 0 the parent is a smaller, non-negative slot, and i is its left or right child; slot 0 maps to -1 |
| HeapIndex.Left | handson5_min_heap.c:16 | the left child lies after i and its parent is i |
| HeapIndex.Right | handson5_min_heap.c:17 | the right child's parent is i and it sits just after the left child |
| HeapOrder.Swap | handson5_min_heap.c:20-26 | the two slots exchange contents, every other slot keeps its element, and the multiset is unchanged |
| HeapOrder.RootIsMin | handson5_min_heap.c:93-94 | in a heap-ordered subtree the element at its root is no greater than any element of the subtree |
| PriorityQueue.Create | handson5_min_heap.c:28-36 | for a positive capacity, a new heap is empty, keeps that capacity, and satisfies the invariant |
| SiftDown.Smallest | handson5_min_heap.c:40-53 | the chosen slot is idx or a live child, no greater than idx or any live child; it differs from idx only if strictly smaller, and it is the right child only if the right child is strictly smaller than the left |
| SiftDown.MinHeapify | handson5_min_heap.c:39-61 | min_heapify only permutes: same length and multiset, and every slot outside the subtree at idx keeps its element |
| SiftDown.MinHeapifyFirstStep | handson5_min_heap.c:45-58 | the element that ends at idx is the one the tie-breaking choice picked; the buffer is unchanged exactly when no live child compares strictly less than idx |
| SiftDown.MinHeapifyRestoresHeap | handson5_min_heap.c:39-61 | if both child subtrees of idx are heaps, the whole subtree at idx is a heap afterwards |
| SiftDown.MinHeapifyKeepsLowerBound | handson5_min_heap.c:55-60 | any value no greater than every element of the subtree at idx is still no greater than all of them afterwards |
| BuildHeap.BuildFrom | handson5_min_heap.c:65-66 | the sift-down loop from slot i down to 0 permutes the buffer: same length and multiset |
| BuildHeap.BuildMinHeap | handson5_min_heap.c:64-67 | build_min_heap keeps the buffer's length and its multiset of elements |
| BuildHeap.BuildFromIsHeap | handson5_min_heap.c:65-66 | if every edge whose parent lies above slot i is ordered when the loop reaches i, the buffer is a heap when the loop ends |
| BuildHeap.BuildMinHeapCorrect | handson5_min_heap.c:64-67 | for arbitrary contents, build_min_heap produces a heap with the same length and the same multiset of elements |
| BuildHeap.BuildMinHeapKeepsHeap | handson5_min_heap.c:64-67 | on a buffer that is already a heap, build_min_heap changes nothing |
| BubbleUp.SiftUp | handson5_min_heap.c:79-86 | the bubble-up loop only permutes: same length and multiset |
| BubbleUp.SiftUpStep | handson5_min_heap.c:80-85 | one swap with a strictly greater parent moves the single out-of-order edge up to the parent slot |
| BubbleUp.SiftUpRestoresHeap | handson5_min_heap.c:79-86 | starting from a heap whose only possibly unordered edge is the one above i, the loop ends with a heap |
| BubbleUp.AppendThenSiftUp | handson5_min_heap.c:75-86 | writing x into slot size and bubbling it up adds exactly one x to the multiset, and turns a heap into a heap |
| PriorityQueue.Insert | handson5_min_heap.c:69-87 | a full heap is returned unchanged; otherwise size grows by one, the multiset gains exactly x, and the heap property and 0 <= size <= capacity are kept |
| PriorityQueue.RootReplaced | handson5_min_heap.c:96-98 | moving the last slot into the root and shrinking size by one removes exactly the root from the multiset |
| PriorityQueue.RemoveRootThenSiftDown | handson5_min_heap.c:96-101 | on a heap, the root is a minimum, and after the move and the sift-down from slot 0 the rest is a heap again |
| PriorityQueue.Pop | handson5_min_heap.c:90-103 | an empty heap yields no element and is returned unchanged; otherwise pop returns the old root, which on a heap is a minimum of all live elements; size drops by one, the multiset loses exactly that element, and the invariant is kept |
| PriorityQueue.Drain | handson5_min_heap.c:131-136 | popping until empty returns exactly the heap's elements, as a multiset |
| PriorityQueue.DrainSorted | handson5_min_heap.c:131-136 | popping a heap until empty yields a non-decreasing sequence |
| PriorityQueue.DrainIsSortedContents | handson5_min_heap.c:131-136 | popping a valid heap until empty yields the unique ascending arrangement of its elements |
| PriorityQueue.InsertAll | handson5_min_heap.c:126-129 | inserting elements one by one keeps the invariant; when they fit, size grows by their number and the multiset gains exactly them |
| PriorityQueue.InsertAllThenDrain | handson5_min_heap.c:125-136 | inserting elements that fit into a fresh heap and then popping until empty yields exactly those elements, in ascending order |
| PriorityQueue.IntegerDemo | handson5_min_heap.c:123-136 | the driver's integer run pops 1, 2, 3, 4, 5, 6, 7 after inserting 5, 3, 7, 1, 4, 6, 2, for any capacity of at least 7 (the driver uses 10) |
| PriorityQueue.CapacityOneScenario | handson5_min_heap.c:69-103 | with capacity 1, the second insert changes nothing; the first pop returns the element and leaves an empty heap; popping the empty heap returns nothing |
| PriorityQueue.Emptied | handson5_min_heap.c:133 | popping until pop yields nothing leaves a heap with no live elements and the same capacity |
| PriorityQueue.EmptiedIsFresh | handson5_min_heap.c:90-103 | a heap popped until empty equals a freshly created heap of the same capacity; this follows from Emptied's contract because unread slots are not represented |

## Left out

- Memory management: `malloc`, `free` and `memcpy`, and the temporary allocation inside `swap`. Buffers are sequences and values are copied by value.
- Type erasure: the `void*` buffer, `elem_size`, and the comparator function pointer. The model fixes the element type to integers ordered ascending. A heap over another element type, and the floating-point comparator `compare_float`, are not modelled.
- `compare_int` computes `a - b`, and that subtraction can overflow in C. The model compares mathematical integers, so it does not model the mis-ordering that overflow causes.
- C `int` overflow in `LEFT`/`RIGHT` (handson5_min_heap.c:16-17): once min_heapify's `idx` passes `(INT_MAX - 1) / 2`, computing the child index is undefined behaviour, and in practice a wrapped negative index can pass the `left < heap->size` test at handson5_min_heap.c:45. The model's integers are unbounded, so it does not model this.
- PriorityQueue.Create — requires capacity > 0; create_min_heap (handson5_min_heap.c:28-36) checks neither the capacity nor the allocation.
- `destroy_heap`: it only releases memory.
- Ownership of the element `pop` returns, which the caller must free. The model returns the value itself.
- The `printf` diagnostic on a full heap, and all output of the demo driver.
- The demo driver's floating-point run: it uses floating-point values and `compare_float`.
- Buffer slots at `size` and beyond are not represented. Their contents are unspecified, and no operation reads them.
