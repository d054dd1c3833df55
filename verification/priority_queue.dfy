/** The capacity-bounded min-heap: construction, insert and pop, plus what
    repeated pops yield. The live elements are the buffer slots [0, size); the
    slots beyond size hold nothing the heap ever reads, so they are not
    represented and size is the length of the live sequence. */
module PriorityQueue {
  import opened HeapIndex
  import opened HeapOrder
  import opened SiftDown
  import opened BubbleUp

  datatype Option<T> = None | Some(value: T)

  datatype MinHeap = MinHeap(elems: seq<int>, capacity: int)
  {
    function Size(): int
    {
      |elems|
    }
  }

  /** The structural invariant every public operation keeps. */
  predicate Valid(h: MinHeap)
  {
    0 <= h.Size() <= h.capacity && IsHeap(h.elems)
  }

  /** A fresh heap: no live elements. A capacity of at least one is the
      caller's obligation; nothing is checked at construction. */
  function Create(capacity: int): (h: MinHeap)
    requires capacity > 0
    ensures Valid(h)
    ensures h.Size() == 0 && h.capacity == capacity
  {
    MinHeap([], capacity)
  }

  /** insert: a full heap is returned unchanged (the source only prints a
      diagnostic); otherwise the element is appended at slot size and
      bubbled up. */
  function Insert(h: MinHeap, x: int): (r: MinHeap)
    ensures r.capacity == h.capacity
    ensures h.Size() >= h.capacity ==> r == h
    ensures h.Size() < h.capacity ==> r.Size() == h.Size() + 1
    ensures h.Size() < h.capacity ==> multiset(r.elems) == multiset(h.elems) + multiset{x}
    ensures h.Size() < h.capacity && IsHeap(h.elems) ==> IsHeap(r.elems)
    ensures Valid(h) ==> Valid(r)
  {
    if h.Size() >= h.capacity then h
    else
      AppendThenSiftUp(h.elems, x);
      MinHeap(SiftUp(h.elems + [x], h.Size()), h.capacity)
  }

  /** The live elements after pop's move of the last slot into the root and
      the decrement of size, before the sift-down. */
  function RootReplaced(s: seq<int>): (t: seq<int>)
    requires |s| > 0
    ensures |t| == |s| - 1
    ensures multiset(t) == multiset(s) - multiset{s[0]}
  {
    var last := |s| - 1;
    if last == 0 then []
    else
      assert s == [s[0]] + s[1..last] + [s[last]];
      assert s[0 := s[last]][..last] == [s[last]] + s[1..last];
      s[0 := s[last]][..last]
  }

  /** Removing the root of a heap and sifting down from slot 0 gives a heap,
      and the removed root was a minimum. */
  lemma RemoveRootThenSiftDown(s: seq<int>)
    requires |s| > 0
    ensures IsHeap(s) ==> IsHeap(MinHeapify(RootReplaced(s), 0))
    ensures IsHeap(s) ==> forall k :: 0 <= k < |s| ==> s[0] <= s[k]
  {
    if IsHeap(s) {
      RemoveRootThenSiftDownOfHeap(s);
    }
  }

  lemma RemoveRootThenSiftDownOfHeap(s: seq<int>)
    requires |s| > 0 && IsHeap(s)
    ensures IsHeap(MinHeapify(RootReplaced(s), 0))
    ensures forall k :: 0 <= k < |s| ==> s[0] <= s[k]
  {
    var t := RootReplaced(s);
    assert HeapBelow(t, 0) by {
      forall j: nat | 0 < j < |t| && InSubtree(0, j) && Parent(j) != 0
        ensures t[Parent(j)] <= t[j]
      {
        assert t[j] == s[j] && t[Parent(j)] == s[Parent(j)];
      }
    }
    MinHeapifyRestoresHeap(t, 0);
    HeapIsRootSubtreeHeap(MinHeapify(t, 0));
    HeapIsRootSubtreeHeap(s);
    RootIsMin(s, 0);
    forall k | 0 <= k < |s|
      ensures s[0] <= s[k]
    {
      RootSubtreeIsEverything(k);
    }
  }

  /** pop: an empty heap yields no element and is left as it was; otherwise
      the root is returned and the rest re-heaped. */
  function Pop(h: MinHeap): (res: (Option<int>, MinHeap))
    ensures res.1.capacity == h.capacity
    ensures h.Size() == 0 ==> res == (None, h)
    ensures h.Size() > 0 ==> res.0 == Some(h.elems[0])
    ensures h.Size() > 0 ==> res.1.Size() == h.Size() - 1
    ensures h.Size() > 0 ==> multiset(res.1.elems) == multiset(h.elems) - multiset{h.elems[0]}
    ensures h.Size() > 0 && IsHeap(h.elems) ==>
              IsHeap(res.1.elems) && forall k :: 0 <= k < h.Size() ==> h.elems[0] <= h.elems[k]
    ensures Valid(h) ==> Valid(res.1)
  {
    if h.Size() == 0 then (None, h)
    else
      RemoveRootThenSiftDown(h.elems);
      (Some(h.elems[0]), MinHeap(MinHeapify(RootReplaced(h.elems), 0), h.capacity))
  }

  /** Pop until the heap is empty, collecting the returned elements. */
  function Drain(h: MinHeap): (out: seq<int>)
    ensures |out| == h.Size()
    ensures multiset(out) == multiset(h.elems)
    decreases h.Size()
  {
    if h.Size() == 0 then []
    else
      var (top, rest) := Pop(h);
      assert multiset(h.elems) == multiset(rest.elems) + multiset{top.value};
      [top.value] + Drain(rest)
  }

  predicate Sorted(a: seq<int>)
  {
    forall i, j :: 0 <= i < j < |a| ==> a[i] <= a[j]
  }

  /** Everything left after a pop is at least the popped element. */
  lemma PoppedBoundsRest(h: MinHeap)
    requires h.Size() > 0 && IsHeap(h.elems)
    ensures forall v :: v in multiset(Pop(h).1.elems) ==> h.elems[0] <= v
  {
  }

  /** Repeated pops from a heap come out in non-decreasing order. */
  lemma {:induction false} DrainSorted(h: MinHeap)
    requires IsHeap(h.elems)
    ensures Sorted(Drain(h))
    decreases h.Size()
  {
    if h.Size() > 0 {
      var rest := Pop(h).1;
      DrainSorted(rest);
      PoppedBoundsRest(h);
      var tail := Drain(rest);
      assert Drain(h) == [h.elems[0]] + tail;
      forall k | 0 <= k < |tail|
        ensures h.elems[0] <= tail[k]
      {
        assert tail[k] in multiset(tail);
      }
      SortedCons(h.elems[0], tail);
    }
  }

  lemma SortedCons(x: int, tail: seq<int>)
    requires Sorted(tail)
    requires forall k :: 0 <= k < |tail| ==> x <= tail[k]
    ensures Sorted([x] + tail)
  {
  }

  /** Two sorted sequences holding the same elements are equal. */
  lemma {:induction false} SortedUnique(a: seq<int>, b: seq<int>)
    requires Sorted(a) && Sorted(b)
    requires multiset(a) == multiset(b)
    ensures a == b
    decreases |a|
  {
    assert |a| == |multiset(a)| == |b|;
    if |a| > 0 {
      assert a == [a[0]] + a[1..];
      assert b == [b[0]] + b[1..];
      assert a[0] in multiset(b);
      assert b[0] in multiset(a);
      assert a[0] == b[0];
      assert multiset(a) == multiset{a[0]} + multiset(a[1..]);
      assert multiset(b) == multiset{b[0]} + multiset(b[1..]);
      assert multiset(a[1..]) == multiset(a) - multiset{a[0]};
      assert multiset(b[1..]) == multiset(b) - multiset{b[0]};
      SortedUnique(a[1..], b[1..]);
    }
  }

  /** Pops from any valid heap: exactly its elements, in ascending order. */
  lemma DrainIsSortedContents(h: MinHeap, sorted: seq<int>)
    requires Valid(h)
    requires Sorted(sorted) && multiset(sorted) == multiset(h.elems)
    ensures Drain(h) == sorted
  {
    DrainSorted(h);
    SortedUnique(Drain(h), sorted);
  }

  /** The driver's loop that pops until pop yields nothing, keeping only the
      final heap. */
  function Emptied(h: MinHeap): (r: MinHeap)
    ensures r == MinHeap([], h.capacity)
    decreases h.Size()
  {
    if h.Size() == 0 then h else Emptied(Pop(h).1)
  }

  /** A heap popped until empty is indistinguishable from a freshly created
      one, so later inserts behave as on a new heap. This follows from
      Emptied's contract, since slots beyond size are not represented. */
  lemma EmptiedIsFresh(h: MinHeap)
    requires h.capacity > 0
    ensures Emptied(h) == Create(h.capacity)
  {
  }

  /** Insert the elements of xs one after another, as the demo driver's loops do. */
  function InsertAll(h: MinHeap, xs: seq<int>): (r: MinHeap)
    ensures r.capacity == h.capacity
    ensures h.Size() + |xs| <= h.capacity ==> r.Size() == h.Size() + |xs|
    ensures h.Size() + |xs| <= h.capacity ==> multiset(r.elems) == multiset(h.elems) + multiset(xs)
    ensures Valid(h) ==> Valid(r)
    decreases |xs|
  {
    if xs == [] then h
    else
      assert xs == [xs[0]] + xs[1..];
      InsertAll(Insert(h, xs[0]), xs[1..])
  }

  /** Sorted extraction: inserting any elements that fit into a fresh heap and
      popping until empty yields exactly those elements in ascending order. */
  lemma InsertAllThenDrain(capacity: int, values: seq<int>)
    requires 0 < capacity && |values| <= capacity
    ensures Sorted(Drain(InsertAll(Create(capacity), values)))
    ensures multiset(Drain(InsertAll(Create(capacity), values))) == multiset(values)
  {
    DrainSorted(InsertAll(Create(capacity), values));
  }

  lemma DemoValuesPermutation()
    ensures multiset([5, 3, 7, 1, 4, 6, 2]) == multiset([1, 2, 3, 4, 5, 6, 7])
  {
  }

  lemma OneToSevenSorted()
    ensures Sorted([1, 2, 3, 4, 5, 6, 7])
  {
  }

  /** The integer run of the demo driver: 5, 3, 7, 1, 4, 6, 2 inserted into a
      fresh heap with room for them (the driver uses capacity 10), then popped
      until empty, come out as 1 through 7. */
  lemma IntegerDemo(capacity: int)
    requires capacity >= 7
    ensures Drain(InsertAll(Create(capacity), [5, 3, 7, 1, 4, 6, 2])) == [1, 2, 3, 4, 5, 6, 7]
  {
    var h := InsertAll(Create(capacity), [5, 3, 7, 1, 4, 6, 2]);
    assert Valid(h);
    assert multiset(h.elems) == multiset([5, 3, 7, 1, 4, 6, 2]);
    DemoValuesPermutation();
    OneToSevenSorted();
    DrainIsSortedContents(h, [1, 2, 3, 4, 5, 6, 7]);
  }

  /** A heap of capacity one: the second insert is refused without change, the
      first pop returns the element and the second pop returns nothing. */
  lemma CapacityOneScenario(a: int, b: int)
    ensures Insert(Create(1), a) == MinHeap([a], 1)
    ensures Insert(Insert(Create(1), a), b) == Insert(Create(1), a)
    ensures Pop(Insert(Create(1), a)) == (Some(a), Create(1))
    ensures Pop(Create(1)) == (None, Create(1))
  {
  }
}
