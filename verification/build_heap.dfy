/** build_min_heap: sift down every internal slot, from size/2 - 1 down to 0. */
module BuildHeap {
  import opened HeapIndex
  import opened HeapOrder
  import opened SiftDown

  /** Every edge whose parent slot lies above i is in heap order. */
  predicate HeapAbove(s: seq<int>, i: int)
  {
    forall j :: 0 < j < |s| && Parent(j) > i ==> s[Parent(j)] <= s[j]
  }

  /** The loop of build_min_heap from slot i down to slot 0. */
  function BuildFrom(s: seq<int>, i: int): (r: seq<int>)
    ensures |r| == |s|
    ensures multiset(r) == multiset(s)
    decreases i + 1
  {
    if i < 0 then s else BuildFrom(MinHeapify(s, i), i - 1)
  }

  /** The bulk build over all live elements; `size / 2` on a non-negative size
      truncates, as Dafny's `/` does. */
  function BuildMinHeap(s: seq<int>): (r: seq<int>)
    ensures |r| == |s|
    ensures multiset(r) == multiset(s)
  {
    BuildFrom(s, |s| / 2 - 1)
  }

  /** One iteration: sifting down slot i extends the ordered region to the
      edges leaving i. */
  lemma BuildStep(s: seq<int>, i: nat)
    requires HeapAbove(s, i)
    ensures HeapAbove(MinHeapify(s, i), i - 1)
  {
    var r := MinHeapify(s, i);
    assert HeapBelow(s, i) by {
      forall j: nat | i < j < |s| && InSubtree(i, j) && Parent(j) != i
        ensures s[Parent(j)] <= s[j]
      {
        assert InSubtree(i, Parent(j));
      }
    }
    MinHeapifyRestoresHeap(s, i);
    forall j | 0 < j < |r| && Parent(j) > i - 1
      ensures r[Parent(j)] <= r[j]
    {
      var p := Parent(j);
      if InSubtree(i, j) {
        assert j > i;
      } else {
        assert !InSubtree(i, p);
        assert r[j] == s[j] && r[p] == s[p];
        assert p > i;
      }
    }
  }

  /** The loop invariant carried from slot i down to the end of the loop. */
  lemma {:induction false} BuildFromIsHeap(s: seq<int>, i: int)
    requires HeapAbove(s, i)
    ensures IsHeap(BuildFrom(s, i))
    decreases i + 1
  {
    if i >= 0 {
      BuildStep(s, i);
      BuildFromIsHeap(MinHeapify(s, i), i - 1);
    } else {
      assert forall j :: 0 < j < |s| ==> Parent(j) > i;
    }
  }

  /** build_min_heap turns arbitrary contents into a heap holding the same elements. */
  lemma BuildMinHeapCorrect(s: seq<int>)
    ensures IsHeap(BuildMinHeap(s))
    ensures multiset(BuildMinHeap(s)) == multiset(s)
    ensures |BuildMinHeap(s)| == |s|
  {
    var i := |s| / 2 - 1;
    // slots whose parent lies at or beyond size/2 are past the end
    assert HeapAbove(s, i) by {
      forall j | 0 < j < |s| && Parent(j) > i
        ensures false
      {
      }
    }
    BuildFromIsHeap(s, i);
  }

  /** On a buffer that is already a heap every sift-down is a no-op, so the
      bulk build leaves it unchanged. */
  lemma {:induction false} BuildFromKeepsHeap(s: seq<int>, i: int)
    requires IsHeap(s)
    ensures BuildFrom(s, i) == s
    decreases i + 1
  {
    if i >= 0 {
      if i < |s| {
        MinHeapifyFirstStep(s, i);
      }
      BuildFromKeepsHeap(s, i - 1);
    }
  }

  lemma BuildMinHeapKeepsHeap(s: seq<int>)
    requires IsHeap(s)
    ensures BuildMinHeap(s) == s
  {
    BuildFromKeepsHeap(s, |s| / 2 - 1);
  }
}
