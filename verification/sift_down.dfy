/** min_heapify: sift the element at a slot down until neither child compares
    strictly less than it. */
module SiftDown {
  import opened HeapIndex
  import opened HeapOrder

  /** The slot min_heapify moves towards: the smallest of idx and its live
      children, where a child only takes over when it is strictly smaller
      than the best so far (ties keep the parent, then the left child). */
  function Smallest(s: seq<int>, idx: nat): (m: nat)
    ensures m == idx || m == Left(idx) || m == Right(idx)
    ensures idx < |s| ==> m < |s|
    ensures m != idx ==> m < |s| && s[m] < s[idx]
    ensures Left(idx) < |s| ==> s[m] <= s[Left(idx)]
    ensures Right(idx) < |s| ==> s[m] <= s[Right(idx)]
    ensures m == Right(idx) ==> s[Right(idx)] < s[Left(idx)]
  {
    var l := Left(idx);
    var r := Right(idx);
    var best := if l < |s| && s[l] < s[idx] then l else idx;
    if r < |s| && s[r] < s[best] then r else best
  }

  /** Sift-down from idx: swap with the smallest child while one is strictly
      smaller, following the swapped element. Only the subtree at idx is
      permuted; every other slot keeps its element. */
  function MinHeapify(s: seq<int>, idx: nat): (r: seq<int>)
    ensures |r| == |s|
    ensures multiset(r) == multiset(s)
    ensures forall j: nat :: j < |s| && !InSubtree(idx, j) ==> r[j] == s[j]
    decreases |s| - idx
  {
    var m := Smallest(s, idx);
    if m == idx then s
    else
      SubtreeOfChildAll(idx, m);
      MinHeapify(Swap(s, idx, m), m)
  }

  /** The element that lands at idx is the one Smallest picks; and the buffer
      is left as it was exactly when no child compares strictly less than idx. */
  lemma MinHeapifyFirstStep(s: seq<int>, idx: nat)
    requires idx < |s|
    ensures MinHeapify(s, idx)[idx] == s[Smallest(s, idx)]
    ensures MinHeapify(s, idx) == s <==>
              (Left(idx) >= |s| || s[idx] <= s[Left(idx)]) &&
              (Right(idx) >= |s| || s[idx] <= s[Right(idx)])
  {
  }

  /** Every lower bound of the subtree at idx is still one afterwards. */
  lemma {:induction false} MinHeapifyKeepsLowerBound(s: seq<int>, idx: nat, b: int)
    requires LowerBound(s, idx, b)
    ensures LowerBound(MinHeapify(s, idx), idx, b)
    decreases |s| - idx
  {
    var m := Smallest(s, idx);
    if m != idx {
      var t := Swap(s, idx, m);
      var r := MinHeapify(t, m);
      SubtreeOfChildAll(idx, m);
      assert LowerBound(t, m, b) by {
        forall j: nat | j < |t| && InSubtree(m, j)
          ensures b <= t[j]
        {
          if j == m {
            assert t[j] == s[idx] && InSubtree(idx, idx);
          }
        }
      }
      MinHeapifyKeepsLowerBound(t, m, b);
      assert MinHeapify(s, idx) == r;
      forall j: nat | j < |r| && InSubtree(idx, j)
        ensures b <= r[j]
      {
        if !InSubtree(m, j) {
          assert r[j] == t[j];
          if j == idx {
            assert t[j] == s[m];
          }
        }
      }
    }
  }

  /** Given that both child subtrees of idx are heaps, min_heapify(idx) makes
      the whole subtree at idx a heap. */
  lemma {:induction false} MinHeapifyRestoresHeap(s: seq<int>, idx: nat)
    requires HeapBelow(s, idx)
    ensures SubtreeHeap(MinHeapify(s, idx), idx)
    decreases |s| - idx
  {
    var m := Smallest(s, idx);
    if m == idx {
      NoSwapIsHeap(s, idx);
    } else {
      var t := Swap(s, idx, m);
      var r := MinHeapify(t, m);
      assert MinHeapify(s, idx) == r;
      SubtreeOfChildAll(idx, m);
      // the child subtrees of m are untouched by the swap
      assert HeapBelow(t, m) by {
        forall j: nat | m < j < |t| && InSubtree(m, j) && Parent(j) != m
          ensures t[Parent(j)] <= t[j]
        {
          assert InSubtree(m, Parent(j));
        }
      }
      MinHeapifyRestoresHeap(t, m);
      // every element of m's subtree is at least s[m], which now sits at idx
      SwappedChildBound(s, idx, m);
      MinHeapifyKeepsLowerBound(t, m, s[m]);
      SwapStepIsHeap(s, idx, m, r);
    }
  }

  /** When no child is strictly smaller, the subtree at idx is already a heap. */
  lemma NoSwapIsHeap(s: seq<int>, idx: nat)
    requires HeapBelow(s, idx)
    requires Smallest(s, idx) == idx
    ensures SubtreeHeap(s, idx)
  {
  }

  /** After swapping idx with its smallest child m, the old s[m] bounds the
      whole subtree at m from below. */
  lemma SwappedChildBound(s: seq<int>, idx: nat, m: nat)
    requires HeapBelow(s, idx)
    requires m == Smallest(s, idx) && m != idx
    ensures LowerBound(Swap(s, idx, m), m, s[m])
  {
    var t := Swap(s, idx, m);
    SubtreeOfChildAll(idx, m);
    assert SubtreeHeap(s, m) by {
      forall j: nat | m < j < |s| && InSubtree(m, j)
        ensures s[Parent(j)] <= s[j]
      {
        assert InSubtree(m, Parent(j));
      }
    }
    RootIsMin(s, m);
    forall j: nat | j < |t| && InSubtree(m, j)
      ensures s[m] <= t[j]
    {
      if j != m {
        assert t[j] == s[j];
      }
    }
  }

  /** Closing step of the swap case: the recursive call made the subtree at m
      a heap bounded below by s[m], and everything else is as the swap left it. */
  lemma SwapStepIsHeap(s: seq<int>, idx: nat, m: nat, r: seq<int>)
    requires HeapBelow(s, idx)
    requires m == Smallest(s, idx) && m != idx
    requires |r| == |s|
    requires forall j: nat :: j < |s| && !InSubtree(m, j) ==> r[j] == Swap(s, idx, m)[j]
    requires SubtreeHeap(r, m)
    requires LowerBound(r, m, s[m])
    ensures SubtreeHeap(r, idx)
  {
  }
}
