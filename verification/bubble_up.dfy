/** The bubble-up loop of insert: while the parent compares strictly greater,
    swap the new element with it and continue from the parent slot. */
module BubbleUp {
  import opened HeapIndex
  import opened HeapOrder

  /** Heap order on every edge except the one from slot i up to its parent. */
  predicate HeapExcept(s: seq<int>, i: int)
  {
    forall j :: 0 < j < |s| && j != i ==> s[Parent(j)] <= s[j]
  }

  /** The parent of i is no greater than the children of i, so the element at
      i may be replaced by its parent's without breaking the edges below i. */
  predicate Bridge(s: seq<int>, i: int)
  {
    0 < i < |s| ==> forall c :: 0 < c < |s| && Parent(c) == i ==> s[Parent(i)] <= s[c]
  }

  function SiftUp(s: seq<int>, i: nat): (r: seq<int>)
    requires i < |s|
    ensures |r| == |s|
    ensures multiset(r) == multiset(s)
    decreases i
  {
    if i > 0 && s[Parent(i)] > s[i] then SiftUp(Swap(s, i, Parent(i)), Parent(i)) else s
  }

  /** One swap of the loop moves the exception one edge up and keeps the bridge. */
  lemma SiftUpStep(s: seq<int>, i: nat)
    requires 0 < i < |s|
    requires s[Parent(i)] > s[i]
    requires HeapExcept(s, i) && Bridge(s, i)
    ensures HeapExcept(Swap(s, i, Parent(i)), Parent(i))
    ensures Bridge(Swap(s, i, Parent(i)), Parent(i))
  {
  }

  /** Starting from a heap with one edge possibly out of order at i (and the
      bridge around it), the loop ends with a heap. */
  lemma {:induction false} SiftUpRestoresHeap(s: seq<int>, i: nat)
    requires i < |s|
    requires HeapExcept(s, i) && Bridge(s, i)
    ensures IsHeap(SiftUp(s, i))
    decreases i
  {
    if i > 0 && s[Parent(i)] > s[i] {
      SiftUpStep(s, i);
      SiftUpRestoresHeap(Swap(s, i, Parent(i)), Parent(i));
    }
  }

  /** Appending an element to a heap and sifting it up from the last slot gives
      a heap with exactly one more occurrence of that element. */
  lemma AppendThenSiftUp(s: seq<int>, x: int)
    ensures IsHeap(s) ==> IsHeap(SiftUp(s + [x], |s|))
    ensures multiset(SiftUp(s + [x], |s|)) == multiset(s) + multiset{x}
  {
    var t := s + [x];
    assert multiset(t) == multiset(s) + multiset{x};
    if IsHeap(s) {
      assert HeapExcept(t, |s|) by {
        forall j | 0 < j < |t| && j != |s|
          ensures t[Parent(j)] <= t[j]
        {
          assert t[j] == s[j] && t[Parent(j)] == s[Parent(j)];
        }
      }
      assert Bridge(t, |s|) by {
        forall c | 0 < c < |t| && Parent(c) == |s|
          ensures false
        {
        }
      }
      SiftUpRestoresHeap(t, |s|);
    }
  }
}
