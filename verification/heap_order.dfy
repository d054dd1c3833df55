/** The heap property over a buffer of live elements, and the slot swap that
    the sift operations use. Elements are integers ordered ascending: the
    comparator's "a compares greater than b" is `a > b`. */
module HeapOrder {
  import opened HeapIndex

  /** No live slot compares less than its parent. */
  predicate IsHeap(s: seq<int>)
  {
    forall j :: 0 < j < |s| ==> s[Parent(j)] <= s[j]
  }

  /** The heap property on every parent-child edge inside the subtree at root. */
  predicate SubtreeHeap(s: seq<int>, root: nat)
  {
    forall j: nat :: root < j < |s| && InSubtree(root, j) ==> s[Parent(j)] <= s[j]
  }

  /** The heap property inside the subtree at root, except on the edges
      leaving root itself: both child subtrees are heaps. */
  predicate HeapBelow(s: seq<int>, root: nat)
  {
    forall j: nat :: root < j < |s| && InSubtree(root, j) && Parent(j) != root ==> s[Parent(j)] <= s[j]
  }

  /** b is no greater than any live element of the subtree at root. */
  predicate LowerBound(s: seq<int>, root: nat, b: int)
  {
    forall j: nat :: j < |s| && InSubtree(root, j) ==> b <= s[j]
  }

  /** The whole buffer is a heap exactly when the subtree of the root slot is. */
  lemma HeapIsRootSubtreeHeap(s: seq<int>)
    ensures IsHeap(s) <==> SubtreeHeap(s, 0)
  {
    forall j: nat | j < |s|
      ensures InSubtree(0, j)
    {
      RootSubtreeIsEverything(j);
    }
  }

  /** In a heap-ordered subtree, the element at its root is a minimum of it. */
  lemma RootIsMin(s: seq<int>, root: nat)
    requires root < |s|
    requires SubtreeHeap(s, root)
    ensures LowerBound(s, root, s[root])
  {
    forall j: nat | j < |s| && InSubtree(root, j)
      ensures s[root] <= s[j]
    {
      RootBelow(s, root, j);
    }
  }

  lemma {:induction false} RootBelow(s: seq<int>, root: nat, j: nat)
    requires j < |s| && InSubtree(root, j)
    requires SubtreeHeap(s, root)
    ensures s[root] <= s[j]
    decreases j
  {
    if j != root {
      RootBelow(s, root, Parent(j));
    }
  }

  /** Exchange of two slots (the source's byte-level swap through a temporary). */
  function Swap(s: seq<int>, i: nat, j: nat): (r: seq<int>)
    requires i < |s| && j < |s|
    ensures |r| == |s|
    ensures r[i] == s[j] && r[j] == s[i]
    ensures forall k :: 0 <= k < |s| && k != i && k != j ==> r[k] == s[k]
    ensures multiset(r) == multiset(s)
  {
    s[i := s[j]][j := s[i]]
  }
}
