/** Implicit tree-in-array encoding of the binary heap: slot 0 is the root,
    the children of slot i are slots 2i+1 and 2i+2. */
module HeapIndex {

  /** Parent slot, written `(i - 1) >> 1` in the source. For i > 0 the shifted
      value is non-negative, so the shift is floor division by 2, which Dafny's
      `/` computes. The source never evaluates the parent of slot 0 (the
      bubble-up loop tests `i > 0` first); here it is -1. */
  function Parent(i: int): (p: int)
    ensures i > 0 ==> 0 <= p < i
    ensures i > 0 ==> i == 2 * p + 1 || i == 2 * p + 2
    ensures i == 0 ==> p == -1
  {
    (i - 1) / 2
  }

  /** Left child slot (`(i << 1) + 1`); its parent is i. */
  function Left(i: nat): (l: nat)
    ensures Parent(l) == i
    ensures l > i
  {
    2 * i + 1
  }

  /** Right child slot (`(i << 1) + 2`); its parent is i and it sits just after the left child. */
  function Right(i: nat): (r: nat)
    ensures Parent(r) == i
    ensures r == Left(i) + 1
  {
    2 * i + 2
  }

  /** Slot j lies in the subtree rooted at slot root: j is root, or j's parent does. */
  predicate InSubtree(root: nat, j: nat)
    ensures InSubtree(root, j) ==> root <= j
    decreases j
  {
    j == root || (j > root && InSubtree(root, Parent(j)))
  }

  /** Every slot of the subtree of a child of k also lies in the subtree of k. */
  lemma {:induction false} SubtreeOfChild(k: nat, c: nat, j: nat)
    requires c > 0 && Parent(c) == k
    requires InSubtree(c, j)
    ensures InSubtree(k, j)
    decreases j
  {
    if j != c {
      SubtreeOfChild(k, c, Parent(j));
    }
  }

  /** Quantified form of SubtreeOfChild. */
  lemma SubtreeOfChildAll(k: nat, c: nat)
    requires c > 0 && Parent(c) == k
    ensures forall j: nat :: InSubtree(c, j) ==> InSubtree(k, j)
  {
    forall j: nat | InSubtree(c, j)
      ensures InSubtree(k, j)
    {
      SubtreeOfChild(k, c, j);
    }
  }

  /** The subtree of the root slot is the whole array. */
  lemma {:induction false} RootSubtreeIsEverything(j: nat)
    ensures InSubtree(0, j)
    decreases j
  {
    if j > 0 {
      RootSubtreeIsEverything(Parent(j));
    }
  }
}
