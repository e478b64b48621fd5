/**
 * Worked examples of the collection's behaviour, and what `rebalance`'s
 * zeroed counter does to the operations that follow it.
 */
module Scenarios {
  import opened Wrappers
  import opened Trees
  import opened Search
  import opened Insertion
  import opened Deletion
  import opened Rebalancing
  import opened BST

  /** The tree `add` builds from 5, 3, 8, 1, 4, 7, 9, in that order. */
  function Sample(): (t: Tree)
    ensures t == Node(Node(Node(Leaf, 1, Leaf), 3, Node(Leaf, 4, Leaf)), 5,
                      Node(Node(Leaf, 7, Leaf), 8, Node(Leaf, 9, Leaf)))
  {
    Insert(Insert(Insert(Insert(Insert(Insert(Insert(Leaf, 5), 3), 8), 1), 4), 7), 9)
  }

  /** Removing 5 from the sample lifts 4, the maximum of its left subtree, into its node. */
  lemma SampleRemoval()
    ensures FindFrom(Sample(), 5) == Some(5)
    ensures Delete(Sample(), 5) == SampleWithoutFive()
  {
    var left := Node(Node(Leaf, 1, Leaf), 3, Node(Leaf, 4, Leaf));
    assert Rightmost(left) == 4;
    assert WithoutRightmost(left) == Node(Node(Leaf, 1, Leaf), 3, Leaf);
  }

  /** What is left: 100 is not found in it, and the other six elements remain in order. */
  function SampleWithoutFive(): (t: Tree)
    ensures FindFrom(t, 100) == None
  {
    Node(Node(Node(Leaf, 1, Leaf), 3, Leaf), 4, Node(Node(Leaf, 7, Leaf), 8, Node(Leaf, 9, Leaf)))
  }

  lemma SampleWithoutFiveInorder()
    ensures Inorder(SampleWithoutFive()) == [1, 3, 4, 7, 8, 9]
  {
    var left := Node(Node(Leaf, 1, Leaf), 3, Leaf);
    var right := Node(Node(Leaf, 7, Leaf), 8, Node(Leaf, 9, Leaf));
    assert Inorder(left) == [1, 3];
    assert Inorder(right) == [7, 8, 9];
  }

  /**
   * On a counted tree in which removing 5 leaves SampleWithoutFive, as on
   * the sample (SampleRemoval), removing 5 gives 5 back and leaves the
   * other six elements in order; removing 100 afterwards is a KeyError.
   */
  method RemovalScenario(t: LinkedBST) returns (removed: Result<Option<int>>, missing: Result<Option<int>>, after: seq<int>)
    requires t.Valid() && t.size == 7
    requires FindFrom(t.root, 5) == Some(5) && Delete(t.root, 5) == SampleWithoutFive()
    modifies t
    ensures removed == Ok(Some(5)) && missing == Err(KeyError)
    ensures after == [1, 3, 4, 7, 8, 9] && t.size == 6
  {
    removed := t.Remove(5);
    missing := t.Remove(100);
    after := t.InorderItems();
    SampleWithoutFiveInorder();
  }

  lemma SampleInorder()
    ensures Inorder(Sample()) == [1, 3, 4, 5, 7, 8, 9]
  {
    var left := Node(Node(Leaf, 1, Leaf), 3, Node(Leaf, 4, Leaf));
    var right := Node(Node(Leaf, 7, Leaf), 8, Node(Leaf, 9, Leaf));
    assert Inorder(left) == [1, 3, 4];
    assert Inorder(right) == [7, 8, 9];
  }

  /** The sample's inorder sequence ascends, so it is Ordered (OrderedIffSorted). */
  lemma SampleIsOrdered()
    ensures Sorted(Inorder(Sample()))
  {
    SampleInorder();
    SampleElementsAscend();
  }

  lemma SampleElementsAscend()
    ensures Sorted([1, 3, 4, 5, 7, 8, 9])
  {
    SortedByNeighbours([1, 3, 4, 5, 7, 8, 9]);
  }

  lemma SampleContents()
    ensures Contents(Sample()) == multiset{1, 3, 4, 5, 7, 8, 9}
  {
    SampleInorder();
    TraversalContents(Sample());
  }

  /** A sequence each of whose elements is at least the one before it is sorted. */
  lemma SortedByNeighbours(s: seq<int>)
    requires forall k :: 0 < k < |s| ==> s[k - 1] <= s[k]
    ensures Sorted(s)
  {
    forall i, j | 0 <= i < j < |s| ensures s[i] <= s[j] {
      NeighboursChain(s, i, j);
    }
  }

  lemma {:induction false} NeighboursChain(s: seq<int>, i: int, j: int)
    requires 0 <= i <= j < |s|
    requires forall k :: 0 < k < |s| ==> s[k - 1] <= s[k]
    ensures s[i] <= s[j]
    decreases j - i
  {
    if i < j {
      NeighboursChain(s, i, j - 1);
    }
  }

  /**
   * On an ordered tree holding the sample's elements (the sample itself,
   * by SampleIsOrdered and SampleContents), successor(4) is 5,
   * predecessor(4) is 3, and 9 has no successor.
   */
  method NeighbourScenario(t: LinkedBST) returns (next: Option<int>, previous: Option<int>, afterLargest: Option<int>)
    requires Ordered(t.root) && Contents(t.root) == multiset{1, 3, 4, 5, 7, 8, 9}
    ensures next == Some(5) && previous == Some(3) && afterLargest == None
  {
    next := SuccessorOfFour(t);
    previous := PredecessorOfFour(t);
    afterLargest := SuccessorOfNine(t);
  }

  /** successor(4) on the sample's elements. */
  method SuccessorOfFour(t: LinkedBST) returns (next: Option<int>)
    requires Ordered(t.root) && Contents(t.root) == multiset{1, 3, 4, 5, 7, 8, 9}
    ensures next == Some(5)
  {
    SampleBounds(Contents(t.root));
    next := t.Successor(4);
  }

  /** predecessor(4) on the sample's elements. */
  method PredecessorOfFour(t: LinkedBST) returns (previous: Option<int>)
    requires Ordered(t.root) && Contents(t.root) == multiset{1, 3, 4, 5, 7, 8, 9}
    ensures previous == Some(3)
  {
    SampleBounds(Contents(t.root));
    previous := t.Predecessor(4);
  }

  /** successor(9) on the sample's elements: 9 is the largest. */
  method SuccessorOfNine(t: LinkedBST) returns (afterLargest: Option<int>)
    requires Ordered(t.root) && Contents(t.root) == multiset{1, 3, 4, 5, 7, 8, 9}
    ensures afterLargest == None
  {
    SampleBounds(Contents(t.root));
    afterLargest := t.Successor(9);
  }

  /** The facts about the sample's elements that the three queries need. */
  lemma SampleBounds(c: multiset<int>)
    requires c == multiset{1, 3, 4, 5, 7, 8, 9}
    ensures 3 in c && 5 in c
    ensures forall e :: e in c ==> e <= 9
  {
  }

  /**
   * After `rebalance` the counter says empty, so the next `add` replaces
   * the whole tree by the new element: every element stored before is lost.
   */
  method RebalanceThenAdd(t: LinkedBST, x: int)
    requires t.Valid()
    modifies t
    ensures t.root == Node(Leaf, x, Leaf) && t.size == 1
    ensures Contents(t.root) == multiset{x}
  {
    t.Rebalance();
    t.Add(x);
  }

  /** With the counter restored by the rebuild, the next `add` keeps every element. */
  method RebalanceKeepingSizeThenAdd(t: LinkedBST, x: int)
    requires t.Valid()
    modifies t
    ensures t.Valid() && t.size == old(Count(t.root)) + 1
    ensures Contents(t.root) == old(Contents(t.root)) + multiset{x}
    ensures old(Ordered(t.root)) ==> Ordered(t.root)
  {
    RebuildKeepsElements(t.root);
    RebuildKeepsOrder(t.root);
    t.RebalanceKeepingSize();
    t.Add(x);
  }
}
