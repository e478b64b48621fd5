/**
 * `rebalance`'s two helpers: flattening the tree in order (shared with
 * `inorder`) and rebuilding it by recursive midpoint selection.
 */
module Rebalancing {
  import opened Trees
  import opened Insertion

  /**
   * `copy_nodes` (and `inorder`'s `recurse`, the same code): visit left,
   * append the node, visit right. The list appended to is threaded through.
   */
  method AppendInorder(node: Tree, acc: seq<int>) returns (result: seq<int>)
    ensures result == acc + Inorder(node)
    decreases node
  {
    if node.Leaf? {
      assert acc + [] == acc;
      return acc;
    }
    result := AppendInorder(node.left, acc);
    result := result + [node.data];
    result := AppendInorder(node.right, result);
    assert acc + Inorder(node) == acc + Inorder(node.left) + [node.data] + Inorder(node.right);
  }

  /**
   * `build_balanced_tree`: the element at the lower midpoint of
   * lst[startIndex..endIndex] becomes the root, the elements before it the
   * left subtree, those after it the right subtree; an empty slice gives no
   * node. It builds one node per element of the slice; BuildBalancedInorder
   * and BuildBalancedHeight say what else it builds.
   */
  function BuildBalanced(lst: seq<int>, startIndex: int, endIndex: int): (t: Tree)
    requires 0 <= startIndex && endIndex <= |lst|
    ensures Count(t) == if startIndex <= endIndex then endIndex - startIndex else 0
    decreases endIndex - startIndex
  {
    if startIndex >= endIndex then Leaf
    else
      var midIndex := (startIndex + endIndex) / 2;
      Node(BuildBalanced(lst, startIndex, midIndex), lst[midIndex], BuildBalanced(lst, midIndex + 1, endIndex))
  }

  /** The inorder sequence of the rebuilt tree is exactly the slice it was built from. */
  lemma {:induction false} BuildBalancedInorder(lst: seq<int>, startIndex: int, endIndex: int)
    requires 0 <= startIndex <= endIndex <= |lst|
    ensures Inorder(BuildBalanced(lst, startIndex, endIndex)) == lst[startIndex..endIndex]
    decreases endIndex - startIndex
  {
    if startIndex < endIndex {
      var midIndex := (startIndex + endIndex) / 2;
      var left := BuildBalanced(lst, startIndex, midIndex);
      var right := BuildBalanced(lst, midIndex + 1, endIndex);
      BuildBalancedInorder(lst, startIndex, midIndex);
      BuildBalancedInorder(lst, midIndex + 1, endIndex);
      BuildBalancedUnfolds(lst, startIndex, endIndex);
      SliceSplits(lst, startIndex, midIndex, endIndex);
      assert Inorder(Node(left, lst[midIndex], right)) == Inorder(left) + [lst[midIndex]] + Inorder(right);
    }
  }

  /**
   * Every node's left subtree has as many nodes as its right subtree, or
   * one more: the shape midpoint selection produces.
   */
  ghost predicate LeftLeaning(t: Tree)
  {
    match t
    case Leaf => true
    case Node(l, _, r) => Count(r) <= Count(l) <= Count(r) + 1 && LeftLeaning(l) && LeftLeaning(r)
  }

  /** The rebuilt tree has that shape. */
  lemma {:induction false} BuildBalancedShape(lst: seq<int>, startIndex: int, endIndex: int)
    requires 0 <= startIndex <= endIndex <= |lst|
    ensures LeftLeaning(BuildBalanced(lst, startIndex, endIndex))
    decreases endIndex - startIndex
  {
    if startIndex < endIndex {
      var midIndex := (startIndex + endIndex) / 2;
      BuildBalancedShape(lst, startIndex, midIndex);
      BuildBalancedShape(lst, midIndex + 1, endIndex);
    }
  }

  /** Such a tree is as low as any tree with that many nodes can be. */
  lemma {:induction false} LeftLeaningHeight(t: Tree)
    requires LeftLeaning(t)
    ensures Height1(t) == MinHeight(Count(t))
  {
    match t
    case Leaf =>
    case Node(l, _, r) =>
      LeftLeaningHeight(l);
      LeftLeaningHeight(r);
      MinHeightMonotone(Count(r), Count(l));
      assert Count(t) / 2 == Count(l);
  }

  /** The rebuilt tree is as low as any tree with that many nodes can be (see MinimalHeight). */
  lemma BuildBalancedHeight(lst: seq<int>, startIndex: int, endIndex: int)
    requires 0 <= startIndex <= endIndex <= |lst|
    ensures Height1(BuildBalanced(lst, startIndex, endIndex)) == MinHeight(endIndex - startIndex)
  {
    BuildBalancedShape(lst, startIndex, endIndex);
    LeftLeaningHeight(BuildBalanced(lst, startIndex, endIndex));
  }

  lemma BuildBalancedUnfolds(lst: seq<int>, startIndex: int, endIndex: int)
    requires 0 <= startIndex < endIndex <= |lst|
    ensures var midIndex := (startIndex + endIndex) / 2;
      BuildBalanced(lst, startIndex, endIndex)
      == Node(BuildBalanced(lst, startIndex, midIndex), lst[midIndex], BuildBalanced(lst, midIndex + 1, endIndex))
  {
  }

  lemma SliceSplits(lst: seq<int>, a: int, m: int, b: int)
    requires 0 <= a <= m < b <= |lst|
    ensures lst[a..b] == lst[a..m] + [lst[m]] + lst[m + 1..b]
  {
    assert lst[a..b] == lst[a..m] + lst[m..b];
    assert lst[m..b] == [lst[m]] + lst[m + 1..b];
  }

  /**
   * The tree `rebalance` builds from `t`: its inorder sequence, rebuilt by
   * midpoint selection. It has as many nodes as `t`.
   */
  function Rebuild(t: Tree): (rebuilt: Tree)
    ensures Count(rebuilt) == Count(t)
  {
    TraversalContents(t);
    BuildBalanced(Inorder(t), 0, |Inorder(t)|)
  }

  /** Rebuilding keeps the inorder sequence, hence every element. */
  lemma RebuildInorder(t: Tree)
    ensures Inorder(Rebuild(t)) == Inorder(t)
  {
    var s := Inorder(t);
    BuildBalancedInorder(s, 0, |s|);
    assert s[0..|s|] == s;
  }

  lemma RebuildContents(t: Tree)
    ensures Contents(Rebuild(t)) == Contents(t)
  {
    RebuildInorder(t);
    TraversalContents(t);
    TraversalContents(Rebuild(t));
  }

  lemma RebuildLeftLeaning(t: Tree)
    ensures LeftLeaning(Rebuild(t))
  {
    var s := Inorder(t);
    BuildBalancedShape(s, 0, |s|);
  }

  /** The rebuilt tree is as low as a tree with that many nodes can be, so never higher than before. */
  lemma RebuildHeight(t: Tree)
    ensures Height1(Rebuild(t)) == MinHeight(Count(t)) <= Height1(t)
  {
    RebuildLeftLeaning(t);
    LeftLeaningHeight(Rebuild(t));
    MinimalHeight(t);
  }

  /** Everything `rebalance` promises about the tree it builds, in one place. */
  lemma RebuildKeepsElements(t: Tree)
    ensures Inorder(Rebuild(t)) == Inorder(t)
    ensures Contents(Rebuild(t)) == Contents(t) && Count(Rebuild(t)) == Count(t)
    ensures Height1(Rebuild(t)) == MinHeight(Count(t)) <= Height1(t)
  {
    RebuildInorder(t);
    RebuildContents(t);
    RebuildHeight(t);
  }

  /**
   * Rebuilding keeps the weak order, and gives the strict order of `add`
   * when the keys are distinct.
   */
  lemma RebuildKeepsOrder(t: Tree)
    ensures Ordered(t) ==> Ordered(Rebuild(t))
    ensures StrictlySorted(Inorder(t)) ==> SearchTree(Rebuild(t))
  {
    RebuildInorder(t);
    OrderedIffSorted(t);
    OrderedIffSorted(Rebuild(t));
    if StrictlySorted(Inorder(t)) {
      StrictlySortedIsSearchTree(Rebuild(t));
    }
  }

  /**
   * With duplicate keys the rebuilt tree breaks the strict order of `add`:
   * add 1 twice and rebuild; the root's left child is the other 1.
   */
  lemma RebuildWithDuplicatesBreaksStrictOrder()
    ensures var t := Insert(Insert(Leaf, 1), 1);
      SearchTree(t) && !SearchTree(BuildBalanced(Inorder(t), 0, 2))
  {
    var t := Insert(Insert(Leaf, 1), 1);
    TwoOnes();
    InsertKeepsSearchTree(Leaf, 1);
    InsertKeepsSearchTree(Insert(Leaf, 1), 1);
    RebuiltTwoOnes();
    LeftCopyBreaksSearchTree(BuildBalanced([1, 1], 0, 2));
  }

  /** Adding 1 twice: the second 1 goes right, and the inorder sequence is [1, 1]. */
  lemma TwoOnes()
    ensures Insert(Insert(Leaf, 1), 1) == Node(Leaf, 1, Node(Leaf, 1, Leaf))
    ensures Inorder(Insert(Insert(Leaf, 1), 1)) == [1, 1]
  {
    assert Inorder(Node(Leaf, 1, Leaf)) == [1];
  }

  /** Rebuilding [1, 1] puts the first 1 under the second, on the left. */
  lemma RebuiltTwoOnes()
    ensures BuildBalanced([1, 1], 0, 2) == Node(Node(Leaf, 1, Leaf), 1, Leaf)
  {
    BuildBalancedUnfolds([1, 1], 0, 2);
    BuildBalancedUnfolds([1, 1], 0, 1);
  }
}
