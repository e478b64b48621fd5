/**
 * `remove`'s structural surgery: splicing out a node with at most one
 * child, and, for a node with two children, lifting the maximum of its
 * left subtree into it.
 */
module Deletion {
  import opened Wrappers
  import opened Trees
  import opened Search
  import opened Insertion

  /**
   * The datum of the rightmost node, reached by following right links: a
   * stored element, and in an ordered subtree the largest one.
   */
  function Rightmost(t: Tree): (m: int)
    requires t.Node?
    ensures m in Contents(t)
    ensures Ordered(t) ==> forall e :: e in Contents(t) ==> e <= m
  {
    if t.right.Leaf? then t.data else Rightmost(t.right)
  }

  /**
   * The subtree with its rightmost node replaced by that node's left child.
   * Together with Rightmost it splits off the last element of the inorder
   * sequence, so in an ordered subtree Rightmost is the maximum.
   */
  function WithoutRightmost(t: Tree): (rest: Tree)
    requires t.Node?
    ensures Inorder(t) == Inorder(rest) + [Rightmost(t)]
  {
    if t.right.Leaf? then t.left else Node(t.left, t.data, WithoutRightmost(t.right))
  }

  /**
   * `liftMaxInLeftSubtreeToTop`: walk from `top.left` down the right links,
   * keeping the parent; copy the last node's datum into `top`; link that
   * node's left child where the node was (`top.left` when the parent is
   * `top`, else `parent.right`). The walk is recorded as a path of frames
   * so that the rewritten left subtree can be rebuilt from it.
   */
  method LiftMaxInLeftSubtreeToTop(top: Tree) returns (lifted: Tree)
    requires top.Node? && top.left.Node?
    ensures lifted == Node(WithoutRightmost(top.left), Rightmost(top.left), top.right)
  {
    var below: seq<Frame> := [];  // the right links followed from top.left; empty while parent is top
    var currentNode := top.left;
    while currentNode.right.Node?
      invariant currentNode.Node?
      invariant Rightmost(currentNode) == Rightmost(top.left)
      invariant Plug(below, WithoutRightmost(currentNode)) == WithoutRightmost(top.left)
      decreases currentNode
    {
      below := [WentRight(currentNode.left, currentNode.data)] + below;
      currentNode := currentNode.right;
    }
    if below == [] {
      lifted := Node(currentNode.left, currentNode.data, top.right);
    } else {
      lifted := Node(Plug(below, currentNode.left), currentNode.data, top.right);
    }
  }

  /**
   * What replaces the node holding the item: with two children, the node
   * after lifting; with no left child, its right child; otherwise its left
   * child. Inorder, the node's own element disappears and nothing else moves.
   */
  function RemoveNode(t: Tree): (t': Tree)
    requires t.Node?
    ensures Inorder(t') == Inorder(t.left) + Inorder(t.right)
  {
    if t.left.Node? && t.right.Node? then
      Node(WithoutRightmost(t.left), Rightmost(t.left), t.right)
    else if t.left.Leaf? then t.right
    else t.left
  }

  /**
   * `remove`'s search loop: from the root, stop at the node holding `item`,
   * going left past greater data and right past smaller ones. The path
   * walked is returned with the node; its first frame is the parent and its
   * kind the direction ('L' or 'R'), and the empty path the pseudo-root.
   * Splicing the node out and rebuilding from the path is Delete.
   */
  method LocateForRemoval(root: Tree, item: int) returns (parent: seq<Frame>, currentNode: Tree)
    requires FindFrom(root, item).Some?
    ensures currentNode.Node? && currentNode.data == item
    ensures Plug(parent, Delete(currentNode, item)) == Delete(root, item)
  {
    parent := [];
    currentNode := root;
    while currentNode.Node? && currentNode.data != item
      invariant FindFrom(currentNode, item) == Some(item)
      invariant Plug(parent, Delete(currentNode, item)) == Delete(root, item)
      decreases currentNode
    {
      var frame;
      if currentNode.data > item {
        frame := WentLeft(currentNode.data, currentNode.right);
        assert Fill(frame, Delete(currentNode.left, item)) == Delete(currentNode, item);
        currentNode := currentNode.left;
      } else {
        frame := WentRight(currentNode.left, currentNode.data);
        assert Fill(frame, Delete(currentNode.right, item)) == Delete(currentNode, item);
        currentNode := currentNode.right;
      }
      assert ([frame] + parent)[1..] == parent;
      parent := [frame] + parent;
    }
  }

  /**
   * `remove`'s three cases for the node found: two children, lift the
   * maximum of the left subtree; no left child, the right child takes its
   * place; otherwise the left child does.
   */
  method SpliceOut(currentNode: Tree) returns (newChild: Tree)
    requires currentNode.Node?
    ensures newChild == RemoveNode(currentNode)
  {
    if currentNode.left.Node? && currentNode.right.Node? {
      newChild := LiftMaxInLeftSubtreeToTop(currentNode);
    } else if currentNode.left.Leaf? {
      newChild := currentNode.right;
    } else {
      newChild := currentNode.left;
    }
  }

  /** The sequence with its k-th element taken out. */
  function DeleteAt(s: seq<int>, k: nat): seq<int>
    requires k < |s|
  {
    s[..k] + s[k + 1..]
  }

  lemma DeleteAtSplits(s: seq<int>, k: nat)
    requires k < |s|
    ensures |DeleteAt(s, k)| == |s| - 1
    ensures s == DeleteAt(s, k)[..k] + [s[k]] + DeleteAt(s, k)[k..]
  {
    var s' := DeleteAt(s, k);
    assert s'[..k] == s[..k];
    assert s'[k..] == s[k + 1..];
    assert s == s[..k] + [s[k]] + s[k + 1..];
  }

  lemma DeleteAtInLeft(a: seq<int>, x: int, b: seq<int>, k: nat)
    requires k < |a|
    ensures DeleteAt(a + [x] + b, k) == DeleteAt(a, k) + [x] + b
  {
    assert (a + [x] + b)[..k] == a[..k];
    assert (a + [x] + b)[k + 1..] == a[k + 1..] + [x] + b;
  }

  lemma DeleteAtInRight(a: seq<int>, x: int, b: seq<int>, k: nat)
    requires k < |b|
    ensures DeleteAt(a + [x] + b, |a| + 1 + k) == a + [x] + DeleteAt(b, k)
  {
    var n := |a| + 1 + k;
    assert (a + [x] + b)[..n] == a + [x] + b[..k];
    assert (a + [x] + b)[n + 1..] == b[k + 1..];
  }

  lemma DeleteAtMiddle(a: seq<int>, x: int, b: seq<int>)
    ensures DeleteAt(a + [x] + b, |a|) == a + b
  {
    assert (a + [x] + b)[..|a|] == a;
    assert (a + [x] + b)[|a| + 1..] == b;
  }

  /**
   * The tree `remove` leaves: the search of `find` is repeated, and the node
   * it stops at is replaced by RemoveNode. If the search fails the tree is
   * unchanged (DeleteInorder says what happens otherwise).
   */
  function Delete(t: Tree, item: int): (t': Tree)
    ensures FindFrom(t, item).None? ==> t' == t
  {
    match t
    case Leaf => Leaf
    case Node(l, x, r) =>
      if x == item then RemoveNode(t)
      else if x > item then Node(Delete(l, item), x, r)
      else Node(l, x, Delete(r, item))
  }

  /**
   * When the search succeeds, exactly the element at the inorder position
   * of the node it stopped at is taken out, and the rest keep their order.
   */
  lemma {:induction false} DeleteInorder(t: Tree, item: int)
    requires FindFrom(t, item).Some?
    ensures Inorder(Delete(t, item)) == DeleteAt(Inorder(t), HitIndex(t, item))
  {
    match t
    case Node(l, x, r) =>
      if x == item {
        DeleteAtMiddle(Inorder(l), x, Inorder(r));
      } else if x > item {
        DeleteInorder(l, item);
        DeleteAtInLeft(Inorder(l), x, Inorder(r), HitIndex(l, item));
      } else {
        DeleteInorder(r, item);
        DeleteAtInRight(Inorder(l), x, Inorder(r), HitIndex(r, item));
      }
  }

  /** Removing a found item takes exactly one copy of it out of the contents. */
  lemma DeleteContents(t: Tree, item: int)
    requires FindFrom(t, item).Some?
    ensures Contents(Delete(t, item)) == Contents(t) - multiset{item}
    ensures Count(Delete(t, item)) == Count(t) - 1
  {
    var s, k := Inorder(t), HitIndex(t, item);
    var s' := Inorder(Delete(t, item));
    DeleteInorder(t, item);
    DeleteAtSplits(s, k);
    TraversalContents(t);
    TraversalContents(Delete(t, item));
    assert s == s'[..k] + [item] + s'[k..];
    assert s' == s'[..k] + s'[k..];
    assert multiset(s) == multiset(s'[..k]) + multiset{item} + multiset(s'[k..]);
  }

  lemma SortedDeleteAt(s: seq<int>, k: nat)
    requires k < |s| && Sorted(s)
    ensures Sorted(DeleteAt(s, k))
  {
    var s' := DeleteAt(s, k);
    assert forall i :: 0 <= i < |s'| ==> s'[i] == if i < k then s[i] else s[i + 1];
  }

  lemma StrictlySortedDeleteAt(s: seq<int>, k: nat)
    requires k < |s| && StrictlySorted(s)
    ensures StrictlySorted(DeleteAt(s, k))
  {
    var s' := DeleteAt(s, k);
    assert forall i :: 0 <= i < |s'| ==> s'[i] == if i < k then s[i] else s[i + 1];
  }

  /** `remove` keeps the inorder traversal sorted, duplicates or not. */
  lemma DeleteKeepsOrdered(t: Tree, item: int)
    requires Ordered(t)
    ensures Ordered(Delete(t, item))
  {
    if FindFrom(t, item).Some? {
      OrderedIffSorted(t);
      DeleteInorder(t, item);
      SortedDeleteAt(Inorder(t), HitIndex(t, item));
      OrderedIffSorted(Delete(t, item));
    }
  }

  /** With distinct keys `remove` keeps the strict order of `add`. */
  lemma DeleteKeepsDistinctSearchTree(t: Tree, item: int)
    requires StrictlySorted(Inorder(t))
    ensures StrictlySorted(Inorder(Delete(t, item)))
    ensures SearchTree(Delete(t, item))
  {
    if FindFrom(t, item).Some? {
      DeleteInorder(t, item);
      StrictlySortedDeleteAt(Inorder(t), HitIndex(t, item));
    }
    StrictlySortedIsSearchTree(Delete(t, item));
  }

  /**
   * With duplicate keys the strict order is lost: add 5, 3, 3, 8, then
   * remove 5; the lifted 3 has the other 3 in its left subtree.
   */
  lemma DuplicateKeysBreakStrictOrder()
    ensures var t := Insert(Insert(Insert(Insert(Leaf, 5), 3), 3), 8);
      SearchTree(t) && !SearchTree(Delete(t, 5))
  {
    var t := Insert(Insert(Insert(Insert(Leaf, 5), 3), 3), 8);
    TwoThreesAfterRemoval();
    var removed := Delete(t, 5);
    assert removed.data in Contents(removed.left);
    LeftCopyBreaksSearchTree(removed);
  }

  /** Add 5, 3, 3, 8 and remove 5: the second 3 is lifted into the root, above the first. */
  lemma TwoThreesAfterRemoval()
    ensures var t := Insert(Insert(Insert(Insert(Leaf, 5), 3), 3), 8);
      t == Node(Node(Leaf, 3, Node(Leaf, 3, Leaf)), 5, Node(Leaf, 8, Leaf)) &&
      Delete(t, 5) == Node(Node(Leaf, 3, Leaf), 3, Node(Leaf, 8, Leaf))
  {
    var three := Node(Leaf, 3, Leaf);
    var eight := Node(Leaf, 8, Leaf);
    var t := Insert(Insert(Insert(Insert(Leaf, 5), 3), 3), 8);
    assert t == Node(Node(Leaf, 3, three), 5, eight);
    assert Delete(t, 5) == Node(three, 3, eight);
  }
}
