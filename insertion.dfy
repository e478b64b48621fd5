/** `add`'s descent to an empty link and the leaf it attaches there. */
module Insertion {
  import opened Trees

  /**
   * `add`'s inner `recurse`: a smaller item goes left, a greater or equal
   * one goes right, until a `None` link is reached, which gets a new leaf.
   * Exactly one copy of `item` is added.
   */
  function Insert(t: Tree, item: int): (t': Tree)
    ensures Contents(t') == Contents(t) + multiset{item}
    ensures Count(t') == Count(t) + 1
  {
    match t
    case Leaf => Node(Leaf, item, Leaf)
    case Node(l, x, r) =>
      if item < x then Node(Insert(l, item), x, r)
      else Node(l, x, Insert(r, item))
  }

  /** `add` keeps the strict order: left subtree smaller, right subtree greater or equal. */
  lemma {:induction false} InsertKeepsSearchTree(t: Tree, item: int)
    requires SearchTree(t)
    ensures SearchTree(Insert(t, item))
  {
    match t
    case Leaf =>
    case Node(l, x, r) =>
      if item < x {
        var l' := Insert(l, item);
        InsertKeepsSearchTree(l, item);
        forall y | y in Contents(l') ensures y < x {
          assert y == item || y in Contents(l);
        }
        assert Insert(t, item) == Node(l', x, r);
      } else {
        var r' := Insert(r, item);
        InsertKeepsSearchTree(r, item);
        forall y | y in Contents(r') ensures x <= y {
          assert y == item || y in Contents(r);
        }
        assert Insert(t, item) == Node(l, x, r');
      }
  }

  /** `add` also keeps the weak order of a tree that removals have left with duplicates. */
  lemma {:induction false} InsertKeepsOrdered(t: Tree, item: int)
    requires Ordered(t)
    ensures Ordered(Insert(t, item))
  {
    match t
    case Leaf =>
    case Node(l, x, r) =>
      if item < x {
        var l' := Insert(l, item);
        assert Insert(t, item) == Node(l', x, r);
        InsertKeepsOrdered(l, item);
        BoundAfterInsert(l, item, x);
      } else {
        var r' := Insert(r, item);
        assert Insert(t, item) == Node(l, x, r');
        InsertKeepsOrdered(r, item);
        LowerBoundAfterInsert(r, item, x);
      }
  }

  /** Inserting an item at most `x` keeps every element at most `x`. */
  lemma BoundAfterInsert(t: Tree, item: int, x: int)
    requires item <= x && forall y :: y in Contents(t) ==> y <= x
    ensures forall y :: y in Contents(Insert(t, item)) ==> y <= x
  {
    forall y | y in Contents(Insert(t, item)) ensures y <= x {
      assert y == item || y in Contents(t);
    }
  }

  /** Inserting an item at least `x` keeps every element at least `x`. */
  lemma LowerBoundAfterInsert(t: Tree, item: int, x: int)
    requires x <= item && forall y :: y in Contents(t) ==> x <= y
    ensures forall y :: y in Contents(Insert(t, item)) ==> x <= y
  {
    forall y | y in Contents(Insert(t, item)) ensures x <= y {
      assert y == item || y in Contents(t);
    }
  }

  /** After `add` into an ordered tree the inorder traversal is still ascending. */
  lemma InsertKeepsInorderSorted(t: Tree, item: int)
    requires Sorted(Inorder(t))
    ensures Sorted(Inorder(Insert(t, item)))
    ensures multiset(Inorder(Insert(t, item))) == multiset(Inorder(t)) + multiset{item}
  {
    OrderedIffSorted(t);
    InsertKeepsOrdered(t, item);
    OrderedIffSorted(Insert(t, item));
    TraversalContents(t);
    TraversalContents(Insert(t, item));
  }
}
