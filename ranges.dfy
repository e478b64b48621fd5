/** `rangeFind`: the stored elements between two inclusive bounds. */
module Ranges {
  import opened Trees
  import opened Insertion
  import Deletion

  /** The elements of `s` with low <= e <= high, in their order in `s`. */
  function InRange(s: seq<int>, low: int, high: int): seq<int>
  {
    if s == [] then []
    else (if low <= s[0] <= high then [s[0]] else []) + InRange(s[1..], low, high)
  }

  lemma {:induction false} InRangeConcat(a: seq<int>, b: seq<int>, low: int, high: int)
    ensures InRange(a + b, low, high) == InRange(a, low, high) + InRange(b, low, high)
  {
    if a != [] {
      assert (a + b)[0] == a[0];
      assert (a + b)[1..] == a[1..] + b;
      InRangeConcat(a[1..], b, low, high);
    } else {
      assert a + b == b;
    }
  }

  lemma {:induction false} InRangeNone(s: seq<int>, low: int, high: int)
    requires forall e :: e in s ==> e < low || high < e
    ensures InRange(s, low, high) == []
  {
    if s != [] {
      assert s[0] in s;
      assert forall e :: e in s[1..] ==> e in s;
      InRangeNone(s[1..], low, high);
    }
  }

  lemma InRangeSingle(x: int, low: int, high: int)
    ensures InRange([x], low, high) == if low <= x <= high then [x] else []
  {
    assert [x][1..] == [];
  }

  /**
   * `_range_find_recursive` as a value: the node if it is in range, then
   * the left subtree unless the node is at most `low`, then the right
   * subtree unless the node is at least `high`.
   */
  function RangeVisit(t: Tree, low: int, high: int): (found: seq<int>)
    ensures |found| <= Count(t)
  {
    match t
    case Leaf => []
    case Node(l, x, r) =>
      (if low <= x <= high then [x] else [])
      + (if x > low then RangeVisit(l, low, high) else [])
      + (if x < high then RangeVisit(r, low, high) else [])
  }

  /** The three parts RangeVisit concatenates at a node. */
  function Visit(t: Tree, low: int, high: int): (parts: (seq<int>, seq<int>, seq<int>))
    requires t.Node?
    ensures RangeVisit(t, low, high) == parts.0 + parts.1 + parts.2
  {
    var x := t.data;
    ((if low <= x <= high then [x] else []),
     (if x > low then RangeVisit(t.left, low, high) else []),
     (if x < high then RangeVisit(t.right, low, high) else []))
  }

  /**
   * `_range_find_recursive`: appends to the `result` list it is handed;
   * the list is threaded through the calls.
   */
  method RangeFindFrom(node: Tree, low: int, high: int, acc: seq<int>) returns (result: seq<int>)
    ensures result == acc + RangeVisit(node, low, high)
    decreases node
  {
    if node.Leaf? {
      assert acc + [] == acc;
      return acc;
    }
    ghost var parts := Visit(node, low, high);
    ghost var here, left, right := parts.0, parts.1, parts.2;
    result := acc;
    if low <= node.data <= high {
      result := result + [node.data];
    }
    assert result == acc + here;
    if node.data > low {
      result := RangeFindFrom(node.left, low, high, result);
    }
    assert result == acc + here + left;
    if node.data < high {
      result := RangeFindFrom(node.right, low, high, result);
    }
    assert result == acc + here + left + right;
    assert RangeVisit(node, low, high) == here + left + right;
    AppendAssociates(acc, here, left, right);
  }

  /** Regrouping the appended parts, kept apart so the method's context stays small. */
  lemma AppendAssociates(a: seq<int>, b: seq<int>, c: seq<int>, d: seq<int>)
    ensures a + (b + c + d) == a + b + c + d
  {
  }

  /** Whatever the tree, only elements within the bounds are reported. */
  lemma {:induction false} RangeVisitInBounds(t: Tree, low: int, high: int)
    ensures forall e :: e in RangeVisit(t, low, high) ==> low <= e <= high
  {
    match t
    case Leaf =>
    case Node(l, x, r) =>
      RangeVisitInBounds(l, low, high);
      RangeVisitInBounds(r, low, high);
      var parts := Visit(t, low, high);
      var here, left, right := parts.0, parts.1, parts.2;
      forall e | e in here + left + right ensures low <= e <= high {
        assert e in here || e in left || e in right;
      }
  }

  /** Whatever the tree, only stored elements are reported, none more often than stored. */
  lemma {:induction false} RangeVisitStored(t: Tree, low: int, high: int)
    ensures multiset(RangeVisit(t, low, high)) <= Contents(t)
  {
    match t
    case Leaf =>
    case Node(l, x, r) =>
      RangeVisitStored(l, low, high);
      RangeVisitStored(r, low, high);
      var parts := Visit(t, low, high);
      var here, left, right := parts.0, parts.1, parts.2;
      assert multiset(here) <= multiset{x};
      assert multiset(left) <= Contents(l);
      assert multiset(right) <= Contents(r);
      assert multiset(here + left + right) == multiset(here) + multiset(left) + multiset(right);
  }

  /** A subtree holding nothing within the bounds contributes nothing to the in-range part of a traversal. */
  lemma OutOfRangeSubtree(u: Tree, low: int, high: int)
    requires forall e :: e in Contents(u) ==> e < low || high < e
    ensures InRange(Preorder(u), low, high) == []
  {
    var p := Preorder(u);
    TraversalContents(u);
    forall e | e in p ensures e < low || high < e {
      assert e in multiset(p);
    }
    InRangeNone(p, low, high);
  }

  /** Below a node at most `low`, a left subtree holds nothing within range. */
  lemma PrunedLeftIsOutOfRange(t: Tree, low: int, high: int)
    requires t.Node? && SearchTree(t) && t.data <= low
    ensures InRange(Preorder(t.left), low, high) == []
  {
    assert forall e :: e in Contents(t.left) ==> e < t.data;
    OutOfRangeSubtree(t.left, low, high);
  }

  /**
   * Below a node at least `high`, a right subtree holds only elements above
   * `high`, provided `high` is stored at most once.
   */
  lemma RightOfHighIsAbove(t: Tree, high: int)
    requires t.Node? && SearchTree(t) && high <= t.data && Contents(t)[high] <= 1
    ensures forall e :: e in Contents(t.right) ==> high < e
  {
    assert forall e :: e in Contents(t.right) ==> t.data <= e;
    if high == t.data {
      CopiesAtRoot(t);
    }
  }

  /** The copies of a node's own datum: those in its subtrees and itself. */
  lemma CopiesAtRoot(t: Tree)
    requires t.Node?
    ensures Contents(t)[t.data] == Contents(t.left)[t.data] + 1 + Contents(t.right)[t.data]
  {
  }

  /** So such a right subtree holds nothing within range. */
  lemma PrunedRightIsOutOfRange(t: Tree, low: int, high: int)
    requires t.Node? && SearchTree(t) && high <= t.data && Contents(t)[high] <= 1
    ensures InRange(Preorder(t.right), low, high) == []
  {
    RightOfHighIsAbove(t, high);
    OutOfRangeSubtree(t.right, low, high);
  }

  /**
   * In a tree ordered as `add` orders it, and with `high` stored at most
   * once, nothing is pruned wrongly: the result is the in-range part of
   * the preorder traversal.
   */
  lemma {:induction false} RangeVisitExact(t: Tree, low: int, high: int)
    requires SearchTree(t) && Contents(t)[high] <= 1
    ensures RangeVisit(t, low, high) == InRange(Preorder(t), low, high)
  {
    match t
    case Leaf =>
    case Node(l, x, r) =>
      var pl, pr := Preorder(l), Preorder(r);
      var parts := Visit(t, low, high);
      assert Preorder(t) == [x] + pl + pr;
      InRangeConcat([x] + pl, pr, low, high);
      InRangeConcat([x], pl, low, high);
      InRangeSingle(x, low, high);
      assert parts.1 == InRange(pl, low, high) by {
        if x > low {
          RangeVisitExact(l, low, high);
        } else {
          PrunedLeftIsOutOfRange(t, low, high);
        }
      }
      assert parts.2 == InRange(pr, low, high) by {
        if x < high {
          RangeVisitExact(r, low, high);
        } else {
          PrunedRightIsOutOfRange(t, low, high);
        }
      }
  }

  /** The in-range elements of both traversals are the same multiset. */
  lemma {:induction false} InRangeTraversals(t: Tree, low: int, high: int)
    ensures multiset(InRange(Preorder(t), low, high)) == multiset(InRange(Inorder(t), low, high))
  {
    match t
    case Leaf =>
    case Node(l, x, r) =>
      InRangeTraversals(l, low, high);
      InRangeTraversals(r, low, high);
      InRangeConcat([x] + Preorder(l), Preorder(r), low, high);
      InRangeConcat([x], Preorder(l), low, high);
      InRangeConcat(Inorder(l) + [x], Inorder(r), low, high);
      InRangeConcat(Inorder(l), [x], low, high);
      assert Preorder(t) == [x] + Preorder(l) + Preorder(r);
      assert Inorder(t) == Inorder(l) + [x] + Inorder(r);
  }

  /**
   * Under the same conditions the result holds exactly the stored elements
   * within the bounds, each as often as stored, though not in ascending order.
   */
  lemma RangeVisitComplete(t: Tree, low: int, high: int)
    requires SearchTree(t) && Contents(t)[high] <= 1
    ensures multiset(RangeVisit(t, low, high)) == multiset(InRange(Inorder(t), low, high))
  {
    RangeVisitExact(t, low, high);
    InRangeTraversals(t, low, high);
  }

  /** The result comes in preorder: add 2 then 1, and rangeFind(1, 2) gives [2, 1]. */
  lemma RangeFindIsNotAscending()
    ensures var t := Insert(Insert(Leaf, 2), 1);
      RangeVisit(t, 1, 2) == [2, 1] && InRange(Inorder(t), 1, 2) == [1, 2]
  {
    TwoThenOne();
    VisitTwoThenOne();
    InRangeConcat([1], [2], 1, 2);
    InRangeSingle(1, 1, 2);
    InRangeSingle(2, 1, 2);
  }

  /** Adding 2 then 1 puts 1 in the left child of 2. */
  lemma TwoThenOne()
    ensures var t := Insert(Insert(Leaf, 2), 1);
      t == Node(Node(Leaf, 1, Leaf), 2, Leaf) && Inorder(t) == [1] + [2]
  {
    assert Insert(Insert(Leaf, 2), 1) == Node(Node(Leaf, 1, Leaf), 2, Leaf);
  }

  lemma VisitTwoThenOne()
    ensures RangeVisit(Node(Node(Leaf, 1, Leaf), 2, Leaf), 1, 2) == [2, 1]
  {
    var one := Node(Leaf, 1, Leaf);
    assert RangeVisit(one, 1, 2) == [1] + [] + [];
    assert RangeVisit(Node(one, 2, Leaf), 1, 2) == [2] + [1] + [];
  }

  /** A right subtree holding a copy of `high` is pruned: add 5 twice, and rangeFind(5, 5) gives one 5. */
  lemma RangeFindMissesDuplicateHigh()
    ensures var t := Insert(Insert(Leaf, 5), 5);
      SearchTree(t) && Contents(t)[5] == 2 && RangeVisit(t, 5, 5) == [5]
  {
    var t := Insert(Insert(Leaf, 5), 5);
    assert t == Node(Leaf, 5, Node(Leaf, 5, Leaf));
  }

  /**
   * The left subtree of a node equal to `low` is pruned too. Removal lifts
   * a copy of a key above the copies left in its left subtree: add 5, 3,
   * 3, 8 and remove 5, and the tree, still ordered, holds 3 twice, yet
   * rangeFind(3, 3) gives one 3.
   */
  lemma RangeFindMissesDuplicateLow()
    ensures var t := Deletion.Delete(Insert(Insert(Insert(Insert(Leaf, 5), 3), 3), 8), 5);
      Ordered(t) && Contents(t)[3] == 2 && RangeVisit(t, 3, 3) == [3]
  {
    Deletion.TwoThreesAfterRemoval();
  }

  /**
   * The walk with the pruning the class's order calls for: equal elements
   * can sit on either side once `remove` or `rebalance` has run, so a left
   * subtree can only be skipped below a node strictly below `low`, and a
   * right subtree below a node strictly above `high`.
   */
  function RangeVisitCorrected(t: Tree, low: int, high: int): (found: seq<int>)
    ensures |found| <= Count(t)
  {
    match t
    case Leaf => []
    case Node(l, x, r) =>
      (if low <= x <= high then [x] else [])
      + (if low <= x then RangeVisitCorrected(l, low, high) else [])
      + (if x <= high then RangeVisitCorrected(r, low, high) else [])
  }

  /** Below a node strictly below `low`, a left subtree holds nothing within range. */
  lemma BelowLowPrunesLeft(t: Tree, low: int, high: int)
    requires t.Node? && Ordered(t) && t.data < low
    ensures InRange(Preorder(t.left), low, high) == []
  {
    assert forall e :: e in Contents(t.left) ==> e <= t.data;
    OutOfRangeSubtree(t.left, low, high);
  }

  /** Below a node strictly above `high`, a right subtree holds nothing within range. */
  lemma AboveHighPrunesRight(t: Tree, low: int, high: int)
    requires t.Node? && Ordered(t) && high < t.data
    ensures InRange(Preorder(t.right), low, high) == []
  {
    assert forall e :: e in Contents(t.right) ==> t.data <= e;
    OutOfRangeSubtree(t.right, low, high);
  }

  /**
   * In any ordered tree, duplicates on either side included, the
   * corrected walk reports exactly the in-range part of the preorder
   * traversal.
   */
  lemma {:induction false} RangeVisitCorrectedExact(t: Tree, low: int, high: int)
    requires Ordered(t)
    ensures RangeVisitCorrected(t, low, high) == InRange(Preorder(t), low, high)
  {
    match t
    case Leaf =>
    case Node(l, x, r) =>
      var pl, pr := Preorder(l), Preorder(r);
      assert Preorder(t) == [x] + pl + pr;
      InRangeConcat([x] + pl, pr, low, high);
      InRangeConcat([x], pl, low, high);
      InRangeSingle(x, low, high);
      var here := if low <= x <= high then [x] else [];
      var left := if low <= x then RangeVisitCorrected(l, low, high) else [];
      var right := if x <= high then RangeVisitCorrected(r, low, high) else [];
      assert RangeVisitCorrected(t, low, high) == here + left + right;
      assert left == InRange(pl, low, high) by {
        if low <= x {
          RangeVisitCorrectedExact(l, low, high);
        } else {
          BelowLowPrunesLeft(t, low, high);
        }
      }
      assert right == InRange(pr, low, high) by {
        if x <= high {
          RangeVisitCorrectedExact(r, low, high);
        } else {
          AboveHighPrunesRight(t, low, high);
        }
      }
  }

  /**
   * So in every ordered tree, which covers every tree `add`, `remove` and
   * `rebalance` build, it reports every stored element within the bounds,
   * as often as stored.
   */
  lemma RangeVisitCorrectedComplete(t: Tree, low: int, high: int)
    requires Ordered(t)
    ensures multiset(RangeVisitCorrected(t, low, high)) == multiset(InRange(Inorder(t), low, high))
  {
    RangeVisitCorrectedExact(t, low, high);
    InRangeTraversals(t, low, high);
  }

  /** On the tree holding 5 twice, the corrected walk reports both copies. */
  lemma RangeCorrectedKeepsDuplicateHigh()
    ensures RangeVisitCorrected(Insert(Insert(Leaf, 5), 5), 5, 5) == [5, 5]
  {
    var t := Insert(Insert(Leaf, 5), 5);
    assert t == Node(Leaf, 5, Node(Leaf, 5, Leaf));
  }

  /** On the tree left by removing 5 after adding 5, 3, 3, 8, the corrected walk reports both 3s. */
  lemma RangeCorrectedKeepsDuplicateLow()
    ensures RangeVisitCorrected(Deletion.Delete(Insert(Insert(Insert(Insert(Leaf, 5), 3), 3), 8), 5), 3, 3) == [3, 3]
  {
    Deletion.TwoThreesAfterRemoval();
  }
}
