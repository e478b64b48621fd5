/**
 * The `LinkedBST` collection: a root link and a size counter, updated in
 * place by its mutators. A node whose links the source rewrites in place is
 * rebuilt here from the search path that reached it (see Search.Plug).
 */
module BST {
  import opened Wrappers
  import opened Trees
  import opened Search
  import opened Insertion
  import opened Deletion
  import opened Replacement
  import opened Ranges
  import opened Rebalancing

  /** The preorder sequence still to come from a stack of subtrees whose top is its last entry. */
  function StackPreorder(stack: seq<Tree>): seq<int>
    decreases |stack|
  {
    if stack == [] then [] else Preorder(stack[|stack| - 1]) + StackPreorder(stack[..|stack| - 1])
  }

  lemma StackPush(stack: seq<Tree>, t: Tree)
    ensures StackPreorder(stack + [t]) == Preorder(t) + StackPreorder(stack)
  {
    assert (stack + [t])[..|stack|] == stack;
  }

  class LinkedBST {
    var root: Tree
    var size: nat

    /**
     * The counter matches the nodes, except that `rebalance` rebuilds the
     * nodes while leaving the counter at zero.
     */
    ghost predicate Valid()
      reads this
    {
      size == 0 || size == Count(root)
    }

    /** An empty tree (`sourceCollection` is not modelled). */
    constructor()
      ensures Valid() && root == Leaf && size == 0
    {
      root := Leaf;
      size := 0;
    }

    /**
     * The collection's emptiness test looks at the counter, not at the
     * root: under the counter invariant a tree without nodes is empty, and
     * one that is not empty holds as many nodes as the counter says.
     */
    function IsEmpty(): (empty: bool)
      reads this
      ensures Valid() && root == Leaf ==> empty
      ensures Valid() && !empty ==> root.Node? && Count(root) == size
    {
      size == 0
    }

    /** `find`: the stored element equal to `item` met on the search path, if any. */
    function Find(item: int): (found: Option<int>)
      reads this
      ensures found.Some? ==> found.value == item && item in Contents(root)
      ensures Ordered(root) ==> (found.Some? <==> item in Contents(root))
    {
      FindFrom(root, item)
    }

    /** `__contains__`: whether `find` succeeds. */
    function Contains(item: int): (present: bool)
      reads this
      ensures present ==> item in Contents(root)
      ensures Ordered(root) ==> (present <==> item in Contents(root))
    {
      Find(item).Some?
    }

    /** `clear`: drop every node and reset the counter. */
    method Clear()
      modifies this
      ensures Valid() && root == Leaf && size == 0
    {
      root := Leaf;
      size := 0;
    }

    /**
     * `add`: when the counter says empty the item becomes the whole tree
     * (dropping any nodes `rebalance` left behind); otherwise it is attached
     * as a new leaf where `add`'s descent ends. The counter grows by one.
     */
    method Add(item: int)
      requires Valid()
      modifies this
      ensures Valid() && size == old(size) + 1
      ensures old(size) == 0 ==> root == Node(Leaf, item, Leaf)
      ensures old(size) != 0 ==> root == Insert(old(root), item)
      ensures old(size) != 0 || old(root) == Leaf ==> Contents(root) == old(Contents(root)) + multiset{item}
      ensures old(Ordered(root)) ==> Ordered(root)
      ensures old(SearchTree(root)) ==> SearchTree(root)
    {
      if IsEmpty() {
        root := Node(Leaf, item, Leaf);
      } else {
        if Ordered(root) {
          InsertKeepsOrdered(root, item);
        }
        if SearchTree(root) {
          InsertKeepsSearchTree(root, item);
        }
        root := Insert(root, item);
      }
      size := size + 1;
    }

    /**
     * `remove`: an item `find` does not reach is a KeyError; otherwise a
     * tree whose counter says empty is left alone and gives no item;
     * otherwise the node the search stops at is removed (Deletion.Delete),
     * the counter drops by one and the removed item is returned.
     */
    method Remove(item: int) returns (outcome: Result<Option<int>>)
      requires Valid()
      modifies this
      ensures Valid()
      ensures old(Find(item)).None? ==>
        outcome == Err(KeyError) && root == old(root) && size == old(size)
      ensures old(Find(item)).Some? && old(size) == 0 ==>
        outcome == Ok(None) && root == old(root) && size == 0
      ensures old(Find(item)).Some? && old(size) != 0 ==>
        outcome == Ok(Some(item)) && root == Delete(old(root), item) && size == old(size) - 1 &&
        Contents(root) == old(Contents(root)) - multiset{item}
      ensures old(Ordered(root)) ==> Ordered(root)
    {
      if !Contains(item) {
        return Err(KeyError);
      }
      if IsEmpty() {
        return Ok(None);
      }
      var parent, currentNode := LocateForRemoval(root, item);
      var itemRemoved := currentNode.data;
      var newChild := SpliceOut(currentNode);
      var preRootLeft := Plug(parent, newChild);
      assert preRootLeft == Delete(root, item) by {
        assert newChild == Delete(currentNode, item);
      }
      DeleteContents(root, item);
      if Ordered(root) {
        DeleteKeepsOrdered(root, item);
      }
      size := size - 1;
      if IsEmpty() {
        assert Count(preRootLeft) == 0;
        root := Leaf;
      } else {
        root := preRootLeft;
      }
      return Ok(Some(itemRemoved));
    }

    /**
     * `replace`: the first node on the search path holding `item` gets
     * `newItem` and the old datum is returned; no node moves, the counter
     * does not change, and a failed search changes nothing.
     */
    method Replace(item: int, newItem: int) returns (replaced: Option<int>)
      requires Valid()
      modifies this
      ensures Valid() && size == old(size)
      ensures replaced == old(Find(item))
      ensures root == ReplaceFirst(old(root), item, newItem)
    {
      var path: seq<Frame> := [];
      var probe := root;
      while probe.Node?
        invariant root == old(root)
        invariant FindFrom(probe, item) == FindFrom(root, item)
        invariant Plug(path, ReplaceFirst(probe, item, newItem)) == ReplaceFirst(root, item, newItem)
        decreases probe
      {
        if probe.data == item {
          var oldData := probe.data;
          ShapeCount(root);
          ShapeCount(ReplaceFirst(root, item, newItem));
          root := Plug(path, Node(probe.left, newItem, probe.right));
          return Some(oldData);
        }
        var frame;
        if probe.data > item {
          frame := WentLeft(probe.data, probe.right);
          assert Fill(frame, ReplaceFirst(probe.left, item, newItem)) == ReplaceFirst(probe, item, newItem);
          probe := probe.left;
        } else {
          frame := WentRight(probe.left, probe.data);
          assert Fill(frame, ReplaceFirst(probe.right, item, newItem)) == ReplaceFirst(probe, item, newItem);
          probe := probe.right;
        }
        assert ([frame] + path)[1..] == path;
        path := [frame] + path;
      }
      return None;
    }

    /**
     * `height`: 0 when the counter says empty, else the number of links on
     * the longest path from the root, which is at least floor(log2 size)
     * and less than size.
     */
    function Height(): (h: int)
      reads this
      ensures size == 0 ==> h == 0
      ensures Valid() && size != 0 ==> MinHeight(size) <= h < size
    {
      if IsEmpty() then 0
      else
        MinimalHeight(root);
        Height1(root)
    }

    /**
     * `rangeFind`: the elements with low <= e <= high that the pruned
     * preorder walk reaches. All are stored and within the bounds; in a tree
     * ordered as `add` orders it, with `high` stored at most once, they are
     * all the stored elements within the bounds, in preorder.
     */
    method RangeFind(low: int, high: int) returns (result: seq<int>)
      ensures result == RangeVisit(root, low, high)
      ensures forall e :: e in result ==> low <= e <= high
      ensures multiset(result) <= Contents(root)
      ensures SearchTree(root) && Contents(root)[high] <= 1 ==>
        result == InRange(Preorder(root), low, high) &&
        multiset(result) == multiset(InRange(Inorder(root), low, high))
    {
      result := RangeFindFrom(root, low, high, []);
      assert [] + RangeVisit(root, low, high) == RangeVisit(root, low, high);
      RangeVisitInBounds(root, low, high);
      RangeVisitStored(root, low, high);
      if SearchTree(root) && Contents(root)[high] <= 1 {
        RangeVisitExact(root, low, high);
        RangeVisitComplete(root, low, high);
      }
    }

    /**
     * `rebalance`: copy the elements out in order, `clear`, and rebuild by
     * midpoint selection. The inorder sequence is kept and the height
     * becomes the least possible, but the counter stays at zero.
     */
    method Rebalance()
      requires Valid()
      modifies this
      ensures Valid() && size == 0
      ensures root == Rebuild(old(root))
      ensures Inorder(root) == old(Inorder(root)) && Count(root) == old(Count(root))
      ensures Height1(root) == MinHeight(Count(root)) <= old(Height1(root))
      ensures old(Ordered(root)) ==> Ordered(root)
    {
      ghost var before := root;
      RebuildKeepsElements(before);
      RebuildKeepsOrder(before);
      var sortedList := AppendInorder(root, []);
      assert sortedList == Inorder(before);
      Clear();
      root := BuildBalanced(sortedList, 0, |sortedList|);
    }

    /**
     * `rebalance` with the counter kept equal to the number of stored
     * elements, as `add`, `remove` and `clear` keep it: the same rebuild,
     * with the counter set to the number of elements copied out.
     */
    method RebalanceKeepingSize()
      requires Valid()
      modifies this
      ensures Valid() && size == Count(root) == old(Count(root))
      ensures root == Rebuild(old(root))
    {
      ghost var before := root;
      RebuildKeepsElements(before);
      var sortedList := AppendInorder(root, []);
      assert sortedList == Inorder(before);
      TraversalContents(before);
      Clear();
      root := BuildBalanced(sortedList, 0, |sortedList|);
      size := |sortedList|;
    }

    /**
     * `successor`: the last node datum greater than `item` on the path that
     * goes left past such data and right past the others. Any result is a
     * stored element above `item`; in an ordered tree it is the least
     * such, and there is none exactly when no stored element exceeds `item`.
     */
    method Successor(item: int) returns (successor: Option<int>)
      ensures successor.Some? ==> successor.value in Contents(root) && item < successor.value
      ensures Ordered(root) ==> (successor.None? <==> forall e :: e in Contents(root) ==> e <= item)
      ensures Ordered(root) && successor.Some? ==>
        forall e :: e in Contents(root) && item < e ==> successor.value <= e
    {
      if root.Leaf? {
        return None;
      }
      successor := None;
      var current := root;
      SuccessorLoopStarts(root, item);
      while current.Node?
        invariant SuccessorLoop(root, current, item, successor)
        decreases current
      {
        if current.data > item {
          SuccessorGoesLeft(root, current, item, successor);
          successor := Some(current.data);
          current := current.left;
        } else {
          SuccessorGoesRight(root, current, item, successor);
          current := current.right;
        }
      }
      SuccessorLoopEnds(root, item, successor);
    }

    /**
     * `predecessor`: the mirror image of `successor`. Any result is a
     * stored element below `item`; in an ordered tree it is the greatest
     * such, and there is none exactly when no stored element is below `item`.
     */
    method Predecessor(item: int) returns (predecessor: Option<int>)
      ensures predecessor.Some? ==> predecessor.value in Contents(root) && predecessor.value < item
      ensures Ordered(root) ==> (predecessor.None? <==> forall e :: e in Contents(root) ==> item <= e)
      ensures Ordered(root) && predecessor.Some? ==>
        forall e :: e in Contents(root) && e < item ==> e <= predecessor.value
    {
      if root.Leaf? {
        return None;
      }
      predecessor := None;
      var current := root;
      PredecessorLoopStarts(root, item);
      while current.Node?
        invariant PredecessorLoop(root, current, item, predecessor)
        decreases current
      {
        if current.data < item {
          PredecessorGoesRight(root, current, item, predecessor);
          predecessor := Some(current.data);
          current := current.right;
        } else {
          PredecessorGoesLeft(root, current, item, predecessor);
          current := current.left;
        }
      }
      PredecessorLoopEnds(root, item, predecessor);
    }

    /**
     * `__iter__`: nothing when the counter says empty; otherwise the data
     * popped from a stack that starts with the root and, after each pop,
     * gets the right child and then the left child pushed: the preorder
     * sequence.
     */
    method Iterate() returns (items: seq<int>)
      requires Valid()
      ensures size == 0 ==> items == []
      ensures size != 0 ==> items == Preorder(root)
      ensures size != 0 ==> multiset(items) == Contents(root) && |items| == size
    {
      items := [];
      if IsEmpty() {
        return;
      }
      var stack := [root];
      StackOfOne(root);
      while stack != []
        invariant StackInvariant(root, items, stack)
        decreases |StackPreorder(stack)|
      {
        var node := stack[|stack| - 1];
        var next := stack[..|stack| - 1];
        if node.right.Node? {
          next := next + [node.right];
        }
        if node.left.Node? {
          next := next + [node.left];
        }
        assert next == Expanded(stack);
        PopStep(root, items, stack);
        items := items + [node.data];
        stack := next;
      }
      assert items + [] == items;
      TraversalContents(root);
    }

    /**
     * `inorder`: the data collected left subtree, node, right subtree; in
     * an ordered tree they come out ascending.
     */
    method InorderItems() returns (items: seq<int>)
      ensures items == Inorder(root)
      ensures multiset(items) == Contents(root)
      ensures Ordered(root) ==> Sorted(items)
    {
      items := AppendInorder(root, []);
      assert [] + Inorder(root) == Inorder(root);
      TraversalContents(root);
      OrderedIffSorted(root);
    }
  }

  /**
   * The loop invariant of `__iter__`: the stack holds nodes only, and the
   * items yielded so far followed by what the stack still holds, top
   * first, make up the preorder sequence.
   */
  ghost predicate StackInvariant(root: Tree, items: seq<int>, stack: seq<Tree>)
  {
    (forall k :: 0 <= k < |stack| ==> stack[k].Node?) &&
    items + StackPreorder(stack) == Preorder(root)
  }

  lemma StackOfOne(t: Tree)
    requires t.Node?
    ensures StackInvariant(t, [], [t])
  {
    StackPush([], t);
    assert [] + [t] == [t];
  }

  /** The stack after popping its top node and pushing its right, then its left child (those that exist). */
  ghost function Expanded(stack: seq<Tree>): seq<Tree>
    requires stack != [] && stack[|stack| - 1].Node?
  {
    var node := stack[|stack| - 1];
    var withRight := stack[..|stack| - 1] + (if node.right.Node? then [node.right] else []);
    withRight + (if node.left.Node? then [node.left] else [])
  }

  /**
   * One turn of the loop hands the top node's datum over to the output and
   * keeps the invariant, with less left to visit.
   */
  lemma PopStep(root: Tree, items: seq<int>, stack: seq<Tree>)
    requires stack != [] && StackInvariant(root, items, stack)
    ensures stack[|stack| - 1].Node?
    ensures StackInvariant(root, items + [stack[|stack| - 1].data], Expanded(stack))
    ensures |StackPreorder(Expanded(stack))| < |StackPreorder(stack)|
  {
    var node := stack[|stack| - 1];
    var rest := stack[..|stack| - 1];
    assert stack == rest + [node];
    StackPush(rest, node);
    var withRight := rest + (if node.right.Node? then [node.right] else []);
    PushIfNode(rest, node.right);
    PushIfNode(withRight, node.left);
    var next := Expanded(stack);
    assert next == withRight + (if node.left.Node? then [node.left] else []);
    Regroup(items, node.data, Preorder(node.left), Preorder(node.right), StackPreorder(rest));
    forall k | 0 <= k < |next| ensures next[k].Node? {
      if k < |rest| {
        assert next[k] == stack[k];
      }
    }
  }

  lemma PushIfNode(stack: seq<Tree>, t: Tree)
    ensures StackPreorder(stack + (if t.Node? then [t] else [])) == Preorder(t) + StackPreorder(stack)
  {
    if t.Node? {
      StackPush(stack, t);
    } else {
      assert stack + [] == stack;
    }
  }

  /** Regrouping the yielded and pending parts, kept apart so `PopStep`'s context stays small. */
  lemma Regroup(items: seq<int>, x: int, l: seq<int>, r: seq<int>, tail: seq<int>)
    ensures (items + [x]) + (l + (r + tail)) == items + ([x] + l + r + tail)
  {
  }

  /**
   * What `successor`'s loop keeps: `current` is part of the tree, any
   * candidate is a stored element above `item`, and in an ordered tree
   * every stored element above `item` is still below `current` or at
   * least the candidate, which bounds everything below `current`.
   */
  ghost predicate SuccessorLoop(t: Tree, current: Tree, item: int, best: Option<int>)
  {
    Contents(current) <= Contents(t) &&
    (best.Some? ==> best.value in Contents(t) && item < best.value) &&
    (Ordered(t) ==>
      Ordered(current) &&
      (best.Some? ==> forall e :: e in Contents(current) ==> e <= best.value) &&
      (forall e :: e in Contents(t) && item < e ==> e in Contents(current) || (best.Some? && best.value <= e)))
  }

  lemma SuccessorLoopStarts(t: Tree, item: int)
    ensures SuccessorLoop(t, t, item, None)
  {
  }

  /** What a node's contents and order say about its children. */
  lemma NodeParts(t: Tree)
    requires t.Node?
    ensures t.data in Contents(t)
    ensures Contents(t.left) <= Contents(t) && Contents(t.right) <= Contents(t)
    ensures forall e :: e in Contents(t) ==> e == t.data || e in Contents(t.left) || e in Contents(t.right)
    ensures Ordered(t) ==> Ordered(t.left) && Ordered(t.right)
    ensures Ordered(t) ==> forall e :: e in Contents(t.left) ==> e <= t.data
    ensures Ordered(t) ==> forall e :: e in Contents(t.right) ==> t.data <= e
  {
    var l, x, r := t.left, t.data, t.right;
    assert Contents(t) == Contents(l) + multiset{x} + Contents(r);
    forall e | e in Contents(t)
      ensures e == x || e in Contents(l) || e in Contents(r)
    {
      assert Contents(t)[e] == Contents(l)[e] + multiset{x}[e] + Contents(r)[e];
    }
  }

  /** A node above `item` becomes the candidate, and the search goes left. */
  lemma SuccessorGoesLeft(t: Tree, current: Tree, item: int, best: Option<int>)
    requires current.Node? && SuccessorLoop(t, current, item, best) && item < current.data
    ensures SuccessorLoop(t, current.left, item, Some(current.data))
  {
    var l, x, r := current.left, current.data, current.right;
    NodeParts(current);
    if Ordered(t) {
      forall e | e in Contents(t) && item < e && e !in Contents(l)
        ensures x <= e
      {
        if e in Contents(current) {
          assert e == x || e in Contents(r);
        } else {
          assert best.Some? && best.value <= e;
          assert x <= best.value;
        }
      }
    }
  }

  /** A node at most `item` is passed over, and the search goes right. */
  lemma SuccessorGoesRight(t: Tree, current: Tree, item: int, best: Option<int>)
    requires current.Node? && SuccessorLoop(t, current, item, best) && current.data <= item
    ensures SuccessorLoop(t, current.right, item, best)
  {
    var l, x, r := current.left, current.data, current.right;
    NodeParts(current);
    if Ordered(t) {
      forall e | e in Contents(t) && item < e && e !in Contents(r)
        ensures best.Some? && best.value <= e
      {
        if e in Contents(current) {
          assert false;
        }
      }
    }
  }

  lemma SuccessorLoopEnds(t: Tree, item: int, best: Option<int>)
    requires SuccessorLoop(t, Leaf, item, best)
    ensures best.Some? ==> best.value in Contents(t) && item < best.value
    ensures Ordered(t) ==> (best.None? <==> forall e :: e in Contents(t) ==> e <= item)
    ensures Ordered(t) && best.Some? ==> forall e :: e in Contents(t) && item < e ==> best.value <= e
  {
  }

  /** The mirror image of SuccessorLoop. */
  ghost predicate PredecessorLoop(t: Tree, current: Tree, item: int, best: Option<int>)
  {
    Contents(current) <= Contents(t) &&
    (best.Some? ==> best.value in Contents(t) && best.value < item) &&
    (Ordered(t) ==>
      Ordered(current) &&
      (best.Some? ==> forall e :: e in Contents(current) ==> best.value <= e) &&
      (forall e :: e in Contents(t) && e < item ==> e in Contents(current) || (best.Some? && e <= best.value)))
  }

  lemma PredecessorLoopStarts(t: Tree, item: int)
    ensures PredecessorLoop(t, t, item, None)
  {
  }

  /** A node below `item` becomes the candidate, and the search goes right. */
  lemma PredecessorGoesRight(t: Tree, current: Tree, item: int, best: Option<int>)
    requires current.Node? && PredecessorLoop(t, current, item, best) && current.data < item
    ensures PredecessorLoop(t, current.right, item, Some(current.data))
  {
    var l, x, r := current.left, current.data, current.right;
    NodeParts(current);
    if Ordered(t) {
      forall e | e in Contents(t) && e < item && e !in Contents(r)
        ensures e <= x
      {
        if e in Contents(current) {
          assert e == x || e in Contents(l);
        } else {
          assert best.Some? && e <= best.value;
          assert best.value <= x;
        }
      }
    }
  }

  /** A node at least `item` is passed over, and the search goes left. */
  lemma PredecessorGoesLeft(t: Tree, current: Tree, item: int, best: Option<int>)
    requires current.Node? && PredecessorLoop(t, current, item, best) && item <= current.data
    ensures PredecessorLoop(t, current.left, item, best)
  {
    var l, x, r := current.left, current.data, current.right;
    NodeParts(current);
    if Ordered(t) {
      forall e | e in Contents(t) && e < item && e !in Contents(l)
        ensures best.Some? && e <= best.value
      {
        if e in Contents(current) {
          assert false;
        }
      }
    }
  }

  lemma PredecessorLoopEnds(t: Tree, item: int, best: Option<int>)
    requires PredecessorLoop(t, Leaf, item, best)
    ensures best.Some? ==> best.value in Contents(t) && best.value < item
    ensures Ordered(t) ==> (best.None? <==> forall e :: e in Contents(t) ==> item <= e)
    ensures Ordered(t) && best.Some? ==> forall e :: e in Contents(t) && e < item ==> e <= best.value
  {
  }
}
