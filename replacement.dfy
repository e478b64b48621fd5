/** `replace`: overwrite the datum of the node the search stops at. */
module Replacement {
  import opened Wrappers
  import opened Trees
  import opened Search

  /** The tree with every datum blanked out: its nodes and links only. */
  function Shape(t: Tree): Tree
  {
    match t
    case Leaf => Leaf
    case Node(l, _, r) => Node(Shape(l), 0, Shape(r))
  }

  lemma {:induction false} ShapeCount(t: Tree)
    ensures Count(Shape(t)) == Count(t)
  {
    match t
    case Leaf =>
    case Node(l, _, r) =>
      ShapeCount(l);
      ShapeCount(r);
  }

  /**
   * The tree `replace` leaves: the first node on the search path that holds
   * `item` gets `newItem`; no node moves, and a failed search changes nothing.
   */
  function ReplaceFirst(t: Tree, item: int, newItem: int): (t': Tree)
    ensures Shape(t') == Shape(t)
    ensures FindFrom(t, item).None? ==> t' == t
  {
    match t
    case Leaf => Leaf
    case Node(l, x, r) =>
      if x == item then Node(l, newItem, r)
      else if x > item then Node(ReplaceFirst(l, item, newItem), x, r)
      else Node(l, x, ReplaceFirst(r, item, newItem))
  }

  /**
   * When the search succeeds exactly one element of the inorder sequence
   * changes: the one at the position of the node the search stopped at.
   */
  lemma {:induction false} ReplaceInorder(t: Tree, item: int, newItem: int)
    requires FindFrom(t, item).Some?
    ensures HitIndex(t, item) < |Inorder(t)|
    ensures Inorder(ReplaceFirst(t, item, newItem)) == Inorder(t)[HitIndex(t, item) := newItem]
  {
    match t
    case Node(l, x, r) =>
      if x == item {
        UpdateMiddle(Inorder(l), x, Inorder(r), newItem);
      } else if x > item {
        ReplaceInorder(l, item, newItem);
        UpdateInLeft(Inorder(l), x, Inorder(r), HitIndex(l, item), newItem);
      } else {
        ReplaceInorder(r, item, newItem);
        UpdateInRight(Inorder(l), x, Inorder(r), HitIndex(r, item), newItem);
      }
  }

  lemma UpdateMiddle(a: seq<int>, x: int, b: seq<int>, v: int)
    ensures (a + [x] + b)[|a| := v] == a + [v] + b
  {
  }

  lemma UpdateInLeft(a: seq<int>, x: int, b: seq<int>, k: nat, v: int)
    requires k < |a|
    ensures (a + [x] + b)[k := v] == a[k := v] + [x] + b
  {
  }

  lemma UpdateInRight(a: seq<int>, x: int, b: seq<int>, k: nat, v: int)
    requires k < |b|
    ensures (a + [x] + b)[|a| + 1 + k := v] == a + [x] + b[k := v]
  {
  }

  /**
   * `replace` does not re-sort: the tree stays ordered when the new item
   * fits between the inorder neighbours of the element it overwrites.
   */
  lemma ReplaceKeepsOrderWhenFits(t: Tree, item: int, newItem: int)
    requires Ordered(t) && FindFrom(t, item).Some?
    requires var s, k := Inorder(t), HitIndex(t, item);
      (0 < k <= |s| ==> s[k - 1] <= newItem) && (k + 1 < |s| ==> newItem <= s[k + 1])
    ensures Ordered(ReplaceFirst(t, item, newItem))
  {
    ReplaceInorder(t, item, newItem);
    OrderedIffSorted(t);
    SortedUpdate(Inorder(t), HitIndex(t, item), newItem);
    OrderedIffSorted(ReplaceFirst(t, item, newItem));
  }

  /** Overwriting one element of a sorted sequence by a value between its neighbours keeps it sorted. */
  lemma SortedUpdate(s: seq<int>, k: nat, v: int)
    requires Sorted(s) && k < |s|
    requires (0 < k ==> s[k - 1] <= v) && (k + 1 < |s| ==> v <= s[k + 1])
    ensures Sorted(s[k := v])
  {
    var s' := s[k := v];
    forall i, j | 0 <= i < j < |s'| ensures s'[i] <= s'[j] {
      if i == k {
        assert s[k + 1] <= s[j];
      } else if j == k {
        assert s[i] <= s[k - 1];
      }
    }
  }
}
