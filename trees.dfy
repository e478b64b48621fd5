/**
 * The node structure of the linked binary search tree, as values, with the
 * abstraction functions (inorder and preorder sequences, contents as a
 * multiset), the two ordering invariants it can be in, and its height.
 */
module Trees {

  /** A subtree: `Leaf` is Python's `None` link, `Node` a `BSTNode`. */
  datatype Tree = Leaf | Node(left: Tree, data: int, right: Tree)

  /** Left subtree, node, right subtree. */
  function Inorder(t: Tree): seq<int>
  {
    match t
    case Leaf => []
    case Node(l, x, r) => Inorder(l) + [x] + Inorder(r)
  }

  /** Node, left subtree, right subtree. */
  function Preorder(t: Tree): seq<int>
  {
    match t
    case Leaf => []
    case Node(l, x, r) => [x] + Preorder(l) + Preorder(r)
  }

  /** The stored elements, with their multiplicities. */
  function Contents(t: Tree): multiset<int>
  {
    match t
    case Leaf => multiset{}
    case Node(l, x, r) => Contents(l) + multiset{x} + Contents(r)
  }

  /** The number of nodes. */
  function Count(t: Tree): nat
  {
    match t
    case Leaf => 0
    case Node(l, _, r) => Count(l) + 1 + Count(r)
  }

  predicate Sorted(s: seq<int>)
  {
    forall i, j :: 0 <= i < j < |s| ==> s[i] <= s[j]
  }

  predicate StrictlySorted(s: seq<int>)
  {
    forall i, j :: 0 <= i < j < |s| ==> s[i] < s[j]
  }

  /**
   * The order that `add` establishes: everything in a left subtree is
   * smaller than the node, everything in a right subtree greater or equal.
   */
  ghost predicate SearchTree(t: Tree)
  {
    match t
    case Leaf => true
    case Node(l, x, r) =>
      SearchTree(l) && SearchTree(r) &&
      (forall y :: y in Contents(l) ==> y < x) &&
      (forall y :: y in Contents(r) ==> x <= y)
  }

  /**
   * The weaker order that removal and rebuilding keep even with duplicate
   * keys: left subtree at most the node, right subtree at least the node.
   * It is exactly "the inorder sequence is sorted" (OrderedIffSorted).
   */
  ghost predicate Ordered(t: Tree)
  {
    match t
    case Leaf => true
    case Node(l, x, r) =>
      Ordered(l) && Ordered(r) &&
      (forall y :: y in Contents(l) ==> y <= x) &&
      (forall y :: y in Contents(r) ==> x <= y)
  }

  /** The two traversals visit exactly the stored elements. */
  lemma {:induction false} TraversalContents(t: Tree)
    ensures multiset(Inorder(t)) == Contents(t)
    ensures multiset(Preorder(t)) == Contents(t)
    ensures |Inorder(t)| == |Preorder(t)| == Count(t)
  {
    match t
    case Leaf =>
    case Node(l, x, r) =>
      TraversalContents(l);
      TraversalContents(r);
      assert Inorder(t) == Inorder(l) + [x] + Inorder(r);
      assert Preorder(t) == [x] + Preorder(l) + Preorder(r);
  }

  /** A sequence split around one element is sorted iff its parts are and they sit on the right sides. */
  lemma SortedAround(a: seq<int>, x: int, b: seq<int>)
    ensures Sorted(a + [x] + b) <==>
      Sorted(a) && Sorted(b) &&
      (forall y :: y in a ==> y <= x) && (forall y :: y in b ==> x <= y)
  {
    if Sorted(a + [x] + b) {
      SortedParts(a, x, b);
    }
    if Sorted(a) && Sorted(b) && (forall y :: y in a ==> y <= x) && (forall y :: y in b ==> x <= y) {
      SortedJoin(a, x, b);
    }
  }

  lemma SortedParts(a: seq<int>, x: int, b: seq<int>)
    requires Sorted(a + [x] + b)
    ensures Sorted(a) && Sorted(b)
    ensures forall y :: y in a ==> y <= x
    ensures forall y :: y in b ==> x <= y
  {
    var s := a + [x] + b;
    assert forall i :: 0 <= i < |a| ==> s[i] == a[i];
    assert s[|a|] == x;
    assert forall j :: 0 <= j < |b| ==> s[|a| + 1 + j] == b[j];
    forall i, j | 0 <= i < j < |a| ensures a[i] <= a[j] { assert s[i] <= s[j]; }
    forall i, j | 0 <= i < j < |b| ensures b[i] <= b[j] { assert s[|a| + 1 + i] <= s[|a| + 1 + j]; }
    forall y | y in a ensures y <= x {
      var i :| 0 <= i < |a| && a[i] == y;
      assert s[i] <= s[|a|];
    }
    forall y | y in b ensures x <= y {
      var j :| 0 <= j < |b| && b[j] == y;
      assert s[|a|] <= s[|a| + 1 + j];
    }
  }

  lemma SortedJoin(a: seq<int>, x: int, b: seq<int>)
    requires Sorted(a) && Sorted(b)
    requires forall y :: y in a ==> y <= x
    requires forall y :: y in b ==> x <= y
    ensures Sorted(a + [x] + b)
  {
    var s := a + [x] + b;
    forall i, j | 0 <= i < j < |s| ensures s[i] <= s[j] {
      var u := if i < |a| then a[i] else if i == |a| then x else b[i - |a| - 1];
      var v := if j < |a| then a[j] else if j == |a| then x else b[j - |a| - 1];
      assert s[i] == u && s[j] == v;
      if i < |a| { assert a[i] in a; }
      if j > |a| { assert b[j - |a| - 1] in b; }
    }
  }

  /** The weak order invariant holds exactly when the inorder traversal is sorted. */
  lemma {:induction false} OrderedIffSorted(t: Tree)
    ensures Ordered(t) <==> Sorted(Inorder(t))
  {
    match t
    case Leaf =>
    case Node(l, x, r) =>
      OrderedIffSorted(l);
      OrderedIffSorted(r);
      TraversalContents(l);
      TraversalContents(r);
      SortedAround(Inorder(l), x, Inorder(r));
      assert forall y :: y in Contents(l) <==> y in Inorder(l);
      assert forall y :: y in Contents(r) <==> y in Inorder(r);
  }

  /** The parts of a strictly sorted sequence split around one element. */
  lemma StrictlySortedParts(a: seq<int>, x: int, b: seq<int>)
    requires StrictlySorted(a + [x] + b)
    ensures StrictlySorted(a) && StrictlySorted(b)
    ensures forall y :: y in a ==> y < x
    ensures forall y :: y in b ==> x < y
  {
    var s := a + [x] + b;
    assert forall i :: 0 <= i < |a| ==> s[i] == a[i];
    assert s[|a|] == x;
    assert forall j :: 0 <= j < |b| ==> s[|a| + 1 + j] == b[j];
    forall i, j | 0 <= i < j < |a| ensures a[i] < a[j] { assert s[i] < s[j]; }
    forall i, j | 0 <= i < j < |b| ensures b[i] < b[j] { assert s[|a| + 1 + i] < s[|a| + 1 + j]; }
    forall y | y in a ensures y < x {
      var i :| 0 <= i < |a| && a[i] == y;
      assert s[i] < s[|a|];
    }
    forall y | y in b ensures x < y {
      var j :| 0 <= j < |b| && b[j] == y;
      assert s[|a|] < s[|a| + 1 + j];
    }
  }

  /** With distinct keys in ascending inorder the strict invariant of `add` holds. */
  lemma {:induction false} StrictlySortedIsSearchTree(t: Tree)
    requires StrictlySorted(Inorder(t))
    ensures SearchTree(t)
  {
    match t
    case Leaf =>
    case Node(l, x, r) =>
      StrictlySortedParts(Inorder(l), x, Inorder(r));
      StrictlySortedIsSearchTree(l);
      StrictlySortedIsSearchTree(r);
      TraversalContents(l);
      TraversalContents(r);
      assert forall y :: y in Contents(l) ==> y in Inorder(l);
      assert forall y :: y in Contents(r) ==> y in Inorder(r);
  }

  /** A node with a copy of its own datum in its left subtree breaks the strict order. */
  lemma LeftCopyBreaksSearchTree(t: Tree)
    requires t.Node? && t.data in Contents(t.left)
    ensures !SearchTree(t)
  {
  }

  /** The strict invariant implies the weak one. */
  lemma {:induction false} SearchTreeIsOrdered(t: Tree)
    requires SearchTree(t)
    ensures Ordered(t)
  {
    match t
    case Leaf =>
    case Node(l, x, r) =>
      SearchTreeIsOrdered(l);
      SearchTreeIsOrdered(r);
  }

  /** `height1`: -1 for an empty subtree, else one more than the taller child. */
  function Height1(t: Tree): (h: int)
    ensures -1 <= h < Count(t)
  {
    match t
    case Leaf => -1
    case Node(l, _, r) =>
      var hl, hr := Height1(l), Height1(r);
      1 + (if hl < hr then hr else hl)
  }

  /** The least height of a tree with n nodes: -1 for none, else floor(log2 n). */
  function MinHeight(n: nat): (h: int)
    ensures -1 <= h < n
  {
    if n == 0 then -1 else 1 + MinHeight(n / 2)
  }

  function Pow2(k: nat): (p: nat)
    ensures p >= 1
  {
    if k == 0 then 1 else 2 * Pow2(k - 1)
  }

  /** MinHeight(n) is floor(log2 n): 2^h <= n < 2^(h+1). */
  lemma {:induction false} MinHeightIsFloorLog2(n: nat)
    requires n >= 1
    ensures MinHeight(n) >= 0
    ensures Pow2(MinHeight(n)) <= n < Pow2(MinHeight(n) + 1)
  {
    if n > 1 {
      MinHeightIsFloorLog2(n / 2);
    }
  }

  lemma {:induction false} MinHeightMonotone(a: nat, b: nat)
    requires a <= b
    ensures MinHeight(a) <= MinHeight(b)
    decreases b
  {
    if a > 0 {
      MinHeightMonotone(a / 2, b / 2);
    }
  }

  /** No tree with n nodes is lower than MinHeight(n). */
  lemma {:induction false} MinimalHeight(t: Tree)
    ensures MinHeight(Count(t)) <= Height1(t)
  {
    match t
    case Leaf =>
    case Node(l, _, r) =>
      MinimalHeight(l);
      MinimalHeight(r);
      var half := Count(t) / 2;
      if Count(l) < Count(r) {
        MinHeightMonotone(half, Count(r));
      } else {
        MinHeightMonotone(half, Count(l));
      }
  }
}
