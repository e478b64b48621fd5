/**
 * The descent from the root that `find`, `remove` and `replace` share: at a
 * node holding the item stop, when the item is smaller go left, otherwise
 * go right. Also the path such a descent leaves behind, from which the
 * tree is rebuilt once the node it stopped at has been changed.
 */
module Search {
  import opened Wrappers
  import opened Trees

  /**
   * `find`'s inner `recurse`: the stored element equal to `item` on the
   * search path, or None. In an ordered tree it fails exactly when the item
   * is not stored.
   */
  function FindFrom(t: Tree, item: int): (found: Option<int>)
    ensures found.Some? ==> found.value == item && item in Contents(t)
    ensures Ordered(t) ==> (found.Some? <==> item in Contents(t))
  {
    match t
    case Leaf => None
    case Node(l, x, r) =>
      if item == x then Some(x)
      else if item < x then FindFrom(l, item)
      else FindFrom(r, item)
  }

  /**
   * The inorder position of the node at which the search for `item` stops
   * (meaningful when it stops at a node).
   */
  function HitIndex(t: Tree, item: int): (k: nat)
    ensures FindFrom(t, item).Some? ==> k < |Inorder(t)| && Inorder(t)[k] == item
  {
    match t
    case Leaf => 0
    case Node(l, x, r) =>
      if item == x then |Inorder(l)|
      else if item < x then HitIndex(l, item)
      else |Inorder(l)| + 1 + HitIndex(r, item)
  }

  /**
   * One step of a descent: the node stepped through, minus the child taken.
   * `WentLeft` is direction 'L' in the source, `WentRight` direction 'R'.
   */
  datatype Frame = WentLeft(data: int, right: Tree) | WentRight(left: Tree, data: int)

  /** The elements a frame keeps: the node stepped through and the child not taken. */
  ghost function FrameContents(f: Frame): multiset<int>
  {
    match f
    case WentLeft(x, r) => multiset{x} + Contents(r)
    case WentRight(l, x) => Contents(l) + multiset{x}
  }

  /** The elements a whole path keeps. */
  ghost function PathContents(path: seq<Frame>): multiset<int>
    decreases |path|
  {
    if path == [] then multiset{} else FrameContents(path[0]) + PathContents(path[1..])
  }

  /**
   * Puts `child` back as the link the frame's step followed: the parent
   * then holds the child's elements besides its own.
   */
  function Fill(f: Frame, child: Tree): (parent: Tree)
    ensures parent.Node? && Contents(parent) == FrameContents(f) + Contents(child)
  {
    match f
    case WentLeft(x, r) => Node(child, x, r)
    case WentRight(l, x) => Node(l, x, child)
  }

  /**
   * Rebuilds the tree from a search path whose first frame is the parent
   * of `hole`. The empty path is the pseudo-root: plugging it gives
   * `preRoot.left`, the hole itself. PlugContents says what it builds.
   */
  function Plug(path: seq<Frame>, hole: Tree): Tree
    decreases |path|
  {
    if path == [] then hole else Plug(path[1..], Fill(path[0], hole))
  }

  /**
   * Whatever is relinked into the hole, the rest of the tree keeps exactly
   * the elements it had: the result holds the path's elements and the
   * hole's.
   */
  lemma {:induction false} PlugContents(path: seq<Frame>, hole: Tree)
    ensures Contents(Plug(path, hole)) == PathContents(path) + Contents(hole)
    decreases |path|
  {
    if path != [] {
      PlugContents(path[1..], Fill(path[0], hole));
    }
  }
}
