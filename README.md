# LinkedBST, modelled in Dafny

A model of `LinkedBST` (linkedbst.py), a linked binary search tree that
holds a root link and a size counter. Smaller items go left. Equal or
greater items go right, so keys may repeat. The model covers:

- `add`, `find` / `__contains__`, `remove` (with the pseudo-root search and
  `liftMaxInLeftSubtreeToTop`), `replace`, `clear`;
- `height` / `height1`, `rangeFind` / `_range_find_recursive`;
- `rebalance` (`copy_nodes`, `build_balanced_tree`);
- `successor`, `predecessor`, `inorder`, and the preorder `__iter__` driven
  by an explicit stack.

Elements are `int`. A node is the value `Tree = Leaf | Node(left, data, right)`
(module `Trees`). The collection is the class `BST.LinkedBST`, with fields
`root: Tree` and `size: nat`, and its mutators reassign them. A node that the
source rewrites in place (a relinked child, `probe.data = newItem`, the
lifted maximum) is modelled by rebuilding it. The search loop records the
path it walked as a list of frames (`Search.Frame`), and `Search.Plug`
rebuilds the tree from that path. The empty path stands for the pseudo-root
`preRoot`, so removing the root takes no special case, just as in the
source. `isEmpty()` of the unseen base class is `size == 0`. The `LinkedStack`
used by `__iter__` is a `seq<Tree>` whose last entry is the top.

Two order invariants are used:

- `Trees.SearchTree` is left < node <= right. This is what `add` keeps.
- `Trees.Ordered` is left <= node <= right. It holds exactly when the
  inorder sequence is sorted (`OrderedIffSorted`).

`remove` and `rebalance` keep `Ordered` always. They keep `SearchTree` only
when the keys are distinct. With duplicates they can break it, and two
lemmas give the inputs that show this. The queries (`find`, `successor`,
`predecessor`) state what they promise under `Ordered(root)` rather than
requiring it, because `replace` can destroy the order.

Behaviour of the code that the model reproduces as written:

- `rebalance` calls `clear()` and never restores `_size`. After it the
  counter is 0 while the tree still has nodes. The next `add` therefore
  replaces the whole tree by one node (`Scenarios.RebalanceThenAdd`).
  `remove` of a present item returns None and `height()` returns 0.
- `rangeFind` appends a node before visiting its left subtree, so its result
  comes in preorder, not ascending order.
- `rangeFind` skips the right subtree of a node equal to `high`. Copies of
  `high` stored there are missed.
- `rangeFind` also skips the left subtree of a node equal to `low`. `add`
  never puts a copy there, but `remove` and `rebalance` can, and such
  copies of `low` are missed.
- `height()` returns 0 both for an empty tree and for a one-node tree.

The model follows the code in each of these points. Everywhere else the
counter equals the number of stored elements, as `add`, `remove` and
`clear` keep it; `BST.LinkedBST.RebalanceKeepingSize` is `rebalance` with
that kept.

## Model

| member | source | states |
|---|---|---|
| `BST.LinkedBST.constructor` | linkedbst.py:20-24 | a new tree has no root and size 0 |
| `BST.LinkedBST.Find` | linkedbst.py:84-98 | a result is a stored element equal to the item; in an ordered tree there is a result iff the item is stored |
| `BST.LinkedBST.Contains` | linkedbst.py:80-82 | true only for stored items; in an ordered tree true iff the item is stored |
| `Search.FindFrom` | linkedbst.py:88-96 | the search returns the item only when it is stored, and in an ordered subtree it returns it whenever it is stored |
| `Search.HitIndex` | linkedbst.py:168-178 | when the search succeeds, the node it stops at is at this inorder position and holds the item |
| `BST.LinkedBST.IsEmpty` | linkedbst.py:126-127 | under the counter invariant a tree without nodes is empty, and a non-empty one holds as many nodes as the counter says |
| `BST.LinkedBST.Clear` | linkedbst.py:101-104 | the root becomes empty and the size 0 |
| `BST.LinkedBST.Add` | linkedbst.py:106-131 | size grows by one; at size 0 the item becomes the only node, otherwise it is inserted as a leaf; exactly one copy is added; both order invariants are kept |
| `Insertion.Insert` | linkedbst.py:110-122 | attaching a leaf adds exactly one copy of the item and one node |
| `Insertion.InsertKeepsSearchTree` | linkedbst.py:110-122 | insertion keeps left < node <= right |
| `Insertion.InsertKeepsOrdered` | linkedbst.py:110-122 | insertion keeps left <= node <= right |
| `Insertion.InsertKeepsInorderSorted` | linkedbst.py:106-131 | after insertion the inorder sequence is still sorted and holds one more copy of the item |
| `BST.LinkedBST.Remove` | linkedbst.py:133-216 | an absent item gives KeyError and changes nothing; at size 0 a present item gives None and changes nothing; otherwise the item is returned, exactly one copy is removed, size drops by one, and the order is kept |
| `Deletion.LocateForRemoval` | linkedbst.py:161-179 | the search loop stops at a node holding the item, and the recorded parent path rebuilds the whole tree around that node's replacement |
| `Search.Fill` | linkedbst.py:203-206 | relinking a child under its parent gives a node holding the parent's own elements and the child's |
| `Search.PlugContents` | linkedbst.py:163-167 | rebuilding the tree from the search path (up to the pseudo-root, linkedbst.py:215) keeps every element off the path's hole and adds exactly the relinked subtree's |
| `Deletion.Rightmost` | linkedbst.py:147-152 | following right links reaches a stored element, the largest one in an ordered subtree |
| `Deletion.LiftMaxInLeftSubtreeToTop` | linkedbst.py:141-156 | the node takes the last inorder element of its left subtree, which loses that element's node |
| `Deletion.WithoutRightmost` | linkedbst.py:147-156 | relinking the rightmost node's left child splits off exactly the last inorder element |
| `Deletion.SpliceOut` | linkedbst.py:185-206 | the two-child, no-left-child and no-right-child cases give what RemoveNode describes |
| `Deletion.RemoveNode` | linkedbst.py:185-206 | the replacement subtree's inorder is the left subtree's followed by the right subtree's: only the node's element disappears |
| `Deletion.Delete` | linkedbst.py:161-216 | when the search fails the tree is unchanged |
| `Deletion.DeleteInorder` | linkedbst.py:161-216 | a successful removal takes out exactly the inorder element at the node the search stopped at |
| `Deletion.DeleteContents` | linkedbst.py:133-216 | a successful removal takes exactly one copy of the item out of the contents and one node out of the tree |
| `Deletion.DeleteKeepsOrdered` | linkedbst.py:133-216 | removal keeps the inorder sequence sorted, with or without duplicates |
| `Deletion.DeleteKeepsDistinctSearchTree` | linkedbst.py:133-216 | with distinct keys removal keeps left < node <= right |
| `Deletion.DuplicateKeysBreakStrictOrder` | linkedbst.py:141-156 | add 5, 3, 3, 8 and remove 5: the result breaks left < node |
| `Deletion.TwoThreesAfterRemoval` | linkedbst.py:141-156 | add 5, 3, 3, 8 and remove 5: the second 3 is lifted into the root, with the first 3 as its left child |
| `BST.LinkedBST.Replace` | linkedbst.py:218-232 | the result is what find returns; the first matching node on the search path gets the new item; no node moves; size is unchanged |
| `Replacement.ReplaceFirst` | linkedbst.py:222-232 | the tree's shape is unchanged, and a failed search changes nothing |
| `Replacement.ReplaceInorder` | linkedbst.py:222-232 | exactly one inorder element changes: the one at the node the search stops at |
| `Replacement.ReplaceKeepsOrderWhenFits` | linkedbst.py:218-232 | if the new item fits between its inorder neighbours, the order is kept |
| `BST.LinkedBST.Height` | linkedbst.py:234-253 | 0 when the size is 0, otherwise at least floor(log2 size) and less than size |
| `Trees.Height1` | linkedbst.py:240-249 | -1 for an empty subtree, and always less than the number of nodes |
| `Trees.MinimalHeight` | linkedbst.py:240-249 | no tree with n nodes has a height below floor(log2 n) |
| `Trees.MinHeightIsFloorLog2` | linkedbst.py:306-315 | the least height MinHeight(n) satisfies 2^h <= n < 2^(h+1) |
| `BST.LinkedBST.RangeFind` | linkedbst.py:277-287 | every result is within the bounds and stored; with the strict order and `high` stored at most once, the result is the in-range part of the preorder and all in-range elements as a multiset |
| `Ranges.RangeVisit` | linkedbst.py:267-275 | the pruned walk never reports more elements than there are nodes |
| `Ranges.RangeFindFrom` | linkedbst.py:267-275 | the list it is handed gets the pruned walk's elements appended |
| `Ranges.RangeVisitInBounds` | linkedbst.py:267-275 | only elements within the bounds are appended |
| `Ranges.RangeVisitStored` | linkedbst.py:267-275 | only stored elements are appended, none more often than stored |
| `Ranges.RangeVisitExact` | linkedbst.py:267-275 | with the strict order and `high` stored at most once, nothing is pruned wrongly |
| `Ranges.RangeVisitComplete` | linkedbst.py:267-287 | under the same conditions the result holds every in-range stored element, as often as stored |
| `Ranges.RangeFindIsNotAscending` | linkedbst.py:270-275 | add 2 then 1: rangeFind(1, 2) gives [2, 1] |
| `Ranges.RangeFindMissesDuplicateHigh` | linkedbst.py:274-275 | add 5 twice: rangeFind(5, 5) gives one 5 |
| `Ranges.RangeFindMissesDuplicateLow` | linkedbst.py:272-273 | add 5, 3, 3, 8 and remove 5: the tree is ordered and holds 3 twice, yet rangeFind(3, 3) gives one 3 |
| `Ranges.RangeVisitCorrected` | linkedbst.py:267-275 | the corrected walk, which skips a left subtree only below a node under `low` and a right subtree only below a node over `high`, never reports more elements than there are nodes |
| `Ranges.RangeVisitCorrectedExact` | linkedbst.py:267-275 | in every ordered tree, with duplicates on either side, the corrected walk reports exactly the in-range part of the preorder |
| `Ranges.RangeVisitCorrectedComplete` | linkedbst.py:267-287 | in every ordered tree, which includes every tree `add`, `remove` and `rebalance` build, the corrected walk reports every in-range stored element, as often as stored |
| `Ranges.RangeCorrectedKeepsDuplicateHigh` | linkedbst.py:274-275 | the corrected walk gives both 5s for the tree holding 5 twice |
| `Ranges.RangeCorrectedKeepsDuplicateLow` | linkedbst.py:272-273 | the corrected walk gives both 3s for the tree left by removing 5 after adding 5, 3, 3, 8 |
| `BST.LinkedBST.Rebalance` | linkedbst.py:289-315 | the tree is rebuilt from its inorder sequence; the inorder sequence and node count are kept; the height becomes minimal and does not grow; the order is kept; size is left at 0 |
| `BST.LinkedBST.RebalanceKeepingSize` | linkedbst.py:289-315 | the same rebuild with the counter set to the number of elements |
| `Rebalancing.AppendInorder` | linkedbst.py:296-301 | the list it is handed gets the inorder sequence appended |
| `Rebalancing.BuildBalancedInorder` | linkedbst.py:306-313 | the rebuilt subtree's inorder sequence is exactly the slice it was built from |
| `Rebalancing.BuildBalanced` | linkedbst.py:306-313 | the rebuilt subtree has one node per element of the slice, and none for an empty slice |
| `Rebalancing.BuildBalancedShape` | linkedbst.py:306-313 | every left subtree has as many nodes as the right one, or one more |
| `Rebalancing.LeftLeaningHeight` | linkedbst.py:306-313 | a tree of that shape has the least height for its node count |
| `Rebalancing.BuildBalancedHeight` | linkedbst.py:306-313 | the rebuilt subtree's height is floor(log2 of the slice length) |
| `Rebalancing.RebuildInorder` | linkedbst.py:294-315 | rebuilding keeps the inorder sequence |
| `Rebalancing.RebuildContents` | linkedbst.py:294-315 | rebuilding keeps the contents multiset |
| `Rebalancing.Rebuild` | linkedbst.py:294-315 | the tree `rebalance` builds has as many nodes as the one it replaces |
| `Rebalancing.RebuildHeight` | linkedbst.py:294-315 | the rebuilt height is minimal for the count and at most the old height |
| `Rebalancing.RebuildKeepsElements` | linkedbst.py:289-315 | inorder, contents, count and minimal height, together |
| `Rebalancing.RebuildKeepsOrder` | linkedbst.py:289-315 | rebuilding keeps left <= node <= right, and gives left < node <= right for distinct keys |
| `Rebalancing.RebuildWithDuplicatesBreaksStrictOrder` | linkedbst.py:306-313 | add 1 twice and rebuild: the root's left child equals the root |
| `BST.LinkedBST.Successor` | linkedbst.py:318-340 | a result is stored and above the item; in an ordered tree it is the least such, and there is none iff nothing stored is above the item |
| `BST.LinkedBST.Predecessor` | linkedbst.py:342-364 | a result is stored and below the item; in an ordered tree it is the greatest such, and there is none iff nothing stored is below the item |
| `BST.LinkedBST.Iterate` | linkedbst.py:42-53 | nothing at size 0; otherwise exactly the preorder sequence, which holds every stored element |
| `BST.PopStep` | linkedbst.py:47-53 | one pop and the two pushes keep "yielded + stack contents = preorder", with less left to visit |
| `BST.LinkedBST.InorderItems` | linkedbst.py:59-70 | exactly the inorder sequence: all stored elements, ascending in an ordered tree |
| `Trees.TraversalContents` | linkedbst.py:42-70 | both traversals visit each stored element exactly once |
| `Trees.OrderedIffSorted` | linkedbst.py:59-70 | left <= node <= right holds iff the inorder sequence is sorted |
| `Trees.StrictlySortedIsSearchTree` | linkedbst.py:106-131 | a tree whose inorder sequence strictly ascends satisfies left < node <= right |
| `Trees.SearchTreeIsOrdered` | linkedbst.py:106-131 | the strict order implies the weak one |
| `Scenarios.Sample` | linkedbst.py:106-131 | adding 5, 3, 8, 1, 4, 7, 9 builds the expected tree |
| `Scenarios.SampleRemoval` | linkedbst.py:185-191 | removing 5 from it lifts 4 into the root |
| `Scenarios.RemovalScenario` | linkedbst.py:133-216 | on a counted tree where removing 5 leaves the sample minus 5, as on the sample itself: remove(5) returns 5 and leaves [1, 3, 4, 7, 8, 9], size 6; remove(100) then gives KeyError |
| `Scenarios.SampleIsOrdered` | linkedbst.py:106-131 | the sample's inorder sequence ascends |
| `Scenarios.NeighbourScenario` | linkedbst.py:318-364 | on the sample's elements, successor(4) is 5, predecessor(4) is 3, successor(9) is None |
| `Scenarios.RebalanceThenAdd` | linkedbst.py:289-315 | after rebalance, add leaves only the new element |
| `Scenarios.RebalanceKeepingSizeThenAdd` | linkedbst.py:289-315 | with the counter restored, add keeps every element and the order |

## Findings

| source | as written | input that shows it | evidently intended | confidence | as-written member | corrected member |
|---|---|---|---|---|---|---|
| linkedbst.py:304 | `rebalance` calls `clear()`, which zeroes `_size`, and never sets it again | any non-empty tree: rebalance, then add x; the tree holds only x | the counter is set to the number of elements copied out | high, not executed | `Scenarios.RebalanceThenAdd` | `Scenarios.RebalanceKeepingSizeThenAdd` |
| linkedbst.py:274 | the right subtree is visited only when `node.data < end` | add 5, 5; rangeFind(5, 5) gives [5] | equal keys go right, so the right subtree is skipped only when `node.data > end` | high, not executed | `Ranges.RangeFindMissesDuplicateHigh` | `Ranges.RangeVisitCorrectedComplete` |
| linkedbst.py:272 | the left subtree is visited only when `node.data > start` | add 5, 3, 3, 8, remove 5; rangeFind(3, 3) gives [3] | `remove` and `rebalance` can leave equal keys on the left, so the left subtree is skipped only when `node.data < start` | high, not executed | `Ranges.RangeFindMissesDuplicateLow` | `Ranges.RangeVisitCorrectedComplete` |

## Left out

- `is_balanced` (linkedbst.py:257-265) uses floating-point `math.log`. In exact arithmetic its test reduces to h < 2h + 1, which always holds for h >= 0.
- `__str__` (linkedbst.py:27-40) renders elements with Python's `str`; text rendering is not modelled.
- `preorder`, `postorder` and `levelorder` (linkedbst.py:55-78) always return None and have no behaviour to model.
- `demo_bst` and the module-level call (linkedbst.py:366-420) do file I/O, random sampling, timing and printing.
- `sys.setrecursionlimit` (linkedbst.py:15) is runtime configuration.
- Loading `sourceCollection` in the constructor belongs to `AbstractCollection`, which is not part of this model. `BSTNode`, `LinkedStack` and `LinkedQueue` are not part of this model either. They are stood in for by the `Tree` datatype and a `seq` stack.
- Elements are `int`, not arbitrary comparable Python objects. Stored `None` is not modelled. So `remove`'s `itemRemoved == None` branch (linkedbst.py:181) cannot be reached after the membership test.
- Node identity and aliasing are not modelled: nodes are values and a changed node is rebuilt along its search path. No outside reference to a node exists in the source, so no caller can observe the difference.
- `__iter__` is a generator. The model collects everything it would yield into one sequence.
- Python's `break` in `remove`'s search loop is modelled as a loop guard that stops at a node holding the item.
- `Scenarios.NeighbourScenario` is stated for any ordered tree holding the sample's elements, not for the sample literally. `Scenarios.SampleIsOrdered`, `Scenarios.SampleContents` and `OrderedIffSorted` show that the sample is such a tree.
- `Scenarios.RemovalScenario` is stated for any counted tree on which the search for 5 succeeds and the removal leaves `SampleWithoutFive`, not for the sample literally. `Scenarios.SampleRemoval` shows that the sample is such a tree.
