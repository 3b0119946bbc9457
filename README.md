# Treesquid trees in Dafny

This project models the core of Treesquid, a Swift library of tree containers:

- the B-tree of order `m` (`BTree`, `BTreeNode`, `BTreeNodeSlice`): lookup, insert with node splits, and
  delete with underflow repair by transfer, merge and root collapse;
- the red-black tree (`RedBlackTree`, `RedBlackTreeNode`): `find`, `findForInsert`, `rotate` and the
  insert fix-up loop;
- the binary searches on sorted arrays that the B-tree uses (`insertionPoint`, `findIndexByValue`);
- the unbalanced level-order containers `BinaryTree`, `GeneralTree` and `GenericTree`, and the child
  operations of `TreeNode` and `GeneralNode`.

Files and modules:

| file | module | what it holds |
|---|---|---|
| `Wrappers.dfy` | `Wrappers` | `Option` |
| `ArraySearch.dfy` | `ArraySearch` | `insertionPoint` and `findIndexByValue` as written (loops proved equal to recursive functions), the lower bound they are meant to compute, and corrected loops |
| `BTreeNodes.dfy` | `BTreeNodes` | B-tree nodes as values, paths, the in-order entries `Elems`, the order invariants, and the map operations `Get`, `Put`, `Remove` on sorted entries |
| `BTree.dfy` | `BTrees` | `find`, `findForUpdate`, `findForDelete`, `findInOrderPredecessorNode`, insert with splits, and the as-written search on a tree |
| `BTreeDelete.dfy` | `BTreeDelete` | `findFullestSibling`, `handleUnderflow`, `delete(node:at:)`, `delete(withKey:)` |
| `BTreeClass.dfy` | `BTreeObjects` | the `BTree` class: the order and the root, reassigned by `Insert` and `Delete` |
| `RedBlackShapes.dfy` | `RedBlackShapes` | red-black trees as values: search path, rotation, the fix-up cases, insert, and their theorems |
| `RedBlackTree.dfy` | `RedBlackTrees` | the node objects with `parent`, `children` and `red`, and the class whose methods are proved to change them exactly as the value functions say |
| `TreeNodes.dfy` | `TreeNodes` | `TreeNode` and `GeneralNode` with their `children` arrays |
| `LevelOrder.dfy` | `LevelOrder` | tree shapes: depth, levels, breadth, and where level-order insertion attaches a node |
| `GrowthShapes.dfy` | `GrowthShapes` | the shapes built by repeated level-order insertion: chains and complete binary trees |
| `BinaryTree.dfy`, `GeneralTree.dfy`, `GenericTree.dfy` | `BinaryTrees`, `GeneralTrees`, `GenericTrees` | the three containers as classes over their node objects |

B-tree. A `BTreeNode` becomes a value `Node(entries, children)`, where entry `i` pairs `keys[i]` with
`values[i]` and a leaf has no children. A node inside a tree is named by its path of child indices from
the root. That path takes the place of the `parent` references, of `indexInParent` and of the `tree`
back-reference, and walking up to the parent means dropping the last step of the path. Each Swift
method that edits nodes in place (`insert(node:left:right:key:value:at:)`, `delete(node:at:)`,
`handleUnderflow`) becomes a function from the tree before to the tree after. The class
`BTreeObjects.BTree` keeps the order `m` and the root, and reassigns the root through those functions.
A tree stands for its in-order entries `Elems`. Insert is proved to act as `Put` on them and delete as
`Remove`. Both keep the B-tree invariants:

- every leaf at the same depth;
- between `minKeys` and `m - 1` keys in every non-root node;
- `keys.count + 1` children in every inner node;
- keys strictly increasing in order.

`minKeys`, `ceil(m / 2) - 1` in floating point, is the integer `(m + 1) / 2 - 1` (`BTreeNodes.MinKeys`).

The node search comes in two forms:

- `insertionPoint` as written;
- the lower bound it is meant to compute, which `ArraySearch.InsertionPointCorrected` returns on
  sorted arrays.

The B-tree theorems are stated with the lower bound. The as-written search is shown on a small tree
under "## Findings".

Red-black tree. The node objects are records `Node(key, value, red, parent, children)` held in a map
`nodes: map<nat, Node<V>>` from identities to records. A reference is an identity or `Nil`, so the
Swift object graph becomes a map the methods update. A ghost value `t: Tree<nat>` describes the linked
structure. Each method that changes links or colours (`Rotate`, `Paint`, `Case2`, `Cases56`,
`InsertAt`, `Rebalance`, `Insert`) is proved to change `t` exactly as the matching function of
`RedBlackShapes` does. The theorems about those functions then hold of the objects:

- order and exact key set after insert;
- no red node with a red child;
- equal black height on every root-to-nil path.

The getters `grandparent`, `sibling`, `uncle`, `closeNephew` and `distantNephew` are functions of the
class, tied to the shape by the lemmas `Neighbours` and `UncleOf`.

Level-order containers. Each container is a class holding its node objects in a ghost sequence
`nodes`. A ghost shape `kids` says, for each node, the indices of its children in `nodes` (`-1` for a
nil slot). `Valid()` ties the `left`/`right` fields or the `children` arrays to the shape. `depth`,
`levels` and `breadth` are proved equal to functions of the shape. `append`/`insert` is proved to
attach the new node exactly where the level-order search of the shape says. The test trees are proved
to have the shapes the tests expect: a perfect binary tree after `2^k - 1` appends, and a chain after
any number of `GeneralTree`/`GenericTree` insertions.

## Model

| member | source | states |
|---|---|---|
| ArraySearch.LowerBound | Sources/Treesquid/SwiftExtensions.swift:27-52 | the index every element before which is smaller than `v` and the element at which, if any, is at least `v`: the insertion point `insertionPoint` is meant to return |
| ArraySearch.LowerBoundSorted | Sources/Treesquid/SwiftExtensions.swift:27-52 | on a strictly sorted array, `v` is present exactly when it sits at the lower bound, and every later element is at least `v` |
| ArraySearch.AsWrittenInsertionPoint | Sources/Treesquid/SwiftExtensions.swift:27-52 | the as-written result is an index in `0...count`; `(true, i)` only when `self[i] == value`; an empty array gives `(false, 0)` |
| ArraySearch.InsertionPoint | Sources/Treesquid/SwiftExtensions.swift:27-52 | the Swift loop, with truncating division, computes `AsWrittenInsertionPoint`, so it never reads out of bounds and terminates |
| ArraySearch.AsWrittenShortArrays | Sources/Treesquid/SwiftExtensions.swift:27-52 | for strictly sorted arrays of at most two keys the as-written index is the lower bound, and presence is reported exactly except for the first of two keys |
| ArraySearch.AsWrittenMissesFirstOfTwo | Sources/Treesquid/SwiftExtensions.swift:36 | `[1, 2]` searched for `1` gives `(false, 0)` |
| ArraySearch.AsWrittenWrongIndex | Sources/Treesquid/SwiftExtensions.swift:36 | `[1, 3, 5]` searched for `4` gives `(false, 1)`, while the insertion point is 2 |
| ArraySearch.AsWrittenMissesPresentKey | Sources/Treesquid/SwiftExtensions.swift:36 | `[1, 2, 3, 4, 5]` searched for `4` gives `(false, 2)` although 4 is present |
| ArraySearch.AsWrittenFindIndex | Sources/Treesquid/SwiftExtensions.swift:4-25 | an index returned by `findIndexByValue` holds `value`; an empty array gives nil |
| ArraySearch.FindIndexByValue | Sources/Treesquid/SwiftExtensions.swift:4-25 | the Swift loop computes `AsWrittenFindIndex` |
| ArraySearch.AsWrittenFindShortArrays | Sources/Treesquid/SwiftExtensions.swift:4-25 | for strictly sorted arrays of at most two keys an index is found exactly when the key is present, except for the first of two keys |
| ArraySearch.AsWrittenFindMissesFirstOfTwo | Sources/Treesquid/SwiftExtensions.swift:14 | `[1, 2]` searched for `1` gives nil |
| ArraySearch.InsertionPointCorrected | Sources/Treesquid/SwiftExtensions.swift:27-52 | with `upperIndex = middleIndex`, the loop returns the lower bound on a strictly sorted array, with `true` exactly when the key is present |
| ArraySearch.FindIndexByValueCorrected | Sources/Treesquid/SwiftExtensions.swift:4-25 | with `upperIndex = middleIndex`, the loop finds an index holding the key exactly when the key is present in a strictly sorted array |
| BTreeNodes.PutGet | Sources/Treesquid/BTree.swift:205-216 | the entries after an insert stay sorted; a lookup of the inserted key gives the new value and every other lookup is unchanged |
| BTreeNodes.PutOld | Sources/Treesquid/BTree.swift:211-215 | inserting a present key replaces only that entry's value |
| BTreeNodes.RemoveGet | Sources/Treesquid/BTree.swift:221-229 | the entries after a delete stay sorted; the deleted key is absent and every other lookup is unchanged |
| BTreeNodes.RemoveAbsent | Sources/Treesquid/BTree.swift:224-226 | deleting an absent key changes nothing |
| BTrees.Point | Sources/Treesquid/BTree.swift:261-262 | the node search gives an index in `0...keys.count`, and reports a hit only at a slot holding the key |
| BTrees.FindSound | Sources/Treesquid/BTree.swift:255-266 | on a valid tree, `find` returns the slice of the key and its value exactly when the in-order entries hold the key, nil otherwise |
| BTrees.FindForUpdate | Sources/Treesquid/BTree.swift:273-279 | the descent ends at a node of the tree, at a slot within its keys |
| BTrees.DescentSound | Sources/Treesquid/BTree.swift:268-279 | on a sorted tree the descent ends at the entry holding the key, which splits the in-order entries around it, or at the leaf slot where the key belongs between smaller and larger entries |
| BTrees.FindForDelete | Sources/Treesquid/BTree.swift:281-286 | a found path leads to a node whose key at the returned slot is the key |
| BTreeDelete.FindForDeleteAlong | Sources/Treesquid/BTree.swift:281-286 | `findForDelete` follows the same descent as `findForUpdate` and returns nil exactly when that descent misses |
| BTreeDelete.FindForDeleteSound | Sources/Treesquid/BTree.swift:281-286 | on a valid tree, `findForDelete` finds a node exactly when the key is stored, and that entry splits the in-order entries |
| BTrees.PredecessorPath | Sources/Treesquid/BTree.swift:450-459 | the path down the last children stays inside the tree |
| BTreeDelete.PredecessorSound | Sources/Treesquid/BTree.swift:450-459 | from child `i` of an inner node the path ends at a non-empty leaf whose last entry is the in-order predecessor of key `i` |
| BTrees.SplitShape | Sources/Treesquid/BTree.swift:305-316 | splitting an overflowing node at `keys.count / 2` gives two halves of equal height, each with between `minKeys` and `m - 1` keys |
| BTrees.RootSplitSound | Sources/Treesquid/BTree.swift:317-323 | a root split makes a one-key root over the two halves, with the same entries, one level higher |
| BTrees.InsertUpSound | Sources/Treesquid/BTree.swift:296-333 | inserting into a node and splitting upwards yields the wanted entries, keeps every node within its key bounds and grows the height only by a root split |
| BTrees.InsertSound | Sources/Treesquid/BTree.swift:205-216 | insert gives a valid tree whose entries are the old ones with the key put; the height stays or grows by one with a one-key root |
| BTreeDelete.FullestSibling | Sources/Treesquid/BTree.swift:432-448 | the chosen neighbour is adjacent, has at least as many keys as the other neighbour, and is the right one only when it has strictly more (ties go left) |
| BTreeDelete.TransferSound | Sources/Treesquid/BTree.swift:372-396 | a transfer through the parent keeps the entries and heights; the short node gains one key, the sibling loses one and the parent keeps its count |
| BTreeDelete.MergeSound | Sources/Treesquid/BTree.swift:397-413 | a merge of left keys, separator and right keys keeps the entries and heights; the parent loses one key and one child |
| BTreeDelete.TransferCase | Sources/Treesquid/BTree.swift:372-396 | a transfer inside a tree keeps its entries, its height and every node's key bounds |
| BTreeDelete.MergeCase | Sources/Treesquid/BTree.swift:414-425 | a merge that leaves the parent with enough keys, or a non-empty root, keeps the entries, height and key bounds |
| BTreeDelete.CollapseCase | Sources/Treesquid/BTree.swift:414-419 | a merge that empties the root leaves one child, which becomes a root one level lower with the same entries |
| BTreeDelete.UpCase | Sources/Treesquid/BTree.swift:424-429 | a merge that leaves a non-root parent short repairs the parent in turn, keeping the entries and key bounds |
| BTreeDelete.HandleUnderflowSound | Sources/Treesquid/BTree.swift:370-430 | repairing a short node keeps the entries and key bounds, and keeps the height except for a root collapse |
| BTreeDelete.LeafUnderflow | Sources/Treesquid/BTree.swift:336-352 | removing a key from a non-root leaf that drops below `minKeys` leaves a tree that `handleUnderflow` can repair |
| BTreeDelete.Overwrite | Sources/Treesquid/BTree.swift:361-362 | overwriting an inner node's key keeps the shape, the key bounds and every node below |
| BTreeDelete.DeleteRootLeaf | Sources/Treesquid/BTree.swift:339-344 | removing from a root leaf drops the entry, and empties the tree exactly when it was the last |
| BTreeDelete.DeleteLeafKept | Sources/Treesquid/BTree.swift:346-349 | removing from a leaf that keeps `minKeys` keys drops only that entry |
| BTreeDelete.DeleteLeafShort | Sources/Treesquid/BTree.swift:350-352 | removing from a leaf that becomes short drops only that entry once the underflow is repaired |
| BTreeDelete.DeleteInnerSound | Sources/Treesquid/BTree.swift:354-368 | deleting an inner key replaces it by its in-order predecessor, removed from its leaf, and the result holds the entries without the deleted one |
| BTreeDelete.DeleteAtSound | Sources/Treesquid/BTree.swift:335-368 | `delete(node:at:)` yields exactly the entries without the one deleted, a valid tree, and no tree only when the root leaf held that single entry |
| BTreeDelete.DeleteSound | Sources/Treesquid/BTree.swift:221-229 | delete gives a valid tree whose entries are the old ones with the key removed; an absent key leaves the tree unchanged; the height shrinks only by a root collapse |
| BTreeObjects.BTree.constructor | Sources/Treesquid/BTree.swift:177-179 | a new tree has order `m` and no root, and is valid for `m >= 3` |
| BTreeObjects.BTree.IsEmpty | Sources/Treesquid/BTree.swift:181-183 | a valid tree is empty exactly when it holds no entries |
| BTreeObjects.NoRootNoEntries | Sources/Treesquid/BTree.swift:181-183 | a valid tree has no root exactly when it has no entries |
| BTreeObjects.BTree.Find | Sources/Treesquid/BTree.swift:255-258 | the slice of the key and its stored value when the tree holds the key, nil otherwise |
| BTreeObjects.BTree.Insert | Sources/Treesquid/BTree.swift:205-216 | the root becomes the result of the insert function; the tree stays valid and its entries are the old ones with the key put |
| BTreeObjects.BTree.Delete | Sources/Treesquid/BTree.swift:223-229 | the root becomes the result of the delete function; the tree stays valid, its entries lose the key, and an absent key leaves the root as it was |
| BTrees.AsWrittenNeverMisses | Sources/Treesquid/BTree.swift:260-266 | `find` as written never returns nil: it returns the key or traps |
| BTrees.AsWrittenLeafMissTraps | Sources/Treesquid/BTree.swift:263-264 | `find` as written traps on a leaf that lacks the key |
| BTrees.ExampleValid | Tests/TreesquidTests/BTreeTests.swift:21-40 | the tree after inserting 8, 9, 10, 11, 15 with `m = 3` (9 and 11 over 8, 10 and 15) is a valid B-tree holding 9 |
| BTrees.AsWrittenFindTraps | Sources/Treesquid/BTree.swift:260-266 | on that tree `find(key: 9)` as written traps, while the lower-bound search finds 9 |
| BTrees.AsWrittenInsertDuplicates | Sources/Treesquid/BTree.swift:205-216 | on that tree inserting 9 again as written adds a second 9 to the leaf of 8, so the entries are no longer sorted |
| BTrees.IntendedInsertOverwrites | Sources/Treesquid/BTree.swift:210-215 | with the lower-bound search, inserting 9 again keeps the keys and only rewrites the value |
| RedBlackShapes.DescendFinds | Sources/Treesquid/RedBlackTree.swift:214-235 | in an ordered tree the search path ends at the node holding the key, or at an empty slot exactly when the key is absent |
| RedBlackShapes.RotateAtKeeps | Sources/Treesquid/RedBlackTree.swift:240-259 | a rotation keeps the in-order keys and the node set |
| RedBlackShapes.FlipRedBlack | Sources/Treesquid/RedBlackTree.swift:291-296 | the recolouring case with a red uncle repairs the subtree below the grandparent and keeps its black height, leaving the grandparent red |
| RedBlackShapes.RestructureRedBlack | Sources/Treesquid/RedBlackTree.swift:308-320 | the rotation cases with a black uncle leave a black-rooted subtree with no red-red link and the same black height |
| RedBlackShapes.FixUpKeeps | Sources/Treesquid/RedBlackTree.swift:274-320 | the fix-up loop keeps the in-order keys and the node set |
| RedBlackShapes.FixUpRedBlack | Sources/Treesquid/RedBlackTree.swift:274-320 | starting from a red node that only clashes with its parent in a balanced tree, the fix-up loop yields a red-black tree |
| RedBlackShapes.InsertPresent | Sources/Treesquid/RedBlackTree.swift:161-166 | inserting a present key leaves the tree unchanged |
| RedBlackShapes.InsertEmpty | Sources/Treesquid/RedBlackTree.swift:262-267 | inserting into an empty tree makes a red root leaf |
| RedBlackShapes.InsertKeys | Sources/Treesquid/RedBlackTree.swift:261-321 | insert keeps the keys in order and adds exactly the new key |
| RedBlackShapes.InsertNodes | Sources/Treesquid/RedBlackTree.swift:261-321 | insert adds exactly the new node and keeps nodes distinct |
| RedBlackShapes.InsertRedBlack | Sources/Treesquid/RedBlackTree.swift:274-320 | insert keeps the red-black rules: no red node with a red child, equal black height on every path |
| RedBlackShapes.BlackOnLeafPath | Tests/TreesquidTests/RedBlackTreeTests.swift:27-49 | in a balanced tree every root-to-nil path counts the same number of black nodes |
| RedBlackShapes.InsertExample | Tests/TreesquidTests/RedBlackTreeTests.swift:9-17 | inserting 8, 18, 5, 15, 17, 25, 40, 80 gives root 17 over 8 and 25, then 5, 15, 18, 40, with 80 right of 40; 17, 5, 15, 18 and 40 black, 8, 25 and 80 red |
| RedBlackTrees.RedBlackTree.constructor | Sources/Treesquid/RedBlackTree.swift:128-138 | a new tree is valid and empty |
| RedBlackTrees.RedBlackTree.IsEmpty | Sources/Treesquid/RedBlackTree.swift:140-142 | the tree is empty exactly when it holds no keys |
| RedBlackTrees.RedBlackTree.Neighbours | Sources/Treesquid/RedBlackTree.swift:14-45 | `indexInParent`, `sibling`, `grandparent` and the two nephews of a node are the ones the shape gives |
| RedBlackTrees.RedBlackTree.UncleOf | Sources/Treesquid/RedBlackTree.swift:26-30 | `uncle` is the other child of the grandparent |
| RedBlackTrees.RedBlackTree.Find | Sources/Treesquid/RedBlackTree.swift:199-212 | the cursor loop returns a node holding the key, and nil exactly when the key is absent |
| RedBlackTrees.RedBlackTree.FindForInsert | Sources/Treesquid/RedBlackTree.swift:214-235 | `(n, -1)` with `n` holding the key when present; `(nil, -1)` exactly on an empty tree; otherwise a node with an empty slot `d` on the side of the key, where the key belongs |
| RedBlackTrees.RedBlackTree.Rotate | Sources/Treesquid/RedBlackTree.swift:240-259 | with no child on side `1 - d` nothing changes and nil is returned; otherwise the links become the rotated tree and the promoted child is returned |
| RedBlackTrees.RedBlackTree.Paint | Sources/Treesquid/RedBlackTree.swift:318-319 | setting `red` recolours exactly that node of the shape |
| RedBlackTrees.RedBlackTree.Case2 | Sources/Treesquid/RedBlackTree.swift:291-296 | recolouring parent, uncle and grandparent is the flip of the grandparent's subtree |
| RedBlackTrees.RedBlackTree.Cases56 | Sources/Treesquid/RedBlackTree.swift:308-320 | the inner rotation when needed, the outer rotation and the recolouring restructure the grandparent's subtree |
| RedBlackTrees.RedBlackTree.InsertAt | Sources/Treesquid/RedBlackTree.swift:261-270 | linking the new red node into the empty slot makes the shape the tree with the red leaf added |
| RedBlackTrees.RedBlackTree.Rebalance | Sources/Treesquid/RedBlackTree.swift:269-320 | the `repeat` loop and the cases after it change the shape exactly as the fix-up function does |
| RedBlackTrees.RedBlackTree.Insert | Sources/Treesquid/RedBlackTree.swift:160-173 | a present key leaves the tree as it was; otherwise the tree stays valid, gains exactly the new key and node, and keeps every other node's value |
| TreeNodes.TreeNode.constructor | Sources/Treesquid/TreeNode.swift:8-10 | a new node has the value, no children and no parent |
| TreeNodes.TreeNode.SetChild | Sources/Treesquid/TreeNode.swift:13-20 | a subscript set replaces only slot `index` and keeps the length |
| TreeNodes.TreeNode.Append | Sources/Treesquid/TreeNode.swift:23-25 | the child goes last and the others are unchanged |
| TreeNodes.TreeNode.Prepend | Sources/Treesquid/TreeNode.swift:28-30 | the child goes first and the others shift right by one |
| TreeNodes.TreeNode.Insert | Sources/Treesquid/TreeNode.swift:33-35 | the child goes to `index`, with the children before and after it kept in order |
| TreeNodes.GeneralNode.constructor | Sources/Treesquid/GeneralTree.swift:15-17 | a new node has the value, no children and no parent |
| TreeNodes.GeneralNode.SetChild | Sources/Treesquid/GeneralTree.swift:20-27 | a subscript set replaces only slot `index` and keeps the length |
| TreeNodes.GeneralNode.Append | Sources/Treesquid/GeneralTree.swift:30-33 | the child goes last and the others are unchanged |
| TreeNodes.GeneralNode.Prepend | Sources/Treesquid/GeneralTree.swift:36-39 | the child goes first and the others shift right by one |
| TreeNodes.GeneralNode.Insert | Sources/Treesquid/GeneralTree.swift:42-45 | the child goes to `index`, with the children before and after it kept in order |
| LevelOrder.LevelCountIsDepth | Sources/Treesquid/GeneralTree.swift:115-134 | the number of levels equals the depth |
| LevelOrder.LevelsStep | Sources/Treesquid/GeneralTree.swift:123-134 | each level lists the non-nil children of the previous level in order, and the levels stop at the first empty one |
| LevelOrder.TargetExists | Sources/Treesquid/GeneralTree.swift:97-113 | level-order insertion into a non-empty tree always finds a node with room |
| LevelOrder.AttachWellFormed | Sources/Treesquid/GeneralTree.swift:97-113 | attaching a node keeps the shape a tree and adds exactly one node, last |
| LevelOrder.AttachFillsOneSlot | Sources/Treesquid/GeneralTree.swift:97-113 | attaching changes only the first node with room in level order: a childless one gets the node as its only child, otherwise its first nil slot is filled |
| LevelOrder.AttachKeepsLeftBeforeRight | Sources/Treesquid/BinaryTree.swift:70-85 | appending never gives a node a right child without a left one |
| GrowthShapes.EmptyShape | Sources/Treesquid/BinaryTree.swift:28-45 | the empty tree has no levels, depth 0, breadth 0, and no node to attach below |
| GrowthShapes.GrownIsComplete | Sources/Treesquid/BinaryTree.swift:51-85 | `n` binary appends from empty build the complete binary tree of `n` nodes |
| GrowthShapes.CompleteGrows | Sources/Treesquid/BinaryTree.swift:70-85 | the next binary append attaches below node `(n - 1) / 2`, giving the complete tree of `n + 1` nodes |
| GrowthShapes.PerfectAppends | Tests/TreesquidTests/BinaryTreeTests.swift:13-58 | after `2^k - 1` appends the depth is `k`, there are `k` levels, level `d` holds `2^d` nodes and the breadth is `2^(k-1)` |
| GrowthShapes.GrownIsChain | Sources/Treesquid/GeneralTree.swift:97-113 | `n` insertions of childless nodes from empty build a chain |
| GrowthShapes.ChainAppends | Tests/TreesquidTests/GeneralTreeTests.swift:6-51 | after `n` insertions the depth is `n`, there are `n` levels of one node each, and the breadth is 1 |
| BinaryTrees.BinaryTreeNode.constructor | Sources/Treesquid/BinaryTree.swift:16-19 | a new node has the value and no parent or children |
| BinaryTrees.BinaryTree.constructor | Sources/Treesquid/BinaryTree.swift:21-22 | a new tree is valid and empty |
| BinaryTrees.BinaryTree.IsEmpty | Sources/Treesquid/BinaryTree.swift:28-30 | the tree is empty exactly when it has no nodes |
| BinaryTrees.BinaryTree.DepthOf | Sources/Treesquid/BinaryTree.swift:87-90 | the depth of a node is the shape's depth: 0 for nil, else 1 + the larger child depth |
| BinaryTrees.BinaryTree.Depth | Sources/Treesquid/BinaryTree.swift:43-45 | the tree's depth is the shape's depth |
| BinaryTrees.BinaryTree.NextLevelOf | Sources/Treesquid/BinaryTree.swift:94-98 | the next level lists the left and right children of the level, in order |
| BinaryTrees.BinaryTree.ExtendLevels | Sources/Treesquid/BinaryTree.swift:92-102 | extending a prefix of the levels yields all the levels |
| BinaryTrees.BinaryTree.Levels | Sources/Treesquid/BinaryTree.swift:59-64 | the result names the shape's levels |
| BinaryTrees.BinaryTree.Breadth | Sources/Treesquid/BinaryTree.swift:36-41 | the breadth is the size of the largest level, 0 for an empty tree |
| BinaryTrees.BinaryTree.ScanLevel | Sources/Treesquid/BinaryTree.swift:71-83 | the loop over a level finds the first node with a free slot, or collects the next level |
| BinaryTrees.BinaryTree.AppendFrom | Sources/Treesquid/BinaryTree.swift:70-85 | the level-order search attaches the new node where the shape's attach puts it |
| BinaryTrees.BinaryTree.LinkLeft | Sources/Treesquid/BinaryTree.swift:73-76 | setting `left` attaches the new node as the left child |
| BinaryTrees.BinaryTree.LinkRight | Sources/Treesquid/BinaryTree.swift:77-80 | setting `right` attaches the new node as the right child |
| BinaryTrees.BinaryTree.Append | Sources/Treesquid/BinaryTree.swift:51-57 | the new node becomes the root of an empty tree or is attached at the first free slot in level order; nothing else changes |
| GeneralTrees.GeneralTree.constructor | Sources/Treesquid/GeneralTree.swift:48-49 | a new tree is valid and empty |
| GeneralTrees.GeneralTree.IsEmpty | Sources/Treesquid/GeneralTree.swift:55-57 | the tree is empty exactly when it has no nodes |
| GeneralTrees.GeneralTree.DepthOf | Sources/Treesquid/GeneralTree.swift:115-121 | the depth of a node ignores nil children: 0 for nil, else 1 + the largest child depth |
| GeneralTrees.GeneralTree.Depth | Sources/Treesquid/GeneralTree.swift:70-72 | the tree's depth is the shape's depth |
| GeneralTrees.GeneralTree.Levels | Sources/Treesquid/GeneralTree.swift:86-91 | the result names the shape's levels |
| GeneralTrees.GeneralTree.Breadth | Sources/Treesquid/GeneralTree.swift:63-68 | the breadth is the size of the largest level, 0 for an empty tree |
| GeneralTrees.GeneralTree.ScanNode | Sources/Treesquid/GeneralTree.swift:100-110 | a node has room exactly when it is childless or has a nil slot, and the slot is the first nil one |
| GeneralTrees.GeneralTree.InsertFrom | Sources/Treesquid/GeneralTree.swift:97-113 | the level-order search attaches the new node where the shape's attach puts it |
| GeneralTrees.GeneralTree.LinkChild | Sources/Treesquid/GeneralTree.swift:100-108 | appending to a childless node or filling its first nil slot attaches the new node there |
| GeneralTrees.GeneralTree.Insert | Sources/Treesquid/GeneralTree.swift:78-84 | the new node becomes the root of an empty tree or is attached at the first place with room in level order; nothing else changes |
| GenericTrees.GenericTree.constructor | Sources/Treesquid/GenericTree.swift:3-4 | a new tree is valid and empty |
| GenericTrees.GenericTree.IsEmpty | Sources/Treesquid/GenericTree.swift:10-12 | the tree is empty exactly when it has no nodes |
| GenericTrees.GenericTree.DepthOf | Sources/Treesquid/GenericTree.swift:70-76 | the depth of a node ignores nil children: 0 for nil, else 1 + the largest child depth |
| GenericTrees.GenericTree.Depth | Sources/Treesquid/GenericTree.swift:25-27 | the tree's depth is the shape's depth |
| GenericTrees.GenericTree.Levels | Sources/Treesquid/GenericTree.swift:41-46 | the result names the shape's levels |
| GenericTrees.GenericTree.Breadth | Sources/Treesquid/GenericTree.swift:18-23 | the breadth is the size of the largest level, 0 for an empty tree |
| GenericTrees.GenericTree.ScanNode | Sources/Treesquid/GenericTree.swift:55-65 | a node has room exactly when it is childless or has a nil slot, and the slot is the first nil one |
| GenericTrees.GenericTree.AppendFrom | Sources/Treesquid/GenericTree.swift:52-68 | the level-order search attaches the new node where the shape's attach puts it |
| GenericTrees.GenericTree.LinkChild | Sources/Treesquid/GenericTree.swift:55-63 | appending to a childless node or filling its first nil slot attaches the new node there |
| GenericTrees.GenericTree.Append | Sources/Treesquid/GenericTree.swift:33-39 | the new node becomes the root of an empty tree or is attached at the first place with room in level order; nothing else changes |

## Left out

- BTrees.FindIn: uses the lower-bound search, not `insertionPoint` as written. It reports a miss at a leaf as nil, where the Swift code reads a child slot of an empty array and traps. `FindSound` holds for this corrected lookup only; the as-written lookup is `AsWrittenFindIn`.
- BTrees.FindForUpdate: `DescentSound`, `InsertSound` and `IntendedInsertOverwrites` are proved for the lower-bound search only. With `insertionPoint` as written, insert can duplicate a key (see "## Findings").
- BTrees.InsertKey: proved sound for the lower-bound search only; the as-written search is exhibited, not proved about.
- BTrees.FindForDelete: always uses the lower-bound search. With `insertionPoint` as written, a delete of the first of two keys in a node would miss it. That consequence is not exhibited separately.
- BTrees.InsertSound: requires `ValidRoot(root, m)`, which includes `m >= 3`. `BTree.init(m:)` accepts any `m`. With `m = 2` an overflowing node of two keys splits at index 1 into a left half with one key and a right half with no key, so the order invariants do not hold.
- BTreeDelete.DeleteSound: requires `ValidRoot(root, m)`, so `m >= 3`, for the same reason.
- BTreeDelete.DeleteAt: defined only on valid trees of order `m >= 3`. On such trees the predecessor node is always a leaf, so the branch of `delete(node:at:)` that also drops the predecessor's last child (`BTree.swift:358-360`) never runs and is not modelled.
- BTreeObjects.BTree.constructor: promises `Valid()` only for `m >= 3`. `Insert`, `Delete` and `Find` require `Valid()`.
- BTrees.PredecessorPath: the `guard` on a nil last child (`BTree.swift:452-454`) is not modelled, because a child here is a node value and is never nil.
- B-tree nodes are values, and `parent`, the `tree` back-reference and `indexInParent`/`indexIn` are replaced by paths. So sharing of node objects between trees is not modelled, and neither is the parent fix-up done by the `BTreeNode` initializer.
- The values of the B-tree are of type `V`, not `Value?`: every insert supplies a value.
- RedBlackTrees.RedBlackTree.Insert: requires `node.children == [Nil, Nil]`. The Swift insert links the given node as it is, so a node that already carries children would bring its subtree along. The nodes the library builds (`RedBlackTreeNode(key:)`) have two nil children.
- Red-black node objects are records in the map `nodes: map<nat, Node<V>>` (`RedBlackTree.dfy`), not instances of a node class. A reference is a map key, and the methods update the map. What this does not capture is Swift reference identity outside the tree: a node reachable from elsewhere and changed there.
- RedBlackTrees.RedBlackTree.Rotate: the thrown `invalidTreeConfiguration` error is a `Nil` result with the tree unchanged. `insert(node:)` ignores it in the Swift code as well.
- BinaryTrees.BinaryTree.Append: requires a new node with `left == null && right == null`. The Swift `append` accepts a node that carries a subtree, and that subtree would then hang under the attach point. Grafting a subtree's shape is not modelled.
- GeneralTrees.GeneralTree.Insert: requires every slot of the new node's `children` to be nil. The Swift `insert` accepts a node that carries children. A node with nil slots only is modelled.
- GenericTrees.GenericTree.Append: requires every slot of the new node's `children` to be nil, for the same reason as `GeneralTree.Insert`.
- The `append`/`insert` methods of the three containers require `node !in nodes`: the new node is not already in the tree. Appending a node that is already present would create a cycle, on which the Swift `depth` and `levels` do not terminate.
- The unused `depth` parameter of the private level-order helpers is carried but has no effect, as in the Swift code.
- Red-black delete is not part of this model: the Swift class has no delete.
- `BTree.rotate` is not part of this model: it is an unfinished stub.
- The generic-protocol members are not part of this model: `getRoot`, `setRoot`, `child(at:)`, `getChildren`, `replace(childAt:)`, `insert(node: GenericNode)`, and `width`, `count`, `depth` and `levels` of `BTree` and `RedBlackTree`, which delegate to `TreeUtils.swift`.
- The convenience initializers of `BTreeNode` and `RedBlackTreeNode`, `degree`, `capacity` and `maxDegree` are not part of this model.
- `TreeUtils.swift`, `MAryTree.swift`, `DynamicTreeNode.swift`, `UnboundedTreeNode.swift`, `Tree.swift` and `Package.swift` are not part of this model.
- Swift `Int` is 64 bits; keys, indices and counts here are unbounded integers. Overflow cannot occur at the sizes the code handles.
- Weak references, memory management and concurrency are not modelled.

## Findings

| source | as written | input that shows it | evidently intended | confidence | as-written member | corrected member |
|---|---|---|---|---|---|---|
| Sources/Treesquid/SwiftExtensions.swift:36 | `upperIndex = middleIndex - 1` treats the exclusive upper bound as inclusive | `[1, 2].insertionPoint(value: 1)` gives `(false, 0)` although 1 is present | `upperIndex = middleIndex`: the lower bound, and `true` exactly when the key is present | not executed | ArraySearch.AsWrittenMissesFirstOfTwo | ArraySearch.InsertionPointCorrected |
| Sources/Treesquid/SwiftExtensions.swift:14 | the same exclusive bound in `findIndexByValue` | `[1, 2].findIndexByValue(1)` gives nil | an index holding the value whenever it is present | not executed | ArraySearch.AsWrittenFindMissesFirstOfTwo | ArraySearch.FindIndexByValueCorrected |
| Sources/Treesquid/BTree.swift:261 | `find` relies on `insertionPoint`, which misses the first of two keys in a node | with `m = 3`, after inserting 8, 9, 10, 11, 15 (root 9, 11 over 8, 10, 15), `find(key: 9)` descends to the leaf of 8 and reads `children[1]` of an empty array | the slice of 9 | not executed | BTrees.AsWrittenFindTraps | BTrees.FindSound |
| Sources/Treesquid/BTree.swift:274 | `findForUpdate` misses the first of two keys, so insert does not see that the key exists | on the same tree, `insert(_, forKey: 9)` adds a second 9 to the leaf of 8 | replacing the value of 9 | not executed | BTrees.AsWrittenInsertDuplicates | BTrees.InsertSound |
| Sources/Treesquid/BTree.swift:263 | a miss at a leaf reads a child slot of the leaf's empty `children` array | `find(key: 7)` on a tree whose root is the leaf of 8 | nil, as the `child == nil` test on the next line intends | not executed | BTrees.AsWrittenLeafMissTraps | BTrees.FindSound |
