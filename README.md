# DSSP indexes in Dafny

DSSP is a small in-memory database written in Go. It keeps named *pools*. A pool holds named *schemas*, and a schema holds named *collections*. A collection is a key/value index over string keys, stored in one of four backends: an AVL tree, a red-black tree, a B-tree of minimum degree 2, or a plain Go map. Every backend offers the same operations: `Insert`, `Get`, `GetRange` (the keys in `[lo, hi]`), `Update` and `Remove`. The map backend interns its keys through a process-wide string pool.

This project models the four backends, the string pool and the pool/schema/collection namespace, and proves properties of the model. The modules are:

- `Keys` (keys.dfy): Go's string order and the reference definitions the backends are measured against.
  - `Filter` gives the keys of a sequence that lie in a range.
  - `InsertSorted` puts a key into a non-decreasing sequence.
- `Outcomes` (outcomes.dfy): the `Option`, `Result` and `Error` values that stand for Go's `(value, error)` pairs.
- `Avl` (avl.dfy): the AVL tree of avl.go, as a recursive datatype with stored heights.
  - The recursive helpers are functions, `minValueNode` is a loop, and `AVLTree` is a class.
- `RedBlack` (rbtree.dfy): the red-black tree of rb-tree.go.
  - Parent pointers are modelled by a cursor, or zipper: a subtree plus the path of parent frames up to the root.
  - The fix-up loops and the successor/minimum walks are `while` loops over that cursor.
  - `Entries` lists the key/value pairs in order, so a write through a node pointer is stated as a change at one in-order position.
- `BTrees` (btree.dfy): the B-tree of b-tree.go.
  - A node is a value. A routine that updates a node in place returns the updated node.
  - The key scans, `getPred` and `getSucc` are loops.
- `Collections` (zero.dfy): zero.go.
  - Covers `StringPoolManager`, `MapCollection`, `TreeManager`, `Pool`, `Schema` and `PoolManager`.
  - Go maps are `map` fields that the methods reassign.

Each tree's in-order key sequence is its abstract contents. Range queries are proved equal to `Filter` of that sequence. Insertions and deletions are proved to add or remove exactly one key, as a multiset. The balance invariants are proved where the source keeps them: AVL heights and balance, red-black colours on insertion, and B-tree node sizes and leaf depth. Where the Go code fails (it loses the tree, leaves the root red, or dereferences nil), the model says so explicitly. The AVL and red-black classes run the code as written. Each defect sits beside a corrected version with its intended property proved, as described under "Findings".

## Model

| member | source | states |
|---|---|---|
| Avl.Max | avl.go:98-103 | the result is at least both arguments and equal to one of them |
| Avl.HeightIsDepth | avl.go:91-96 | when every stored height is right, `height` is the real depth and `getBalance` is the depth difference of the children |
| Avl.RightRotate | avl.go:105-116 | the left child becomes the root and the old root its right child; keys and entries keep their order; both stored heights are recomputed from the children |
| Avl.LeftRotate | avl.go:118-129 | the mirror image of the right rotation: order kept, heights recomputed |
| Avl.RightRotateAvl | avl.go:244-246 | in the left-left case (left side two levels higher, left child not leaning right) one right rotation yields a balanced tree, one level lower unless the left child was level |
| Avl.LeftRotateAvl | avl.go:253-255 | in the right-right case one left rotation yields a balanced tree, one level lower unless the right child was level |
| Avl.LeftRightAvl | avl.go:248-251 | in the left-right case a left rotation of the child, then a right rotation, yields a balanced tree, one level lower than before |
| Avl.RightLeftAvl | avl.go:257-260 | in the right-left case a right rotation of the child, then a left rotation, yields a balanced tree, one level lower than before |
| Avl.InsertRebalance | avl.go:159-181 | after an insertion below, the rebalancing step yields an AVL tree with the same keys and entries; a node still in balance only gets its height refreshed; a rotated node is no taller than its taller child |
| Avl.InsertHeights | avl.go:138-182 | one level of insert makes the subtree at most one level taller, and a subtree that grew leans towards the side the key went to |
| Avl.InsertNode | avl.go:138-182 | as written: a duplicate key is reported iff it is present, and the error leaves a nil tree; otherwise the result is an AVL tree with exactly one more key and entry, at most one level taller |
| Avl.MinNode | avl.go:184-190 | the leftmost node has no left child, holds the first key in order and the first entry |
| Avl.MinValueNode | avl.go:184-190 | the loop walks left to the node `MinNode` names, whose key is the smallest |
| Avl.DeleteRebalance | avl.go:236-262 | after a deletion below, the rebalancing step yields an AVL tree with the same keys and entries, losing at most one level |
| Avl.DeleteHeights | avl.go:192-263 | one level of delete makes the subtree at most one level lower |
| Avl.DeleteNode | avl.go:192-263 | as written: "not found" is reported iff the key is absent, and the error leaves a nil tree; otherwise the result is an AVL tree with exactly one copy of the key fewer, at most one level lower |
| Avl.GetNode | avl.go:265-277 | a node it returns holds the key and an entry of the tree; otherwise the error is "not found" |
| Avl.GetNodeFound | avl.go:265-277 | on a strictly sorted tree the search succeeds iff the key is in the tree |
| Avl.SetValue | avl.go:60-67 | writing the value of the found node keeps the keys, the heights and the balance |
| Avl.SetValueLookup | avl.go:60-67 | after the update, the key maps to the new value if it was present, and every other key maps to what it mapped to before |
| Avl.RangeHelperIsFilter | avl.go:39-58 | the pruned in-order walk appends exactly the keys of the tree that lie in `[lo, hi]`, in order |
| Avl.GetRange | avl.go:39-58 | the result is the range filter of the keys: strictly ascending, holding a key iff it is in the tree and in range, empty when `hi < lo` |
| Avl.InsertOrReject | avl.go:138-182 | evidently intended insert: a duplicate leaves the tree as it was, with the error; otherwise as `InsertNode` |
| Avl.DeleteOrReport | avl.go:192-263 | evidently intended delete: a missing key leaves the tree as it was, with the error; otherwise as `DeleteNode` |
| Avl.DuplicateInsertLosesTree | avl.go:149-156 | inserting the present key "c" into the two-key AVL tree `a(-, c)` yields a nil tree and the error |
| Avl.MissingDeleteLosesTree | avl.go:203-208 | deleting the absent key "b" from the AVL tree `a(-, c)` yields a nil tree and the error |
| Avl.AvlTree.constructor | avl.go:21-23 | a new tree is empty and valid |
| Avl.AvlTree.Insert | avl.go:25-29 | the root takes what `insert` returns as written: the error is reported iff the key is present, and then the tree is left empty; otherwise the tree is the AVL insertion of the key |
| Avl.AvlTree.Get | avl.go:31-37 | found iff the key is present, and then the value is the one stored under the key; "not found" otherwise |
| Avl.AvlTree.GetRange | avl.go:39-58 | the keys in `[lo, hi]`, strictly ascending, exactly those of the tree in range |
| Avl.AvlTree.Update | avl.go:60-67 | "not found" iff the key is absent, and then nothing changes; otherwise the key maps to the new value, every other key is unchanged, and the tree stays AVL |
| Avl.AvlTree.Remove | avl.go:69-73 | the root takes what `deleteNode` returns as written: "not found" iff the key is absent, and then the tree is left empty; otherwise the tree is the AVL deletion of the key |
| RedBlack.Up | rb-tree.go:286-290 | moving to the parent keeps the whole tree and shortens the path by one |
| RedBlack.Down | rb-tree.go:295-297 | moving to a child keeps the whole tree and pushes one frame, in the given direction |
| RedBlack.EntriesPlug | rb-tree.go:16-23 | the key-value pairs of the whole tree are those left of a node pointer's position, then the subtree's, then those to its right |
| RedBlack.EntriesAround | rb-tree.go:16-23 | around a node pointer, the whole tree's pairs split into those to its left, its left subtree's, its own key and value, its right subtree's, and those to its right |
| RedBlack.RotateLeft | rb-tree.go:145-165 | a nil node or one without a right child is left alone; otherwise the right child takes the node's place with its colour, the node becomes its left child, and the subtree's keys and key-value pairs keep their order |
| RedBlack.RotateRight | rb-tree.go:167-187 | the mirror image of the left rotation |
| RedBlack.RotationsKeepOrder | rb-tree.go:145-187 | both rotations keep the in-order keys and key-value pairs of the whole tree, and at the root they move `tree.Root` |
| RedBlack.InsertNode | rb-tree.go:127-143 | the new red leaf hangs on a nil child, the rest of the tree is unchanged, and the keys become `InsertSorted` of the old ones: equal keys go right; the leaf sits at the position `InsertSorted` gives the key |
| RedBlack.InsertStart | rb-tree.go:110-123 | on a non-empty tree, after `insertNodeRB` the new node is red; a black root stays black; below a lone red root the new node's parent is that red root; a red-black tree is in the fix-up invariant |
| RedBlack.InsertEntries | rb-tree.go:127-143 | the new leaf's key and value go in at the position `InsertSorted` gives the key, between the old pairs, which keep their order |
| RedBlack.LeafEntries | rb-tree.go:137-143 | a red leaf hung on a nil child puts its key-value pair into the whole tree's pairs right after those to the left of that child |
| RedBlack.FixStep | rb-tree.go:190-223 | one pass of the fix-up loop is possible iff the node has a grandparent, and then it moves the red node up, keeps the keys, the key-value pairs and a black root, and preserves the fix-up invariant |
| RedBlack.RecolorUp | rb-tree.go:193-197 | with a red uncle, recolouring moves the red node two levels up and keeps keys, values and invariant |
| RedBlack.BlackUncleLeft | rb-tree.go:198-206 | with the parent a left child and a black uncle, the zig-zag rotation and the final rotation end the pass, keeping keys, values and invariant |
| RedBlack.BlackUncleRight | rb-tree.go:214-222 | the mirror image for a right parent |
| RedBlack.FixInsertion | rb-tree.go:189-226 | the loop keeps the keys and the key-value pairs; if it succeeds the root is black; it succeeds under a black root; it fails (nil grandparent) when the parent is a red root; from the fix-up invariant it yields a red-black tree |
| RedBlack.InsertAsWritten | rb-tree.go:110-125 | as written: the first insert leaves a lone red root; a second insert below such a root fails; below a black root it never fails and the root stays black; the keys become `InsertSorted` of the old ones and the pair of key and value goes in at that position, failure or not; a non-empty red-black tree stays red-black |
| RedBlack.SecondInsertPanics | rb-tree.go:119-120 | inserting one key into an empty tree and then another fails at the fix-up |
| RedBlack.InsertRB | rb-tree.go:110-125 | evidently intended insert (root blackened also when it was empty): the root stays black, the keys become `InsertSorted` of the old ones, one more copy of the key, the pair of key and value goes in at that position, and red-black trees stay red-black |
| RedBlack.InsertionCounts | rb-tree.go:110-125 | the inserted sequence stays sorted and gains exactly one copy of the key |
| RedBlack.Search | rb-tree.go:270-279 | a node it finds holds the key and lies in the same tree; on sorted keys it finds one iff the key is present |
| RedBlack.GetNode | rb-tree.go:97-108 | a node it returns holds the key and lies in the same tree; otherwise "key not found" |
| RedBlack.GetNodeIsSearch | rb-tree.go:97-108 | `getNodeRB` and `searchRB` find the same node, which is why `Update` changes the node `Get` reads |
| RedBlack.SearchLeads | rb-tree.go:270-279 | every ancestor on the path `searchRB` walks holds another key, and the step below it is right exactly when that key is smaller |
| RedBlack.SearchFinds | rb-tree.go:270-279 | below such a path, `searchRB` reaches any node holding the key at its end, whatever that node's value and subtrees |
| RedBlack.SearchStep | rb-tree.go:275-278 | at a node holding another key, `searchRB` continues into the child the path records |
| RedBlack.Minimum | rb-tree.go:294-299 | the loop walks down the left spine to the first key of the subtree, in the same tree |
| RedBlack.Successor | rb-tree.go:281-292 | the result is the node at the next in-order position, and there is none iff the node is the last; with a right child it is the minimum of that child |
| RedBlack.SetSibling | rb-tree.go:304-309 | replacing the sibling by a tree with the same keys keeps the node, the path's shape and the whole tree's keys, and its key-value pairs when the new sibling's are the same |
| RedBlack.RedSiblingLeftStep | rb-tree.go:305-310 | the red-sibling case for a left child rotates the parent down one level, keeps the keys, the key-value pairs and a black root, and gives the node a red parent |
| RedBlack.RedSiblingRightStep | rb-tree.go:329-334 | the mirror image for a right child |
| RedBlack.FixDeletionLeft | rb-tree.go:303-326 | one pass for a left child keeps the keys, the key-value pairs and a black root and strictly decreases the loop measure, or fails on a nil sibling or nephew |
| RedBlack.FixDeletionRight | rb-tree.go:327-351 | the mirror image for a right child |
| RedBlack.FarNephewLeft | rb-tree.go:315-325 | the far-nephew case for a left child ends the loop with the keys and key-value pairs kept, or fails on a nil nephew |
| RedBlack.FarNephewRight | rb-tree.go:339-349 | the mirror image for a right child |
| RedBlack.FixDeletion | rb-tree.go:301-356 | the loop keeps the keys, the key-value pairs and a black root; a red node or the root is just blackened; a black node with a nil sibling fails |
| RedBlack.SpliceOut | rb-tree.go:234-264 | removing the node or its successor drops exactly the key, and the key-value pair, at the node's position (the successor's key and value move together), keeps a black root black, and reports the black-child case the fix-up handles |
| RedBlack.SpliceOneEntries | rb-tree.go:234-257 | replacing a node with at most one child by that child takes out exactly its key-value pair |
| RedBlack.SuccessorEntries | rb-tree.go:281-299 | the right subtree's pairs are the successor's pair followed by those left once the successor gives way to its right child |
| RedBlack.SpliceSuccessorEntries | rb-tree.go:234-264 | copying the successor's key and value into the node and splicing the successor out takes out exactly the node's key-value pair |
| RedBlack.DeleteRB | rb-tree.go:228-268 | a missing key leaves the tree unchanged; otherwise the key and its key-value pair at the found position go and every other pair stays in order; sorted keys stay sorted with one copy fewer; on a red-black tree or a lone node no nil is dereferenced; a black root stays black |
| RedBlack.DeleteAt | rb-tree.go:234-267 | after the search, the splice and the fix-up take exactly the found node's key and key-value pair out of the in-order sequences; on a red-black tree or a lone node no nil is dereferenced, and a black root stays black |
| RedBlack.DeletionCounts | rb-tree.go:228-268 | dropping one occurrence keeps the keys sorted and removes one copy of the key |
| RedBlack.RangeHelperIsFilter | rb-tree.go:46-65 | the pruned in-order walk appends exactly the keys in `[lo, hi]`, in order, equal keys included |
| RedBlack.EntryKeys | rb-tree.go:67-74 | the keys of the in-order entries are the in-order keys |
| RedBlack.PlugEntry | rb-tree.go:67-74 | changing one entry of a subtree changes exactly the entry at the same in-order position of the whole tree, shifted by the keys to its left |
| RedBlack.EntryAt | rb-tree.go:38-44 | the node a pointer reaches holds the entry at its in-order position of the whole tree |
| RedBlack.NewValueEntries | rb-tree.go:72 | writing a node's value changes the entry at its in-order position to the node's key with the new value, and no other entry |
| RedBlack.SetValue | rb-tree.go:67-74 | writing the found node's value keeps the keys and colours, changes only the entry at the node's position, and the tree then stores the key with the new value |
| RedBlack.StoresPlug | rb-tree.go:67-74 | a value stored in a subtree is stored in the whole tree the cursor plugs into |
| RedBlack.InsertedFound | rb-tree.go:33-44 | after a fresh key goes in with its value at the `InsertSorted` position, `searchRB` for it reaches a node holding that value |
| RedBlack.RedBlackTree.constructor | rb-tree.go:29-31 | a new tree is empty |
| RedBlack.RedBlackTree.Insert | rb-tree.go:33-36 | over `insertRB` as written: it panics exactly when the root is red, which only the first insert leaves; into an empty tree the key becomes a lone red root; the keys become `InsertSorted` of the old ones, one more copy, and the key-value pair goes in at that position; a fresh key is then found by `searchRB` with the new value; without a panic the tree stays valid, and a non-empty red-black tree stays red-black |
| RedBlack.RedBlackTree.Get | rb-tree.go:38-44 | found iff the key is present, and then the value is the one of the node `searchRB` reaches, the entry at that node's in-order position; "key not found" otherwise |
| RedBlack.RedBlackTree.GetRange | rb-tree.go:46-65 | the keys in `[lo, hi]`, in order, exactly those of the tree in range |
| RedBlack.RedBlackTree.Update | rb-tree.go:67-74 | "key not found" iff the key is absent, then nothing changes; otherwise keys and colours are kept, only the entry at the found node's position becomes the key with the new value, and a later search reaches that node with the new value |
| RedBlack.RedBlackTree.Remove | rb-tree.go:76-79 | one copy of the key leaves the sorted keys, and exactly the pair at the node `searchRB` finds leaves the pairs; a missing key changes nothing; on a red-black tree the removal does not panic, and without a panic the tree stays valid |
| BTrees.NewNode | b-tree.go:22-29 | a new node has no keys, height 0, and a new leaf is a well-formed tree |
| BTrees.SplitChildFacts | b-tree.go:51-67 | splitting a full child moves its middle key up at position `i`, keeps the in-order keys and the height, leaves two one-key children of the old child's height, and keeps the shape of a non-full parent |
| BTrees.InsertNonFull | b-tree.go:69-90 | inserting into a non-full node keeps the shape and height, adds exactly one copy of the key, keeps the keys sorted, and a leaf it reaches takes the value; an internal node keeps its value, and one with no full child keeps its keys and its number of children; a fresh key is then found by `search` at a node holding the value |
| BTrees.LeafReaches | b-tree.go:71-76 | a leaf holding the key is where `search` stops, with the leaf's value |
| BTrees.ChildFresh | b-tree.go:80-89 | a key absent from a node is absent from the child the walk enters |
| BTrees.FreshStep | b-tree.go:80-89 | a fresh key inserted into the child `insertNonFull` enters is found by `search` through the same child, at a node holding the value |
| BTrees.KeysBelow | b-tree.go:100-103 | in a sorted node, the keys before one below the key are below it too |
| BTrees.CountBelowIs | b-tree.go:100-103 | the scan of `search` stops exactly at the first key not below the searched key |
| BTrees.ScanBack | b-tree.go:70-73 | the scan from the last key stops right after the last key that the new key is not below, with every later key above it |
| BTrees.LeafStep | b-tree.go:72-75 | putting the key in at the scanned position keeps a leaf shaped and sorted and adds exactly one copy of the key |
| BTrees.MakeRoom | b-tree.go:78-87 | the child chosen for the key is split if full, and the chosen child then has room and lies between the keys around it; a child with room is taken as it is |
| BTrees.SplitFor | b-tree.go:82-87 | after splitting a full child, the comparison with the new separator picks a child with room on the key's side |
| BTrees.FindPathCorrect | b-tree.go:96-111 | the search finds a node iff the key is in the tree, and the node it finds holds the key |
| BTrees.Search | b-tree.go:96-111 | the recursive search follows exactly the path `FindPath` names |
| BTrees.SetValueKeeps | b-tree.go:288-295 | writing a node's value keeps the keys, the height and the shape |
| BTrees.Joined | b-tree.go:237-241 | the merged child holds the child's keys, the separator and the sibling's keys, at the same height, and is shaped when not over-full |
| BTrees.Merge | b-tree.go:233-245 | merging child `idx` with its right sibling keeps the in-order keys and the height, drops the separator from the node, and yields a shaped node when the two children were small enough |
| BTrees.MergeShape | b-tree.go:243-244 | a node rebuilt with the merged child and one key fewer is shaped |
| BTrees.BorrowFromPrevFacts | b-tree.go:201-215 | borrowing through the left separator keeps the in-order keys and the other separators; when the left sibling can spare a key the node stays shaped and the child gains one key |
| BTrees.BorrowFromNextFacts | b-tree.go:217-231 | the mirror image through the right separator |
| BTrees.Fill | b-tree.go:187-199 | filling a small child keeps the keys, the shape and the height, loses at most one separator, and leaves the child to descend into with at least `m` keys |
| BTrees.FillBounds | b-tree.go:137-145 | the child that `delete` descends into after `fill`, including the `i - 1` case after a merge at the end, is still the one whose range holds the key |
| BTrees.RemoveFromLeaf | b-tree.go:150-153 | removing key `idx` of a leaf drops exactly that key and keeps the rest sorted |
| BTrees.GetPred | b-tree.go:171-177 | the loop returns the last key of child `idx`'s subtree |
| BTrees.GetSucc | b-tree.go:179-185 | the loop returns the first key of child `idx + 1`'s subtree |
| BTrees.Delete | b-tree.go:121-148 | deleting keeps the shape, the height and sorted keys; a present key loses exactly one copy, and a missing key leaves the keys as they were |
| BTrees.RemoveFromNonLeaf | b-tree.go:155-169 | replacing the key by its predecessor or successor, or merging, removes exactly one copy of the key and keeps the shape |
| BTrees.TraverseRangeAsWritten | b-tree.go:261-286 | as written: every shaped tree, the empty one included, makes the walk read a child of a leaf and panic |
| BTrees.TraverseRange | b-tree.go:261-286 | corrected walk: it appends exactly the keys of the subtree in `[lo, hi]`, in order |
| BTrees.CollectRange | b-tree.go:271-285 | the second loop of the walk, started where the skipped keys are out of range, appends exactly the keys in range |
| BTrees.BTree.constructor | b-tree.go:31-35 | a new tree is an empty well-formed leaf without a value |
| BTrees.BTree.Insert | b-tree.go:37-49 | a full root is split under a new root without a value, holding one key and two children, and the tree grows one level exactly then; the tree stays well formed and gains exactly one copy of the key; a fresh key is then found by `search` at a node whose value is the one written; no error |
| BTrees.BTree.Get | b-tree.go:247-253 | found iff the key is present, and then the value is that of the node the search stops at, which holds the key |
| BTrees.BTree.GetRange | b-tree.go:255-259 | with the corrected walk: the keys in `[lo, hi]`, sorted, exactly those of the tree in range |
| BTrees.BTree.Update | b-tree.go:288-295 | "key not found" iff the key is absent, then nothing changes; otherwise the keys are kept, and the new tree is the old one with the value written at the node the search stops at and nowhere else |
| BTrees.BTree.Remove | b-tree.go:113-119 | the tree stays well formed; a present key loses one copy; a missing key leaves the keys as they were, while the nodes on its path may be refilled or merged; a root left without keys gives way to its only child; no error |
| Collections.StringPool.Get | zero.go:30-39 | the result equals the argument, the string is recorded, and a second call with the same string changes nothing |
| Collections.MapCollection.constructor | zero.go:97-101 | a new collection is empty |
| Collections.MapCollection.Insert | zero.go:103-113 | a present key is refused and the map kept; otherwise the key maps to the value; the key is interned |
| Collections.MapCollection.Get | zero.go:115-124 | found iff the key is present, with its value; "not found" otherwise |
| Collections.MapCollection.GetRange | zero.go:126-138 | every key in `[lo, hi]` exactly once, in no particular order |
| Collections.MapCollection.Update | zero.go:140-150 | a missing key is reported and the map kept; otherwise the key maps to the new value |
| Collections.MapCollection.Remove | zero.go:152-161 | a missing key is reported and the map kept; otherwise the key is gone |
| Collections.NewTreeManager | zero.go:54-67 | "avl", "redblack" and "btree" select those backends, anything else the map; each is new and empty |
| Collections.Schema.constructor | zero.go:328-332 | a new schema has no collections |
| Collections.Schema.GetCollection | zero.go:334-340 | found iff the name is present, with its collection; "not found" otherwise |
| Collections.Schema.RemoveCollection | zero.go:358-366 | the name is no longer present, and nothing else changes |
| Collections.Schema.RemoveAllCollections | zero.go:290-292 | removing every collection by name, in any order, leaves the schema empty |
| Collections.Pool.constructor | zero.go:264-268 | a new pool has no schemas |
| Collections.Pool.GetSchema | zero.go:270-276 | found iff the name is present, with its schema; "not found" otherwise |
| Collections.Pool.AddSchema | zero.go:278-286 | an existing schema is never replaced; a new name gets a new empty schema |
| Collections.Pool.RemoveSchema | zero.go:288-299 | the schema is emptied and its name removed; nothing else changes |
| Collections.Pool.AddCollection | zero.go:342-356 | a missing schema and a taken name are reported and change nothing; otherwise the collection is added under the name |
| Collections.PoolManager.constructor | zero.go:183-187 | a new manager has no pools |
| Collections.PoolManager.AddPool | zero.go:199-207 | an existing pool is never replaced; a new name gets a new empty pool |
| Collections.PoolManager.RemovePool | zero.go:209-224 | every schema of the pool is emptied and removed, then the pool's name is removed |
| Collections.PoolManager.GetPool | zero.go:226-232 | found iff the name is present, with its pool; "not found" otherwise |
| Collections.PoolManager.GetRange | zero.go:234-242 | the pools whose names lie in `[lo, hi]`, each once |

## Left out

- File persistence is not modelled: every `SaveToFile` and `LoadFromFile`, and the JSON encoding they use, are I/O.
- `sync.Mutex` and `sync.Once` in the string pool are not modelled; the model is single-threaded.
- Console output is not modelled: the `fmt.Println` messages and the `ShowAll`, `ShowSchemas` and `ShowCollections` printers.
- `TreeManager`'s forwarding methods and the `AVLCollection`, `RedBlackCollection` and `BTreeCollection` wrappers only delegate to the trees, so the model calls the trees directly.
- main.go and first.go (the menu-driven program) are not part of this model.
- The process-wide string pool (`GetStringPoolManager`) is passed to the map backend explicitly, rather than reached through a global.
- Go's `interface{}` values are a type parameter `V`. Nil values in the B-tree are `Option<V>`.
- Go leaves the iteration order of a map open. The map backend's `GetRange` and `PoolManager.GetRange` are specified without an order, and the removal loops pick an arbitrary unvisited name.
- Pointer aliasing and the red-black `Parent` pointers are not modelled as heap objects. A node pointer is a cursor into a value tree, and a write through it rebuilds the path to the root.
- Go's nil dereferences are modelled as an `ok = false` result (`panicked` in `RedBlackTree.Insert` and `RedBlackTree.Remove`). Examples are the fix-up loops reaching a nil grandparent, sibling or nephew, and the B-tree walk indexing a leaf's children. The tree returned is the one before the failing pass of the fix-up: the writes of that pass (the red-sibling recolouring and rotation of a deletion pass, say) are dropped. The panic's unwinding is not modelled.
- RedBlack.DeleteRB: the red-black colour rules after a deletion are not proved. The fix-up starts only when the spliced-out node has a child (rb-tree.go:265), so removing a black leaf skips it. Only the keys, the key-value pairs, a black root, and the absence of nil dereferences on red-black trees are proved.
- RedBlack.RedBlackTree.Remove: states the keys, the key-value pairs and the absence of a panic, not the colour rules, for the same reason.
- Avl.DeleteNode: the entries after a deletion are stated as a sub-multiset of the old entries, together with the exact key multiset. The keys of an AVL tree are strictly sorted, so each key has one entry, and this fixes every remaining entry, the value that moves with the in-order successor (avl.go:224-233) included. No separate per-position statement is made. (The rebalancing step, Avl.DeleteRebalance, keeps the entries exactly.)
- BTrees.BTree.Remove: for a missing key only the keys are promised unchanged, not the values. `delete` still runs `fill` along the key's path (b-tree.go:137-140), and a merge there keeps only the left child's `Value` (b-tree.go:233-245). So a value the search reached before can be replaced by another node's value.
- BTrees.BTree.GetRange: runs the corrected `traverseRange`. As written every call panics (see "Findings"), so an as-written method could promise nothing but the panic.
- BTrees.BTree.Get and BTrees.BTree.Update: the value returned or written is the one value of the node the search stops at, as in the Go type. A B-tree node has one `Value` field for all its keys, so no per-key value is stated.
- BTrees.BTree.Insert: the value is stated only for a fresh key, right after the insert. The value lands in the node's one field (b-tree.go:76), so a later insert into the same leaf overwrites it for every key there, and an insert of a present key may write a node other than the one the search stops at.
- `Schema.RemoveAllCollections` is the `for collectionName := range schema.Collections` loop of `RemoveSchema` and `RemovePool`, factored into one method.
- `BTrees.CollectRange` is the second loop of `traverseRange`, split out. The `fixInsertionRB` loop body is split into `FixStep` and one method per case (`RecolorUp`, `BlackUncleLeft`, `BlackUncleRight`). The loop body of `fixDeletionRB` is split the same way.

## Findings

| source | as written | input that shows it | evidently intended | confidence | as-written member | corrected member |
|---|---|---|---|---|---|---|
| avl.go:145-156 | a duplicate insert below the root returns `nil` with the error, and `AVLTree.Insert` stores that `nil` as the root | insert "c" into the tree with root "a" and right child "c" | report the duplicate and keep the tree | not executed | Avl.DuplicateInsertLosesTree | Avl.InsertOrReject |
| avl.go:199-208 | a delete of a missing key below the root returns `nil` with the error, and `AVLTree.Remove` stores that `nil` as the root | delete "b" from the tree with root "a" and right child "c" | report the missing key and keep the tree | not executed | Avl.MissingDeleteLosesTree | Avl.DeleteOrReport |
| rb-tree.go:119-120 | the first node becomes the root without being coloured black, so the next insert's fix-up reads the nil grandparent of a node whose parent is the red root | insert "a" then "b" into an empty tree | colour the root black | not executed | RedBlack.SecondInsertPanics | RedBlack.InsertRB |
| b-tree.go:272 | `traverseRange` reads `node.Children[i]` also in a leaf, whose children slice is empty, so every `GetRange` panics; after the `break` it would also visit a child twice | any range query, even on an empty tree | descend only into the children of internal nodes, and stop after the key above `hi` | not executed | BTrees.TraverseRangeAsWritten | BTrees.TraverseRange |
