# Ordered sets over balanced search trees

This project models the two ordered-set classes of the repository in Dafny:

- `RedBlackTree` (src/ru/mail/polis/RedBlackTree.java) is a left-leaning red-black tree in Sedgewick's style.
- `AVLTree` (src/ru/mail/polis/AVLTree.java) is a search tree whose nodes store a height.

Each class keeps a `root`, a running `size` counter and a flag. The flag is `contAdd` in the red-black tree and `contRemove` in the AVL tree. The public operations are `add`, `remove`, `contains`, `first`, `last`, `inorderTraverse`, `size`, `isEmpty` and `deleteMin`, plus `min` in the red-black tree.

Keys are `int` with their natural order. The abstract value of a set is the in-order key sequence of its tree, which must be strictly ascending (`SortedSeqs.Ascending`). Insertion and removal are specified against two sequence functions:

- `SortedSeqs.InsertSorted` puts a key at its place in the sequence.
- `SortedSeqs.Without` filters a key out of the sequence.

Files:

- `sorted_seqs.dfy`: ascending sequences and the lemmas joining them at a node (`SortedSeqs`); the error and result values of the public operations (`Outcomes`).
- `red_black_nodes.dfy`: module `RedBlack`, the nodes of the red-black tree.
  - Every node helper of the source becomes a function from a subtree value to its replacement: rotations, `flipColors`, the insert fix-up, `balance`, `moveRedLeft`/`moveRedRight`, `min`, recursive `add`, `deleteMin` and `delete`.
  - The left-leaning invariants `LeftLeaning`, `BlackBalanced` and `IsLLRB`.
  - The shapes a deletion may enter: `Borrowed` and `BorrowedRight`.
  - The shape a deletion hands back: `Repaired`.
- `red_black_tree.dfy`: module `RedBlackSet`, the class `RedBlackTree` with its fields and public operations.
  - `contains`, `first` and `last` are `while` loops.
  - The mutators are `modifies this` methods.
- `avl_nodes.dfy`: module `Avl`, the AVL nodes.
  - The stored height is a field that can go stale.
  - The height helpers, rotations, `balance`, `min`, `deleteMin` and `delete`.
  - `InsertLeaf`, which is what `add` does to the tree.
  - The AVL invariant `Balanced`.
- `avl_tree.dfy`: module `AvlSet`, the class `AVLTree`.
  - `add` is the source's descending `while` loop.
  - The loop's pointer `curr` is modelled as a path of frames from the root (`Frame`, `Plug`).

Three behaviours of the code are worth knowing before reading the model:

- AVL `add` never refreshes a height and never rebalances, although `delete` and `deleteMin` do (src/ru/mail/polis/AVLTree.java:260-261 and 280-281). The results of the `balanceFactor` calls at lines 199 and 207 are discarded.
- AVL `remove` of an absent key still refreshes the heights on its search path, and may rotate those nodes. The model states that the keys and `size` are unchanged; the root may be restructured.
- Public `deleteMin` in both classes does not decrement `size`, unlike `remove`.

## Model

| member | source | states |
|---|---|---|
| RedBlack.IsRed | src/ru/mail/polis/RedBlackTree.java:27-30 | an absent child is never red |
| RedBlack.RotateRight | src/ru/mail/polis/RedBlackTree.java:116-123 | the in-order sequence is unchanged; the promoted left child takes `h`'s colour; `h` becomes its red right child and keeps its right subtree |
| RedBlack.RotateLeft | src/ru/mail/polis/RedBlackTree.java:126-133 | the mirror of `RotateRight`: in-order sequence unchanged, promoted child takes `h`'s colour, `h` becomes red |
| RedBlack.FlipColors | src/ru/mail/polis/RedBlackTree.java:136-140 | negates the colours of `h` and both children; all keys and all grandchild links are unchanged, and so is the in-order sequence |
| RedBlack.FixUp | src/ru/mail/polis/RedBlackTree.java:176-184 | the three fix-up steps of insertion leave the in-order sequence unchanged |
| RedBlack.FixUpIdle | src/ru/mail/polis/RedBlackTree.java:176-184 | on a node that is already left-leaning the fix-up changes nothing |
| RedBlack.Balance | src/ru/mail/polis/RedBlackTree.java:285-297 | `balance` leaves the in-order sequence unchanged |
| RedBlack.BalanceRestores | src/ru/mail/polis/RedBlackTree.java:285-297 | on a black-balanced node with left-leaning children and no red child under a red node, `balance` returns a left-leaning, black-balanced tree of the same black height; it is red only if the node was, or if both children were |
| RedBlack.MoveRedLeft | src/ru/mail/polis/RedBlackTree.java:189-199 | `moveRedLeft` leaves the in-order sequence unchanged |
| RedBlack.MoveRedRight | src/ru/mail/polis/RedBlackTree.java:201-210 | `moveRedRight` leaves the in-order sequence unchanged |
| RedBlack.MinNode | src/ru/mail/polis/RedBlackTree.java:305-312 | `min` returns a node without a left child whose key is the first of the in-order sequence |
| RedBlack.AddTo | src/ru/mail/polis/RedBlackTree.java:159-187 | the result holds the key; it has exactly one key more when the returned flag says the key was new, and as many keys otherwise (which keys, and the shape, are stated by `AddToInorder` and `AddToShape`) |
| RedBlack.AddToInorder | src/ru/mail/polis/RedBlackTree.java:159-187 | on an ordered tree, recursive `add` inserts the key at its place in the in-order sequence; it reports the key as new exactly when the key was absent |
| RedBlack.AddToFound | src/ru/mail/polis/RedBlackTree.java:172-186 | on a left-leaning tree, recursive `add` of a key already present returns the tree unchanged |
| RedBlack.AddToShape | src/ru/mail/polis/RedBlackTree.java:156-187 | on a left-leaning, black-balanced tree, recursive `add` returns a black-balanced tree of the same black height with no red right link and left-leaning children; the result is left-leaning when the input root was black |
| RedBlack.FixUpAfterLeft | src/ru/mail/polis/RedBlackTree.java:167-184 | after the insertion below has replaced the left subtree with the shape `AddToShape` states, the fix-up gives that shape back for the node |
| RedBlack.FixUpAfterRight | src/ru/mail/polis/RedBlackTree.java:170-184 | the same for a replaced right subtree |
| RedBlack.LeftDescent | src/ru/mail/polis/RedBlackTree.java:234-237 | after `moveRedLeft` (when due), the left child is a node the deletion may enter; black height is kept; a black node stays black |
| RedBlack.Recolored | src/ru/mail/polis/RedBlackTree.java:136-140 | repainting a node keeps its black balance and, unless it creates a red-red pair, its left-leaning shape |
| RedBlack.RightRotateStep | src/ru/mail/polis/RedBlackTree.java:240-244 | after rotating a red left link to the right, the node is red with black children, or black with a red right link; a node left without a right child is a red leaf |
| RedBlack.RightDescent | src/ru/mail/polis/RedBlackTree.java:245-246 | after `moveRedRight` (when due), the right child is a node the deletion may enter; black height is kept |
| RedBlack.MoveRedRightShape | src/ru/mail/polis/RedBlackTree.java:201-210 | `moveRedRight` on a red node with two black 2-node children gives a black-balanced node of the same black height whose right child the deletion may enter |
| RedBlack.MinIsLeaf | src/ru/mail/polis/RedBlackTree.java:271-273 | a node `deleteMin` may enter that has no left child is a red leaf, so returning nothing drops exactly its one key and keeps the black height |
| RedBlack.MinRebuilt | src/ru/mail/polis/RedBlackTree.java:279-280 | deleting the least key on the left and then `balance` removes exactly the first key and repairs the tree |
| RedBlack.DeleteMinFrom | src/ru/mail/polis/RedBlackTree.java:270-281 | recursive `deleteMin` removes exactly the first key of the in-order sequence; it returns a left-leaning, black-balanced tree of the same black height, not red if the input was not |
| RedBlack.DeleteFrom | src/ru/mail/polis/RedBlackTree.java:230-255 | recursive `delete` of a present key removes exactly that key from the in-order sequence; it returns a left-leaning, black-balanced tree of the same black height, not red if the input was not |
| RedBlack.DescendLeft | src/ru/mail/polis/RedBlackTree.java:234-237 | a key below the node's lies in the (new) left subtree, which is ordered and smaller |
| RedBlack.LeftRebuilt | src/ru/mail/polis/RedBlackTree.java:237-254 | deleting on the left and then `balance` removes exactly the key and repairs the tree |
| RedBlack.DroppedLeaf | src/ru/mail/polis/RedBlackTree.java:242-244 | dropping a matching node without children removes exactly its key and keeps the black height |
| RedBlack.DescendRightReady | src/ru/mail/polis/RedBlackTree.java:240-245 | on the right-hand branch, unless the node is dropped, the node's key is not above the key and a right child exists |
| RedBlack.DescendRight | src/ru/mail/polis/RedBlackTree.java:245-252 | after `moveRedRight` the key is at the node or in the right subtree, which is ordered and smaller |
| RedBlack.RightRebuilt | src/ru/mail/polis/RedBlackTree.java:252-254 | deleting on the right and then `balance` removes exactly the key and repairs the tree |
| RedBlack.SuccessorRebuilt | src/ru/mail/polis/RedBlackTree.java:247-254 | overwriting the key with its successor's, deleting the successor below and then `balance` removes exactly the key and repairs the tree |
| RedBlack.SuccessorListing | src/ru/mail/polis/RedBlackTree.java:248-250 | a node whose key is overwritten by its successor's, with the successor dropped from the right subtree, lists all the node's keys except its own |
| RedBlackSet.DeleteMinAtRoot | src/ru/mail/polis/RedBlackTree.java:257-268 | on a valid tree, the root handling of public `deleteMin` gives a valid tree listing all keys but the first |
| RedBlackSet.DeleteMinMiscounts | src/ru/mail/polis/RedBlackTree.java:257-268 | a count that was right before public `deleteMin` is wrong after it |
| RedBlackSet.RedBlackTree.constructor | src/ru/mail/polis/RedBlackTree.java:35-37 | the new set is empty and valid, with `size` 0 |
| RedBlackSet.RedBlackTree.First | src/ru/mail/polis/RedBlackTree.java:45-54 | an error on an empty tree; otherwise a key of the set no greater than any other |
| RedBlackSet.RedBlackTree.Last | src/ru/mail/polis/RedBlackTree.java:57-66 | an error on an empty tree; otherwise a key of the set no smaller than any other |
| RedBlackSet.RedBlackTree.Min | src/ru/mail/polis/RedBlackTree.java:299-302 | an error on an empty tree; otherwise the least key of the set |
| RedBlackSet.RedBlackTree.InorderTraverse | src/ru/mail/polis/RedBlackTree.java:69-73 | returns exactly the keys of the set, strictly ascending |
| RedBlackSet.TraverseInto | src/ru/mail/polis/RedBlackTree.java:74-81 | appends the in-order keys of the subtree to the list |
| RedBlackSet.RedBlackTree.Size | src/ru/mail/polis/RedBlackTree.java:84-86 | returns the counter, which is the number of keys whenever the counter is right |
| RedBlackSet.RedBlackTree.IsEmpty | src/ru/mail/polis/RedBlackTree.java:89-91 | true exactly when the set has no keys |
| RedBlackSet.RedBlackTree.Contains | src/ru/mail/polis/RedBlackTree.java:95-113 | true exactly when the key is in the set |
| RedBlackSet.RedBlackTree.Add | src/ru/mail/polis/RedBlackTree.java:145-154 | the tree stays a valid left-leaning red-black tree with a black root; the key is inserted at its place in the sequence; the result and `contAdd` are true exactly when the key was absent, and then `size` grows by one; otherwise the tree and `size` are unchanged |
| RedBlackSet.RedBlackTree.Remove | src/ru/mail/polis/RedBlackTree.java:215-228 | the tree stays valid; exactly that key leaves the sequence; the result is true exactly when the key was present, and then `size` drops by one; otherwise the tree and `size` are unchanged |
| RedBlackSet.RedBlackTree.DeleteMin | src/ru/mail/polis/RedBlackTree.java:257-268 | an error on an empty tree with nothing changed; otherwise the least key is removed and the tree stays valid; `size` is not changed |
| RedBlackSet.RedBlackTree.DeleteMinCounted | src/ru/mail/polis/RedBlackTree.java:257-268 | as `DeleteMin`, but `size` drops by one, so a right count stays right |
| Avl.Height | src/ru/mail/polis/AVLTree.java:125-128 | an absent child has height -1; a node's height is at least 0 |
| Avl.FixHeight | src/ru/mail/polis/AVLTree.java:137-142 | the height becomes one more than the taller child's (-1 for an absent child); key and links unchanged |
| Avl.BalanceFactor | src/ru/mail/polis/AVLTree.java:132-134 | in a balanced tree the factor is -1, 0 or 1 |
| Avl.BalancedHeightIsReal | src/ru/mail/polis/AVLTree.java:124-142 | in a balanced tree every stored height is the length of the longest downward path |
| Avl.RotateRight | src/ru/mail/polis/AVLTree.java:145-152 | the in-order sequence is unchanged; the demoted node's height is computed from its new children, then the promoted node's height from that |
| Avl.RotateLeft | src/ru/mail/polis/AVLTree.java:155-162 | the mirror of `RotateRight` |
| Avl.Balance | src/ru/mail/polis/AVLTree.java:165-180 | the in-order sequence is unchanged; unless the refreshed balance factor is exactly 2 or -2, the result is the node with its height refreshed and nothing rotated |
| Avl.BalanceRestores | src/ru/mail/polis/AVLTree.java:165-180 | on a node with balanced children whose heights differ by at most two, `balance` gives a balanced tree whose height is within one above its taller child's, and exactly one above when no rotation was due |
| Avl.RightHeavyRestored | src/ru/mail/polis/AVLTree.java:167-172 | at balance factor 2, `balance` rotates the right child right first exactly when that child leans left, then rotates the node left; the result is balanced, no lower than the right child and at most one higher |
| Avl.LeftHeavyRestored | src/ru/mail/polis/AVLTree.java:173-178 | at balance factor -2, the mirror case: the left child is rotated left first exactly when it leans right, then the node is rotated right |
| Avl.SingleLeftBalanced | src/ru/mail/polis/AVLTree.java:167-171 | a node two taller on the right whose right child does not lean left is balanced by one left rotation, no lower than that child and at most one higher |
| Avl.DoubleLeftBalanced | src/ru/mail/polis/AVLTree.java:167-171 | a node two taller on the right whose right child leans left is balanced by rotating the child right and the node left, no lower than that child and at most one higher |
| Avl.SingleRightBalanced | src/ru/mail/polis/AVLTree.java:173-177 | the mirror of `SingleLeftBalanced` |
| Avl.DoubleRightBalanced | src/ru/mail/polis/AVLTree.java:173-177 | the mirror of `DoubleLeftBalanced` |
| Avl.MinNode | src/ru/mail/polis/AVLTree.java:265-268 | `min` returns a node without a left child whose key is the first of the in-order sequence |
| Avl.DeleteMinFrom | src/ru/mail/polis/AVLTree.java:277-282 | recursive `deleteMin` removes exactly the first key of the in-order sequence |
| Avl.DeleteMinKeepsBalance | src/ru/mail/polis/AVLTree.java:277-282 | recursive `deleteMin` keeps a balanced tree balanced and lowers it by at most one |
| Avl.DeleteFrom | src/ru/mail/polis/AVLTree.java:234-262 | the flag is set only when the key occurs in the tree, and then exactly one key is gone; without the flag the in-order keys are unchanged, even where the search path was rotated (the exact effect on an ordered tree is `DeleteFromInorder`) |
| Avl.DeleteFromInorder | src/ru/mail/polis/AVLTree.java:234-262 | on an ordered tree, recursive `delete` sets its flag exactly when the key is present, and removes exactly that key from the in-order sequence |
| Avl.DeleteHereInorder | src/ru/mail/polis/AVLTree.java:245-261 | deleting the key at the node, when it occurs in neither subtree, removes exactly that key from the in-order sequence |
| Avl.SuccessorSplice | src/ru/mail/polis/AVLTree.java:253-261 | the successor taking the node's place, with the successor dropped from the right subtree, lists the keys of both children in order |
| Avl.DeleteKeepsBalance | src/ru/mail/polis/AVLTree.java:233-262 | recursive `delete` keeps a balanced tree balanced and lowers it by at most one |
| Avl.SuccessorKeepsBalance | src/ru/mail/polis/AVLTree.java:253-261 | the successor splice of two balanced children of nearly equal height is balanced and at most one lower than their parent |
| Avl.InsertLeaf | src/ru/mail/polis/AVLTree.java:188-212 | the result holds the key; the root keeps its key and its stored height, which is never refreshed |
| Avl.InsertLeafInorder | src/ru/mail/polis/AVLTree.java:188-212 | on an ordered tree, `add` inserts the key at its place in the in-order sequence, and leaves the tree as it was exactly when the key is already there |
| Avl.AddLeavesTreeUnbalanced | src/ru/mail/polis/AVLTree.java:184-217 | adding 1, 2 and 3 to an empty tree leaves a chain of height 2 whose root still stores height 0, which is not a balanced tree |
| Avl.InsertBalanced | src/ru/mail/polis/AVLTree.java:184-217 | the corrected insertion: the result holds the key and has at most one key more (placement in `InsertBalancedInorder`, balance in `InsertBalancedKeepsBalance`) |
| Avl.InsertBalancedKeepsBalance | src/ru/mail/polis/AVLTree.java:184-217 | insertion that refreshes and rebalances each node on the way back keeps a balanced tree balanced and raises it by at most one |
| Avl.InsertBalancedInorder | src/ru/mail/polis/AVLTree.java:184-217 | that insertion puts the key at its place in the in-order sequence |
| AvlSet.PlugInsert | src/ru/mail/polis/AVLTree.java:192-212 | inserting from the root equals inserting at the node the search has reached, below the path it took |
| AvlSet.DeleteMinMiscounts | src/ru/mail/polis/AVLTree.java:271-274 | a count that was right before public `deleteMin` is wrong after it |
| AvlSet.AVLTree.constructor | src/ru/mail/polis/AVLTree.java:40-43 | the new set is empty and ordered, with `size` 0 |
| AvlSet.AVLTree.First | src/ru/mail/polis/AVLTree.java:50-59 | an error on an empty tree; otherwise a key of the set no greater than any other |
| AvlSet.AVLTree.Last | src/ru/mail/polis/AVLTree.java:62-71 | an error on an empty tree; otherwise a key of the set no smaller than any other |
| AvlSet.AVLTree.InorderTraverse | src/ru/mail/polis/AVLTree.java:74-78 | returns exactly the keys of the set, strictly ascending |
| AvlSet.TraverseInto | src/ru/mail/polis/AVLTree.java:81-88 | appends the in-order keys of the subtree to the list |
| AvlSet.AVLTree.Size | src/ru/mail/polis/AVLTree.java:92-94 | returns the counter, which is the number of keys whenever the counter is right |
| AvlSet.AVLTree.IsEmpty | src/ru/mail/polis/AVLTree.java:98-100 | true exactly when the set has no keys |
| AvlSet.AVLTree.Contains | src/ru/mail/polis/AVLTree.java:104-122 | true exactly when the key is in the set |
| AvlSet.AVLTree.Add | src/ru/mail/polis/AVLTree.java:184-217 | the new tree is the old one with a height-0 leaf hung at the search's end, and stays ordered; the key is inserted at its place in the sequence; the result is true exactly when the key was absent, and then `size` grows by one; otherwise the tree and `size` are unchanged |
| AvlSet.AVLTree.Remove | src/ru/mail/polis/AVLTree.java:222-231 | the new tree is what recursive `delete` returns and stays ordered; exactly that key leaves the sequence; the result and `contRemove` are true exactly when the key was present, and then `size` drops by one; a balanced tree stays balanced |
| AvlSet.AVLTree.DeleteMin | src/ru/mail/polis/AVLTree.java:271-274 | an error on an empty tree with nothing changed; otherwise the least key is removed, order and balance are kept; `size` is not changed |
| AvlSet.AVLTree.DeleteMinCounted | src/ru/mail/polis/AVLTree.java:271-274 | as `DeleteMin`, but `size` drops by one, so a right count stays right |

## Left out

- The `Comparator` constructors and `compare` are left out; keys are `int` with the natural order. Java `Comparator` objects cannot be modelled here, and with one total order the source's mixed use of `compare` and `compareTo` coincides.
- Null-argument checks and the distinct Java exception classes are left out. Dafny values are never null; the empty-collection exception becomes the value `Err(NoSuchElement)` or `Fail(NoSuchElement)`.
- Node identity and in-place relinking are not modelled. Nodes are immutable values, and each helper returns the replacement subtree. Every subtree has exactly one parent in the source, so no aliasing is lost. AVL `delete` reuses its successor node only after unlinking it, so this holds there too.
- The 32-bit `int` range of `size` is not modelled, because `size` can only reach it after 2^31 insertions.
- `toString`, the commented-out `main` methods, the `ArrayList` capacity hint and the unused `size` parameter of the red-black `Node` constructor are left out. None of them affects the sets.
- The O(log n) height bound is left out. AVL `add` does not maintain it, and the source only checks it statistically.
- The null guard of red-black `delete` (line 231) is not modelled. Under the model's preconditions the key is present, so that line cannot be reached.
- RedBlack.DeleteFrom: only defined for a present key and a subtree in one of the states the deletion can reach (`Borrowed`, `BorrowedRight`). On other inputs the source either dereferences a null child (an absent key, at line 235 or 245) or returns a tree that breaks the left-leaning invariants. Neither kind of input is reachable from `remove`.
- RedBlack.DeleteMinFrom: only defined for a subtree in the `Borrowed` state. On other inputs the source may return a tree that breaks the left-leaning invariants (a black node over two black leaves comes back as a red node over a red left child). Such an input is not reachable from `deleteMin`.
- AvlSet.AVLTree.Valid: requires search-tree order only, not the AVL balance. The source's `add` breaks the balance, so the AVL operations state balance only as "kept if it held before".
- The `ISortedSet` interface the classes implement is not part of this model.

## Findings

| source | as written | input that shows it | evidently intended | confidence | as-written member | corrected member |
|---|---|---|---|---|---|---|
| src/ru/mail/polis/RedBlackTree.java:257-268 | public `deleteMin` removes a key but never decrements `size` | `add(1)`, then `deleteMin()`: `size()` returns 1 for an empty set | `size` drops by one, as in `remove` | high, not executed | RedBlackSet.RedBlackTree.DeleteMin, RedBlackSet.DeleteMinMiscounts | RedBlackSet.RedBlackTree.DeleteMinCounted |
| src/ru/mail/polis/AVLTree.java:271-274 | public `deleteMin` removes a key but never decrements `size` | `add(1)`, then `deleteMin()`: `size()` returns 1 for an empty set | `size` drops by one, as in `remove` | high, not executed | AvlSet.AVLTree.DeleteMin, AvlSet.DeleteMinMiscounts | AvlSet.AVLTree.DeleteMinCounted |
| src/ru/mail/polis/AVLTree.java:184-217 | `add` hangs a leaf without refreshing any height or rebalancing; the `balanceFactor` results at lines 199 and 207 are discarded | `add(1)`, `add(2)`, `add(3)`: a chain of height 2 whose root stores height 0 | each node on the path refreshed and rebalanced, as `delete` does | medium, not executed | Avl.InsertLeaf, Avl.AddLeavesTreeUnbalanced | Avl.InsertBalanced, Avl.InsertBalancedKeepsBalance |
