# tmi ordered index and AVL prototype — a verified model

tmi is a header-only multi-index container for C++. A container keeps each record in one node
and threads that node through several indices at once. This project models the ordered index,
`tmi_comparator`. Every node of that index has left, right and parent links, plus a balance
factor, for each ordering the container keeps. The index answers `find`, `lower_bound`,
`upper_bound` and `count` by walking the tree. It also provides:

- in-order iteration with `++` and `--`;
- insertion in two phases: `preinsert_node` finds the slot and a possible unique-key conflict,
  then `insert_node` links the node in;
- the one-shot `insert_node_direct`;
- the `erase_if_modified` check, run after a record's key was changed in place.

The project also models `avl.cpp`, a standalone AVL prototype. Its nodes carry a "heavy" bit:
the bit is set when the node's subtree is two levels shorter than its parent. The prototype
provides `find`, insertion without rebalancing, `insert`, `height` (which follows the heavy
bits down the longest path) and `verify`.

Both trees live in an arena:

- `links: map<NodeId, Link>` holds the left, right and parent link of every node.
- Key, balance-factor, value and heavy maps are kept beside it.
- `NodeId` 0 (`Null`) stands for the null pointer.

A ghost `Tree` value describes the shape the links are meant to encode. `Shape` ties the tree to
the child links and `Parented` ties it to the parent links. Contracts are stated against the
tree's in-order sequence of nodes (`Inorder`) and of keys (`Keys`). The position facts about a
sorted key sequence (first key not less than k, first key greater than k, number of
occurrences) are in `SortedSeq`.

Modules:

- `TreeShape` (tree_shape.dfy): the arena, the ghost tree, in-order positions, and grafting a
  leaf into a tree.
- `SortedSeq` (sorted_seq.dfy): sorted key sequences.
- `Comparator` (comparator.dfy): the class `Ordering`, which models one `tmi_comparator`, and
  its `Iterator`.
- `Rotation` (rotation.dfy): the two rotations, as written and relinked, on link maps.
- `Balance` (balance.dfy): the step of the climb after an insertion.
- `Avl` (avl.dfy): the AVL prototype, with the class `Heap` holding its nodes.

The comparator's key extractor and `key_compare` become one `key: map<NodeId, int>` compared
with `<`. The `sorted_unique()` switch is the `unique` field.

## Model

| member | source | states |
|---|---|---|
| Comparator.Ordering.constructor | tmi_comparator.h:57-60 | a new index is empty: no root, no nodes, valid |
| Comparator.Ordering.Moved | tmi_comparator.h:61-64 | the moved-to index takes over the root and the whole tree, keeps every element, and stays valid; the moved-from index is left with a null root and no elements |
| Comparator.Ordering.Find | tmi_comparator.h:575-591 | returns null exactly when the key is absent; otherwise returns an element carrying that key |
| Comparator.Ordering.LowerBound | tmi_comparator.h:594-612 | returns the element at the first in-order position whose key is not less than k, or end when there is none |
| Comparator.Ordering.UpperBound | tmi_comparator.h:615-633 | returns the element at the first in-order position whose key is greater than k, or end |
| Comparator.Ordering.Count | tmi_comparator.h:636-679 | returns the number of elements whose key equals k, for unique and non-unique orderings alike |
| Comparator.Ordering.CountBefore | tmi_comparator.h:655-666 | the backward walk from a match counts exactly the equal keys before it, down to the first key not less than it |
| Comparator.Ordering.CountAfter | tmi_comparator.h:667-676 | the forward walk from a match counts exactly the equal keys after it, up to the first greater key |
| SortedSeq.OccurrencesRun | tmi_comparator.h:636-679 | in a sorted sequence the equal keys form one run between the two bounds, which is why counting outwards from one match is complete |
| SortedSeq.OccurrencesAtMostOne | tmi_comparator.h:653 | in a unique ordering a key occurs at most once, so stopping after the first match gives the full count |
| Comparator.Ordering.TreeMin | tmi_comparator.h:116-123 | corrected minimum: returns the node at the first in-order position of the given subtree |
| Comparator.Ordering.TreeMax | tmi_comparator.h:134-140 | corrected maximum: returns the node at the last in-order position of the given subtree |
| Comparator.Ordering.TreeMinAsWritten | tmi_comparator.h:116-123 | as written, the loop runs until the node is null, so it always returns null |
| Comparator.Ordering.TreeMaxAsWritten | tmi_comparator.h:134-140 | as written, always returns null |
| Comparator.Ordering.IsLeftChild | tmi_comparator.h:106-109 | corrected test: a node is a left child when it has a parent and that parent's left link is the node; it answers false at the root (RootIsNotALeftChild) |
| Comparator.Ordering.IsLeftChildAsWritten | tmi_comparator.h:106-109 | the test as written, `node == get_left(get_parent(node))`: it can only be evaluated when the parent exists, which fails at the root (RootIsNotALeftChild) |
| Comparator.Ordering.RootIsNotALeftChild | tmi_comparator.h:106-109 | the root's parent is null, so the source's `get_left(get_parent(root))` would read through null; the corrected test answers false there |
| Comparator.Ordering.TreeNext | tmi_comparator.h:150-160 | returns the in-order successor, which is null exactly at the last position |
| Comparator.Ordering.TreePrev | tmi_comparator.h:174-183 | returns the in-order predecessor, which is null exactly at the first position |
| Comparator.Ordering.NextAtLeftChild | tmi_comparator.h:156-159 | when the climb stops at a left child, its parent is the successor |
| Comparator.Ordering.NextClimb | tmi_comparator.h:156-158 | a step up from a right child keeps the successor's position, and the subtree strictly grows |
| Comparator.Ordering.PrevAtRightChild | tmi_comparator.h:179-182 | when the climb stops at a node that is not a left child, its parent is the predecessor (null at the first position) |
| Comparator.Ordering.PrevClimb | tmi_comparator.h:179-181 | a step up from a left child keeps the predecessor's position, and the subtree strictly grows |
| Comparator.Ordering.StepsUndo | tmi_comparator.h:150-194 | successor and predecessor undo each other |
| Comparator.Ordering.PreinsertNode | tmi_comparator.h:388-421 | in a unique ordering, an existing equal key is reported and the hints are left as they were; otherwise the hints name a leaf slot where the new key keeps the order |
| Comparator.Ordering.UniqueSlot | tmi_comparator.h:398-407 | the unique descent finds the equal key when present, and otherwise a fitting free slot |
| Comparator.Ordering.LeafSlot | tmi_comparator.h:409-415 | the non-unique descent always ends at a fitting free slot |
| Comparator.Ordering.InsertKeys | tmi_comparator.h:423-442 | placing the key after every key not greater than it keeps the keys sorted, and strictly sorted in a unique ordering |
| Comparator.Ordering.InsertNode | tmi_comparator.h:423-442 | links the node at the hinted slot, with balance factor 0: the elements gain it at the first position whose key is greater, the keys stay sorted, and the index stays valid (a unique ordering without the key) |
| Comparator.Ordering.InsertNodeDirect | tmi_comparator.h:352-386 | the descent that sends equal keys right ends at a free slot fitting the key; the node is linked there as a leaf with no children, balance factor 0 and the descent's last node as parent, that node's child on the recorded side becomes the node, and no other link changes (an empty index gets the node as a one-node root); the elements gain it at the first position whose key is greater and the keys stay sorted |
| Comparator.Ordering.RotateRight | tmi_comparator.h:196-223 | as written: the links become the right-rotated subtree with w on top, but w still names v as its parent (a cycle) and the grandparent still points to v |
| Comparator.Ordering.RotateLeft | tmi_comparator.h:225-252 | the mirror image of RotateRight |
| Comparator.Ordering.RotateRightFixed | tmi_comparator.h:196-223 | the rotation with the grandparent relinked: the ghost tree is rotated at v, the root moves to w when v was the root, elements and keys are unchanged, and validity is kept |
| Comparator.Ordering.RotateLeftFixed | tmi_comparator.h:225-252 | the mirror image of RotateRightFixed |
| Rotation.RotationsKeepOrder | tmi_comparator.h:198-206 | a right rotation and a left rotation keep the in-order sequence and undo each other, as the diagrams say |
| Rotation.RotateRightKeepsLinks | tmi_comparator.h:211-222 | with the grandparent relinked, rotating any node that has a left child keeps the whole arena consistent (child and parent links) and keeps the in-order sequence |
| Rotation.RotateLeftKeepsLinks | tmi_comparator.h:240-251 | the mirror image for the left rotation |
| Rotation.RotateRightAsWritten | tmi_comparator.h:211-222 | the source's link updates give the rotated child links, but the subtree's parent links are broken: w points to v, and the grandparent still points to v |
| Rotation.RotateLeftAsWritten | tmi_comparator.h:240-251 | the mirror image for the left rotation |
| Rotation.RotateRightTwoNodes | tmi_comparator.h:211-222 | concrete case: rotating a two-node tree leaves no root whose tree is consistently parented |
| Rotation.RotateLeftUndoesRightAsWritten | tmi_comparator.h:199-200 | as written, RL after RR restores every link except v's parent, which now points to w |
| Rotation.RotateLeftUndoesRightRelinked | tmi_comparator.h:199-200 | with the relinking, RL after RR restores the link map exactly |
| Balance.LeftGrowthStepHeights | tmi_comparator.h:288-306 | the step's decision on the bumped balance factor (0 absorbed, 1 grew, 2 unbalanced) agrees with the heights of a balanced parent whose left subtree grew |
| Balance.LeftGrowthStep | tmi_comparator.h:288-306 | the decision at a parent whose left subtree grew: its balance factor goes up by one, and 0 means the growth is absorbed, 1 that it goes on upwards, 2 that the parent is unbalanced; related to heights by LeftGrowthStepHeights |
| Balance.BalanceIterationAsWritten | tmi_comparator.h:285-341 | one pass of the loop as written: the parent's factor is bumped in a local only, `node` is not reassigned, and the pass reports whether the height still grows |
| Balance.ClimbEndsAsWritten | tmi_comparator.h:275-345 | the loop as written run for at most a given number of passes: whether its test `node != root && height_increased` fails within them; BalanceAsWrittenNeverEnds shows when it never does |
| Balance.BalanceAsWrittenStalls | tmi_comparator.h:285-341 | one pass of the climbing loop returns the same node and changes nothing stored; it ends the climb only at a left child whose parent leaned right |
| Balance.BalanceAsWrittenNeverEnds | tmi_comparator.h:275-345 | started at a node below the root that is a right child, or a left child whose parent did not lean right, the loop does not exit within any number of passes |
| Comparator.Ordering.TreeRemove | tmi_comparator.h:254-273 | the removal stub returns a null root |
| Comparator.Ordering.NeighboursOutOfOrder | tmi_comparator.h:449-457 | when only the modified node's key may be out of place, comparing it with its in-order neighbours decides whether the keys are sorted |
| Comparator.Ordering.EraseIfModified | tmi_comparator.h:444-467 | a resort is reported exactly when a neighbour is out of order, that is, exactly when the keys are no longer sorted; without a resort nothing changes; with one, the root becomes the stub's null and the node is reset |
| Comparator.Ordering.Begin | tmi_comparator.h:546-551 | returns the element at position 0, which is end exactly when the index is empty |
| Comparator.Ordering.End | tmi_comparator.h:553-556 | end is the null node, the "element" one past the last position |
| Comparator.Iterator.constructor | tmi_comparator.h:480 | the iterator holds its ordering and node |
| Comparator.Iterator.Increment | tmi_comparator.h:492-501 | moves to the element at the next in-order position, or end after the last |
| Comparator.Iterator.Decrement | tmi_comparator.h:502-515 | moves to the previous element; from end it moves to the last element (end when empty) |
| Comparator.Iterator.PostIncrement | tmi_comparator.h:516-521 | returns the old position and advances |
| Comparator.Iterator.PostDecrement | tmi_comparator.h:522-527 | returns the old position and steps back |
| Avl.Heap.constructor | avl.cpp:38 | an empty heap of nodes; allocation starts at 1 |
| Avl.Heap.NewNode | avl.cpp:38 | a fresh node with the key and value, no links, not heavy |
| Avl.Heap.Find | avl.cpp:42-55 | returns a node carrying the key, or null; in an ordered tree, null means no node carries the key |
| Avl.SearchSound | avl.cpp:42-55 | whatever the descent returns is either null or a tree node with the key |
| Avl.SearchComplete | avl.cpp:42-55 | in an ordered tree the descent finds every key that is present |
| Avl.Heap.Descend | avl.cpp:62-85 | the insertion descent stops at a tree node whose chosen side is free; it goes left exactly when the key is less than that node's |
| Avl.Heap.InsertWithoutRebalancing | avl.cpp:61-87 | corrected (the new node's parent is the node it hangs from): links the new node in that free slot; the grown tree is consistent, has exactly the old nodes plus the new one, places it in order, and stays ordered |
| Avl.Inserted | avl.cpp:61-87 | the value-level statement of the corrected insertion: the linked result is consistent and ordered, and the new node lands at its in-order position |
| Avl.GrownOrdered | avl.cpp:61-87 | hanging a key where the descent ends keeps an ordered tree ordered (equal keys go right) |
| Avl.GrownLocallyOrdered | avl.cpp:61-87 | it also keeps the parent-child order that verify_inner checks |
| Avl.Heap.InsertWithoutRebalancingAsWritten | avl.cpp:61-87 | as written, the new node's parent link points to itself: the child links spell out the grown tree, but the tree is no longer consistently parented; since only child links are read, it needs no parent links before and can be repeated on its own result |
| Avl.SelfParented | avl.cpp:70-71 | a node hung with a self-parent link breaks the parent links of the grown tree |
| Avl.SelfParentBreaks | avl.cpp:71 | any non-root node whose parent link is itself breaks the parent links |
| Avl.Heap.Insert | avl.cpp:89-99 | an empty tree gets a single new root with null links; otherwise the root is kept, the links become exactly those of hanging the new node at the descent's slot (its parent's child link and its own parent link, nothing else), and the tree grows by the inserted node, consistent and ordered |
| Avl.Heap.Remove | avl.cpp:101-103 | the removal stub returns its argument |
| Avl.Heap.Height | avl.cpp:108-131 | returns the length of the path that follows heavy children (-1 for an empty tree); for a verified tree this is the true height |
| Avl.DebugHeightOnlyLeaf | avl.cpp:126-128 | the walked height is 0 exactly for a one-node tree, so with DEBUG on and `height_` left at 0 (avl.cpp:35), the assert at avl.cpp:127 stops `height`, and `verify`, on every larger tree |
| Avl.VerifyInnerAsWritten | avl.cpp:146-175 | verify_inner's own checks, with the DEBUG assert at avl.cpp:154 set aside: a null root fails; a node needs the expected parent and a height of at least 0, a leaf height 0; at most one child is heavy, each child is in order with the node, and each child is checked with the height lowered by 2 across a heavy edge and 1 otherwise; AsWrittenLinks and AsWrittenHeight state what it establishes |
| Avl.VerifyAsWritten | avl.cpp:177-180 | verify as written, with the DEBUG asserts set aside: a root that is not heavy, and verify_inner from no parent at the height `height` walks |
| Avl.VerifyInner | avl.cpp:133-175 | the corrected verify_inner: a null root is fine exactly when no parent and height -1 are expected, order covers whole subtrees (left <= root <= right), and a node with one child has height 1; VerifiedOrdered, VerifiedHeights and TreeVerifies characterise it |
| Avl.Verify | avl.cpp:177-180 | verify with the corrected verify_inner; VerifyMeans states exactly which trees it accepts |
| Avl.OrderedIsLocal | avl.cpp:167-173 | an ordered tree passes the parent-child order checks |
| Avl.VerifiedStricter | avl.cpp:146-175 | the corrected verify_inner accepts only trees that the written one accepts too |
| Avl.VerifiedOrdered | avl.cpp:134-135 | a tree that passes the corrected check is ordered: every left key is at most, and every right key at least, its ancestor's |
| Avl.VerifiedHeights | avl.cpp:136-140 | a tree that passes the corrected check is balanced, has the expected height, and its heavy marks are exactly the children two levels shorter |
| Avl.TreeVerifies | avl.cpp:146-175 | an ordered, balanced, correctly marked and parented tree passes the corrected check at its true height |
| Avl.AsWrittenLinks | avl.cpp:146-175 | whatever the written check accepts is a non-empty tree with correct parent links and parent-child order |
| Avl.AsWrittenHeight | avl.cpp:146-175 | the height the written check accepts is the heavy-path height |
| Avl.VerifyMeans | avl.cpp:177-180 | the corrected verify holds exactly when the tree is ordered, balanced, correctly marked and parented, with a non-heavy root; its height is then the height walk's result |
| Avl.EmptyTreeRejected | avl.cpp:147-152 | as written, an empty tree fails (the check falls through to `expected_height >= 0`), while the corrected one accepts it |
| Avl.ChainAccepted | avl.cpp:160-174 | verify_inner's own order, balance and parent checks accept the chain 1→2→3 of non-heavy right children, although it is not balanced (the DEBUG `height_` asserts at avl.cpp:127 and 154 set aside) |
| Avl.MisorderedAccepted | avl.cpp:167-173 | verify_inner's own order, balance and parent checks accept a tree whose key 6 sits in the left subtree of 5 (the DEBUG `height_` asserts at avl.cpp:127 and 154 set aside) |
| Avl.MisorderedMissed | avl.cpp:42-55 | in that tree find(6) returns null although 6 is present, and the tree is not ordered |

## Left out

- Container plumbing is not part of this model: the multi-index parent's emplace, insert, erase and modify, node handles, allocators, `iterator_to`, `do_clear`, and the const overloads, which repeat the non-const ones.
- Removal is left out: `tree_remove` is a stub returning null, and the model keeps that stub (Comparator.Ordering.TreeRemove), so `remove_node` is left out too. The AVL `remove` is also a stub.
- The rebalancing body of `tree_balance_after_insert` is left out. Its rotation cases are only comments in the source. The model has the loop's decision step (Balance) and the as-written pass, which makes no progress. `InsertNode` and `InsertNodeDirect` link the leaf and leave the root unchanged, as if the climb had done nothing.
- `premodify_cache` carries no data, so it is not modelled.
- The DEBUG `height_` field and its asserts (avl.cpp:127, 154) are left out of `height` and `verify`: the field is never updated after a node is made, so with DEBUG on every tree of more than one node stops at avl.cpp:127 (Avl.DebugHeightOnlyLeaf). `show`, `main` and the random test driver are not modelled either.
- Avl.ChainAccepted: it is about verify_inner's own checks. Compiled with DEBUG (avl.cpp:18), the program stops at avl.cpp:127 on this height-2 tree before those checks run.
- Avl.MisorderedAccepted: it is about verify_inner's own checks. Compiled with DEBUG (avl.cpp:18), the program stops at avl.cpp:127 on this height-2 tree before those checks run.
- Memory allocation (`new AVLnode`) is modelled as a counter that hands out fresh ids.
- The comparator's key type and `key_compare` are modelled as `int` with `<`, and the key extractor as a map from node to key. AVL values are strings that are stored but never read.
- Comparator.Ordering.Find: the body returns the first match on the descent, as the source does; the contract says only that some node with the key is returned, not which one.
- Avl.Heap.Insert: it uses the corrected insert_without_rebalancing. The as-written call is modelled separately as Avl.Heap.InsertWithoutRebalancingAsWritten.
- Avl.Heap.Height: it states the heavy-path length. That this is the true height is shown only for trees the corrected verify accepts (Avl.VerifyMeans), as the source comment promises.

## Findings

| source | as written | input that shows it | evidently intended | confidence | as-written member | corrected member |
|---|---|---|---|---|---|---|
| tmi_comparator.h:116-140 | `tree_min`/`tree_max` loop `do node = left(node) while (node)`, so the result is always null | any non-empty tree | stop at the node with no left (right) child | high, not executed; the callers (Begin, TreeNext and TreePrev, and through them Count, EraseIfModified and the Iterator) are modelled over the corrected TreeMin, TreeMax and IsLeftChild; as written, begin() is always end and tree_next from a node with a right child returns null | Comparator.Ordering.TreeMinAsWritten | Comparator.Ordering.TreeMin |
| tmi_comparator.h:106-109 | `tree_is_left_child(root)` reads `get_left` of a null parent | tree_next on the last element climbs to the root | answer false at the root | high, not executed | Comparator.Ordering.IsLeftChildAsWritten | Comparator.Ordering.IsLeftChild |
| tmi_comparator.h:196-252 | the rotations never set w's parent to v's old parent, nor the grandparent's child link to w | right-rotate the root of the two-node tree 1→left 2 | relink w to v's old parent and that parent to w | medium (the caller may be meant to relink), not executed | Rotation.RotateRightAsWritten | Rotation.RotateRightKeepsLinks |
| tmi_comparator.h:275-345 | the climb never updates `node` or the stored balance factor | insert 2 into an ordering holding only 1: the new leaf is a right child and the loop never ends | update the balance factor, move to the parent, rotate at +2 | high, not executed | Balance.BalanceAsWrittenNeverEnds | Balance.LeftGrowthStepHeights |
| avl.cpp:71,81 | `cur->left_->parent_ = cur->left_` makes the new node its own parent | insert 2 then 1 | the new node's parent is `cur` | high, not executed | Avl.Heap.InsertWithoutRebalancingAsWritten | Avl.Heap.InsertWithoutRebalancing |
| avl.cpp:147-152 | the null-root branch falls through to `assert(expected_height >= 0)` and dereferences null | verify of an empty tree | return after the null-root asserts | high, not executed | Avl.EmptyTreeRejected | Avl.VerifyMeans |
| avl.cpp:160-166 | a node with one child is not checked for balance; only two heavy children are refused | right chain 1→2→3, none heavy, passes verify_inner's checks; with DEBUG on, avl.cpp:127 stops the program first | a lone child must be a leaf (height 1) | medium (masked while DEBUG is on), not executed | Avl.ChainAccepted | Avl.VerifyMeans |
| avl.cpp:167-173 | order is checked only between parent and child | root 5, left child 3 with right child 6, passes verify_inner's checks; with DEBUG on, avl.cpp:127 stops the program first | every key in the left subtree is at most the root's (the header comment's "left <= root <= right") | medium (masked while DEBUG is on), not executed | Avl.MisorderedAccepted | Avl.VerifyMeans |
