# C red-black tree, modelled in Dafny

This project models `rbt_tree`, the intrusive, comparator-ordered red-black
tree of `src/rb_tree.c`, and the iterator and result records of
`include/rb_tree.h`. The model proves what the tree does to the in-order
sequence of its values and to its size. It also proves that the sentinel's
three cached links stay correct.

**Arena.** The C tree is a graph of `node_t` records linked by pointers,
plus one sentinel embedded in the tree object.

- The model keeps the nodes in an arena: `Tree.nodes: seq<Node>`. Slot 0 is the sentinel (`tree->root`), and a link is an index.
- An allocation appends a slot. A freed node stays in the arena, unreachable.
- Every mutator rewrites `left`, `right`, `parent` and the colour word field by field, in the order the C code does. The exception is the removal path: `extract_node` and every operation that calls it use corrected writes at `src/rb_tree.c:418-419` and `src/rb_tree.c:436` (see "## Findings").
- The mutators are `class Tree` methods with `modifies this`.

**Meaning.** Two ghost fields give the arena its meaning.

- `order` lists the live nodes in order.
- `spans[n]` is the interval `order[lo..hi)` that the subtree rooted at `n` covers, and `pos` is `n`'s own index in it.

**Invariant.** `RbShape.Wf` says:

- every live node's children cover the two halves of its interval, and each child's `parent` link points back;
- the sentinel is marked nil (bit 1 of the colour word), holds no value, and caches the root (`parent`), the minimum (`left`) and the maximum (`right`);
- the values, read in order (`Contents()`), are sorted by key.

A rotation changes two intervals. An insertion or removal shifts intervals by a fixed rule.

**Contracts.** Public operations are stated against `Contents()`:

- `rbt_insert` places the value after every equal value (`RbSpec.InsertMulti`).
- `rbt_erase_at` removes one position (`RbSpec.RemoveAt`).
- `rbt_erase` removes exactly the equal run and returns its length.
- Bound queries return the first index whose value is not below (`FirstAtLeast`) or above (`FirstAbove`) the key.

The comparator is the fixed total order `RbTypes.Compare` on `Entry.key`. An `Entry` also carries a `payload`, so `rbt_insert_or_assign` replacing a value in place is observable.

**Two facts about the code that shape the model.**

- Red-black trees keep a uniform black-height and no red node with a red child. This code does not.
  - `rbt_create` colours the sentinel red: colour word 2, nil and red (`src/rb_tree.c:93`).
  - So `insert_fixup` treats a nil uncle as red and recolours where it should rotate. Inserting 10, 1, 5 leaves one side of the root with more black nodes than the other.
  - Balance is therefore not proved. `InsertFixup` is proved to keep the order, the caches and a black root.
- A full-range `rbt_erase_range` calls `rbt_clear` (`src/rb_tree.c:188-189`), which also drops the comparator (`src/rb_tree.c:201`). The model carries that as `Tree.hasComparator`.

## Model

| member | source | states |
|---|---|---|
| RbTypes.Compare | include/rb_tree.h:42 | the comparator's sign convention on keys: negative exactly when the first key is smaller, zero exactly when they are equal, positive exactly when it is larger |
| RbTypes.SetColorWord | src/rb_tree.c:291-296 | set_color makes bit 0 the requested colour and never touches the sentinel bit |
| RbTypes.IterEq | src/rb_tree.c:252-256 | iterators may only be compared when their directions agree (the assert); they are equal exactly when they name the same node |
| RbSpec.FirstAtLeast | src/rb_tree.c:310-326 | the abstract lower bound: every value before the index is below the key, and the value at the index (if any) is not |
| RbSpec.FirstAbove | src/rb_tree.c:327-343 | the abstract upper bound: every value before the index is at most the key, and the value at the index (if any) is above it |
| RbSpec.SortedBounds | src/rb_tree.c:345-367 | on a sorted sequence the lower bound never passes the upper bound, and a value equals the key exactly when its index lies between them |
| RbSpec.EqualRangeIsEqualTo | src/rb_tree.c:345-367 | the slice between the two bounds is the subsequence of values equal to the key, and its length is their count |
| RbSpec.LowerBoundHit | src/rb_tree.c:205-208 | the lower bound stands on a value equal to the key exactly when some value equals the key, which is rbt_find's test |
| RbSpec.InsertMultiSorted | src/rb_tree.c:104-113 | inserting at the upper bound keeps the sequence sorted, adds exactly the new value and grows it by one |
| RbSpec.InsertMultiKeepsArrivalOrder | src/rb_tree.c:104-113 | after rbt_insert the values equal to the new one are the old equal values followed by the new one: duplicates keep insertion order |
| RbSpec.InsertBeforeSorted | src/rb_tree.c:115-128 | inserting at the lower bound keeps the sequence sorted and adds exactly the new value; with no equal value present it becomes the only one |
| RbSpec.RemoveAtSorted | src/rb_tree.c:175-185 | removing one position keeps the sequence sorted and removes exactly that value |
| RbSpec.RemoveEqualSpec | src/rb_tree.c:162-173 | removing the equal run keeps the sequence sorted, shortens it by the run's length, leaves no equal value, makes the two bounds meet, and is idempotent |
| RbSpec.TrivialRange | src/rb_tree.c:162-173 | with no value equal to the key the two bounds meet and nothing is removed |
| RbShape.NilIff | src/rb_tree.c:13 | IS_NIL holds of the sentinel and of no live node |
| RbShape.ActualRootIff | src/rb_tree.c:16 | IS_ACTUAL_ROOT (a node is its parent's parent) holds exactly for the node the sentinel caches as root |
| RbShape.RecolourWf | src/rb_tree.c:291-296 | a recolouring keeps the arena well formed and the values unchanged |
| RbWalk.Leftmost | src/rb_tree.c:258-262 | the loop ends at the first node of the subtree it starts in |
| RbWalk.Rightmost | src/rb_tree.c:264-268 | the loop ends at the last node of the subtree it starts in |
| RbWalk.InorderSuccessor | src/rb_tree.c:283-289 | the node at the next in-order index (the sentinel after the maximum); from the sentinel, the first node of the maximum's subtree |
| RbWalk.InorderPredecessor | src/rb_tree.c:270-281 | the node at the previous in-order index (the sentinel before the minimum); from the sentinel, the last node of the minimum's subtree |
| RbWalk.LowerBound | src/rb_tree.c:310-326 | the node at the first index not below the key (the sentinel if none), and an empty child slot, or the empty root, where a value of that rank belongs |
| RbWalk.UpperBound | src/rb_tree.c:327-343 | the node at the first index above the key (the sentinel if none), and the empty slot where a value of that rank belongs |
| RbWalk.EqualRange | src/rb_tree.c:345-367 | the pair (lower bound node, upper bound node) |
| RbWalk.DescendAtLeast | src/rb_tree.c:345-357 | the first descent finds the lower bound node and a candidate whose subtree contains the upper bound, or the sentinel |
| RbWalk.DescendAbove | src/rb_tree.c:358-365 | the refining descent from the candidate's left subtree, or from the root, ends at the upper bound node |
| RbRotate.RotateLeftApplies | src/rb_tree.c:556-574 | rotate_left changes only the node, the pivot, the pivot's inner child and the parent's child slot; it changes the sentinel's root link only when the node was the root |
| RbRotate.RotateRightApplies | src/rb_tree.c:576-593 | the mirror image for rotate_right |
| RbRotate.RotateLeftWf | src/rb_tree.c:556-574 | rotate_left keeps the arena well formed and the in-order values unchanged, moving two intervals |
| RbRotate.RotateRightWf | src/rb_tree.c:576-593 | rotate_right keeps the arena well formed and the in-order values unchanged |
| RbRotate.RotateLeftUndone | src/rb_tree.c:556-593 | rotate_right at the pivot undoes rotate_left exactly, links and intervals alike |
| RbRotate.RotateRightUndone | src/rb_tree.c:556-593 | rotate_left at the pivot undoes rotate_right exactly, links and intervals alike |
| RbInsert.NewNode | src/rb_tree.c:391-400 | create_node's node holds the value, is red and not nil, and links to the sentinel everywhere |
| RbInsert.InsertWf | src/rb_tree.c:369-385 | hanging a fresh node in the slot found for index `idx` yields a well-formed arena whose values are the old ones with the new value at `idx` |
| RbInsert.InsertAtFacts | src/rb_tree.c:369-385 | the same, and the fresh node is live; the root is black unless the fresh node became the root |
| RbInsert.AssignWf | src/rb_tree.c:143-146 | replacing a node's value by an equal-keyed one keeps the arena well formed and replaces exactly that position of the values |
| RbFixup.RedUncleStep | src/rb_tree.c:456-461 | the red-uncle recolouring keeps the arena and the values and moves the cursor strictly up to the grandparent |
| RbFixup.InnerLeftRotate | src/rb_tree.c:464-467 | rotating left at the parent of an inner right child makes it the outer left child of the grandparent |
| RbFixup.OuterRightStep | src/rb_tree.c:468-470 | recolouring parent and grandparent before the right rotation keeps the arena and the values |
| RbFixup.InnerRightRotate | src/rb_tree.c:483-486 | mirror image of InnerLeftRotate |
| RbFixup.OuterLeftStep | src/rb_tree.c:487-489 | mirror image of OuterRightStep |
| RbErase.TakeEffect | src/rb_tree.c:402-409 | take_node rewrites exactly the parent's slot that held the node, and the replacement's parent link |
| RbErase.ExtremeNeighbour | src/rb_tree.c:414-417 | a cached minimum without right child has its successor as parent, a cached maximum without left child its predecessor; the caches name index 0 and the last index |
| RbErase.SpliceWf | src/rb_tree.c:411-430 | removing a node with at most one child (corrected caches) leaves a well-formed arena whose values lose exactly that position |
| RbErase.ReplaceWf | src/rb_tree.c:431-446 | removing a node with two children by moving its successor into its place (corrected line 436) leaves a well-formed arena whose values lose exactly that position |
| RbRemove.ExtractWf | src/rb_tree.c:411-448 | corrected extract_node, in every case, leaves a well-formed arena whose values lose exactly the removed position |
| RbRemove.FixupIdleIff | src/rb_tree.c:447 | erase_fixup's loop is not entered exactly when the removed colour is red, or the returned node is the sentinel, the root, or red |
| RbRemove.EraseWf | src/rb_tree.c:181-183 | extract_node followed by an idle erase_fixup leaves a well-formed arena with a black root, whose values lose the removed position |
| RbRemove.IdleRunStep | src/rb_tree.c:166-170 | each step of an erase run removes the node at the run's index, and the rest of the run stays idle |
| RbRemove.RunRound | src/rb_tree.c:166-170 | one round of the erase loops: the node removed is the one at the run's start, its successor is the next start, and the values lose exactly it |
| RbRemove.SubtreeSplit | src/rb_tree.c:78-85 | a subtree's values are its left subtree's, its own, then its right subtree's |
| RbRemove.RootValues | src/rb_tree.c:199 | the subtree under the cached root holds all the values |
| RbRemove.Destroy | src/rb_tree.c:78-85 | destroy hands every value of the subtree to the destructor, each once |
| RbTree.AnnouncedSentinel | src/rb_tree.c:412-419 | the cache writes at the head of extract_node (corrected lines 418-419): minimum and maximum move to the neighbour, the root link to the node taking the root's place |
| RbTree.LinkRotateLeft | src/rb_tree.c:556-574 | the statements of rotate_left, with the IS_ACTUAL_ROOT and IS_LEFT tests, compute the rotation's link rewrite |
| RbTree.LinkRotateRight | src/rb_tree.c:576-593 | the statements of rotate_right compute the rotation's link rewrite |
| RbTree.EraseTwice | src/rb_tree.c:162-173 | (corrected lines 418-419, 436) a second rbt_erase with the same key removes nothing and returns 0 |
| RbTree.Tree.constructor | src/rb_tree.c:87-97 | rbt_create: an empty tree whose sentinel is nil, red, and linked to itself |
| RbTree.Tree.IsRed | src/rb_tree.c:9-11 | IS_RED reads bit 0 of the colour word |
| RbTree.Tree.IsActualRoot | src/rb_tree.c:16 | IS_ACTUAL_ROOT holds exactly for the cached root |
| RbTree.Tree.SetColor | src/rb_tree.c:291-296 | set_color changes only that node's colour bit |
| RbTree.Tree.RotateLeft | src/rb_tree.c:556-574 | rotate_left returns the pivot, rewrites the links as stated, keeps colours, values and a well-formed arena |
| RbTree.Tree.RotateRight | src/rb_tree.c:576-593 | rotate_right, likewise |
| RbTree.Tree.InsertFixup | src/rb_tree.c:451-494 | insert_fixup keeps the values and the caches and leaves the root black |
| RbTree.Tree.FixupRecolour | src/rb_tree.c:454-462 | the red-uncle case: values kept, cursor moves to the grandparent, whose subtree is strictly larger |
| RbTree.Tree.FixupRotateRight | src/rb_tree.c:463-471 | the black-uncle case under a left parent: values kept, root black, and the loop ends (the cursor's parent is black) |
| RbTree.Tree.FixupInnerRight | src/rb_tree.c:464-467 | an inner right child is rotated into the outer position, the cursor moving to its old parent |
| RbTree.Tree.FixupOuterRight | src/rb_tree.c:468-470 | recolour and rotate right at the grandparent; the cursor's parent is then black |
| RbTree.Tree.FixupRotateLeft | src/rb_tree.c:482-490 | the black-uncle case under a right parent, mirror image |
| RbTree.Tree.FixupInnerLeft | src/rb_tree.c:483-486 | mirror image of FixupInnerRight |
| RbTree.Tree.FixupOuterLeft | src/rb_tree.c:487-489 | mirror image of FixupOuterRight |
| RbTree.Tree.CreateNode | src/rb_tree.c:391-400 | create_node appends a fresh red node, or changes nothing when allocation fails |
| RbTree.Tree.LinkFresh | src/rb_tree.c:369-385 | insert_at's link writes hang the fresh node in the search's slot and update the caches |
| RbTree.Tree.InsertAt | src/rb_tree.c:369-389 | insert_at: the values gain the new one at the slot's index, size grows by one, the tree stays valid |
| RbTree.Tree.Insert | src/rb_tree.c:104-113 | rbt_insert: err 0, the values become InsertMulti of the old ones, size + 1, pos at the new node; on ENOMEM nothing changes |
| RbTree.Tree.InsertUnique | src/rb_tree.c:115-128 | rbt_insert_unique: with an equal value present, err -1, pos at the first equal node, nothing changes; otherwise inserts at the lower bound (or ENOMEM, unchanged) |
| RbTree.Tree.InsertOrAssign | src/rb_tree.c:130-148 | rbt_insert_or_assign: with an equal value present, the first equal node takes the new value in place and the old one is returned, links and size unchanged; otherwise inserts with no previous value |
| RbTree.Tree.TakeNode | src/rb_tree.c:402-409 | take_node's writes |
| RbTree.Tree.ReplaceNode | src/rb_tree.c:431-446 | the two-children splice (corrected line 436): the successor takes the node's place, links and colour |
| RbTree.Tree.SuccessorLeaves | src/rb_tree.c:434-441 | the successor leaves its place, or only its right child is relinked when it is the node's right child (corrected line 436: not when that child is the sentinel) |
| RbTree.Tree.SuccessorArrives | src/rb_tree.c:442-445 | the successor takes the node's place, left subtree and colour |
| RbTree.Tree.AnnounceExtract | src/rb_tree.c:412-419 | the cache writes at the head of extract_node (corrected lines 418-419) |
| RbTree.Tree.ExtractNode | src/rb_tree.c:411-448 | extract_node (corrected lines 418-419, 436): the values lose the node's position, the arena stays well formed, and the node handed to erase_fixup is the one line 447 names |
| RbTree.Tree.EraseFixup | src/rb_tree.c:496-555 | erase_fixup when its loop is not entered: only the root is coloured black |
| RbTree.Tree.Unlink | src/rb_tree.c:181-183 | extract (corrected lines 418-419, 436), fix up and size - 1: the values lose the node's position |
| RbTree.Tree.Extract | src/rb_tree.c:150-160 | rbt_extract (corrected lines 418-419, 436): at end, returns no value and changes nothing; otherwise returns the node's value and removes it, size - 1 |
| RbTree.Tree.EraseAt | src/rb_tree.c:175-185 | rbt_erase_at (corrected lines 418-419, 436): at end, returns end and changes nothing; otherwise disposes of one value, removes it, size - 1, and returns the old successor, now at the same index |
| RbTree.Tree.EraseInRun | src/rb_tree.c:166-170 | (corrected lines 418-419, 436) one erase step inside a run keeps the run's bookkeeping and disposes of the next value |
| RbTree.Tree.Erase | src/rb_tree.c:162-173 | rbt_erase (corrected lines 418-419, 436): returns the number of values equal to the key, disposes of exactly those, and the values become RemoveEqual of the old ones |
| RbTree.Tree.EraseEqualRun | src/rb_tree.c:166-170 | (corrected lines 418-419, 436) the loop of rbt_erase removes the slice between the two bounds, counting it |
| RbTree.Tree.EraseRange | src/rb_tree.c:187-196 | rbt_erase_range (corrected lines 418-419, 436): begin..end clears the tree (comparator gone) and returns begin; otherwise the slice [first, last) is removed and disposed of, size drops by its length, last is returned |
| RbTree.Tree.EraseRangeWithin | src/rb_tree.c:190-193 | (corrected lines 418-419, 436) the partial-range branch of rbt_erase_range |
| RbTree.Tree.EraseRangeRun | src/rb_tree.c:191-193 | (corrected lines 418-419, 436) the loop of rbt_erase_range removes the slice front to back |
| RbTree.Tree.Clear | src/rb_tree.c:198-203 | rbt_clear: every value disposed of, no values left, size 0, comparator dropped, sentinel linked to itself |
| RbTree.Tree.Size | src/rb_tree.c:223 | rbt_size is the number of values |
| RbTree.Tree.IsEmpty | src/rb_tree.c:239 | rbt_is_empty holds exactly when there are no values |
| RbTree.Tree.Begin | src/rb_tree.c:234 | rbt_begin is the forward iterator at index 0 |
| RbTree.Tree.End | src/rb_tree.c:235 | rbt_end is the forward iterator past the last index |
| RbTree.Tree.RBegin | src/rb_tree.c:236 | rbt_rbegin is the reverse iterator at its index 0 (the sentinel) |
| RbTree.Tree.REnd | src/rb_tree.c:237 | rbt_rend is the reverse iterator past its last index (the minimum) |
| RbTree.Tree.AtLast | src/rb_tree.c:234-237 | an iterator is past its last index exactly when it equals end (forwards) or rend (backwards) |
| RbTree.Tree.Incr | src/rb_tree.c:304 | incr moves a node to the next index |
| RbTree.Tree.Decr | src/rb_tree.c:306 | decr moves a node to the previous index and the sentinel to the maximum |
| RbTree.Tree.IterNext | src/rb_tree.c:241-243 | rbt_iter_next advances one index in the iterator's own direction |
| RbTree.Tree.IterPrev | src/rb_tree.c:244-246 | rbt_iter_prev goes back one index in the iterator's own direction |
| RbTree.Tree.IterVal | src/rb_tree.c:247-251 | rbt_iter_val is the value at the iterator's index in its own direction (a reverse iterator reads decr of its node), and NULL past the last index |
| RbTree.Tree.Find | src/rb_tree.c:205-208 | rbt_find returns end exactly when no value equals the key, otherwise the first equal node |
| RbTree.Tree.ValAt | src/rb_tree.c:210-214 | rbt_val_at, with the key present (its assert), returns the first equal value |
| RbTree.Tree.ValAtOr | src/rb_tree.c:216-221 | rbt_val_at_or returns the first equal value, or the default when there is none |
| RbTree.Tree.LowerBoundIter | src/rb_tree.c:225 | rbt_lower_bound stands at the first index not below the key |
| RbTree.Tree.UpperBoundIter | src/rb_tree.c:227 | rbt_upper_bound stands at the first index above the key |
| RbTree.Tree.EqualRangeIters | src/rb_tree.c:229-232 | rbt_eqaul_range is (lower bound, upper bound), and the slice between them is exactly the equal values |
| RbTree.Tree.ForEachVal | include/rb_tree.h:90-94 | rbt_for_each_val from begin to end yields every value once, in ascending order, in size steps |
| RbTree.Tree.ForEachValReverse | include/rb_tree.h:95 | rbt_for_each_val_r from rbegin to rend yields the forward values reversed |
| RbFindings.RootLinkLostAtSplice | src/rb_tree.c:435-436 | as written, the erase below makes the sentinel's root link name a node that has a parent, and no interval assignment makes the arena well formed |
| RbFindings.RootLinkKeptAtSplice | src/rb_tree.c:435-436 | corrected, the same erase leaves the root link on the root |
| RbFindings.RootLinkLostAtCaches | src/rb_tree.c:418-419 | as written, erasing the root that is also the minimum makes the root link name the new minimum, which has a parent; the arena is not well formed |
| RbFindings.RootLinkKeptAtCaches | src/rb_tree.c:418-419 | corrected, the root link names the node that took the root's place |
| RbScenario.TestArenaWf | examples/test.c:21-24 | the tree inserting 10, 1, 5, 15, 2 builds is well formed and holds 1, 2, 5, 10, 15 |
| RbScenario.EraseFive | examples/test.c:25 | rbt_erase of 5 starts its run at index 2, never enters erase_fixup's loop (so RbTree.Tree.Erase applies), and leaves a well-formed tree holding 1, 2, 10, 15 |
| RbScenario.EraseTen | examples/test.c:26-27 | rbt_erase of 10 then never enters erase_fixup's loop either and leaves a well-formed tree holding 1, 2, 15, the values rbt_for_each_val visits |

## Left out

- Memory: `malloc` and `free` are not modelled. An allocation appends an arena slot. A freed node stays in the arena, unreachable.
- Allocation failure: a node allocation that fails is the `allocFails` parameter; the tree then stays unchanged. `ENOMEM` is 12, as in Linux's `errno.h`. A failing `malloc` in `rbt_create` (`src/rb_tree.c:88-89`) is not modelled.
- Destructor: the `dtor` callback is the `disposed` result, which lists the values handed to it.
- Comparator: the `comp` callback is the fixed `Compare` on keys. `comp = NULL` is `hasComparator == false`.
- `rbt_destroy` (`src/rb_tree.c:99-102`) is `rbt_clear` followed by freeing the tree object; only the clear is modelled.
- `rbt_display` is declared in `include/rb_tree.h:76` but defined nowhere in the C sources; it is diagnostic output only.
- The `rbt_for_until*` macros (`include/rb_tree.h:97-110`) do not compile: line 108 has stray tokens, and they refer to an undeclared `iter`.
- The `rbt_for_each` and `rbt_for_each_r` macros (`include/rb_tree.h:84-88`) have the same loop as the `_val` variants, which are modelled.
- Red-black balance (uniform black-height, no red node with a red child) is neither stated nor proved, because the code does not keep it.
- The loop body of `erase_fixup` (`src/rb_tree.c:499-553`) is not modelled. When it moves up it overwrites `node->parent` with the grandparent (lines 509-510 and 536-537), which breaks the parent links. Every removal is modelled only where that loop is not entered.
- The test driver `examples/test.c` is modelled as concrete lemmas over the arena it builds (`RbScenario`). The arena after its five insertions is written out, not derived through `Tree.Insert`, because the contract of `Tree.Insert` states the values and not the links. The `printf` output and `rbt_destroy` are not modelled.
- RbTree.Tree.EraseFixup: only the case where the loop is not entered is modelled (`FixupDone`). Lines 499-553 are not modelled.
- RbTree.Tree.ExtractNode: models extract_node with lines 418-419 and 436 corrected (see "## Findings"). Where those lines go wrong, the C leaves a broken root link; the model promises a well-formed tree instead.
- RbTree.Tree.AnnounceExtract: writes the corrected root link of lines 418-419, not the C's `suc ? suc : …`.
- RbTree.AnnouncedSentinel: computes the corrected root link of lines 418-419, not the C's `suc ? suc : …`.
- RbTree.Tree.SuccessorLeaves: skips the write of line 436 when `fixnode` is the sentinel; the C writes it.
- RbTree.Tree.ReplaceNode: uses the corrected line 436, as SuccessorLeaves does.
- RbTree.Tree.Unlink: uses the corrected extract_node, as ExtractNode does.
- RbTree.Tree.Extract: uses the corrected extract_node. On the Findings inputs it promises a well-formed tree where the C breaks the root link.
- RbTree.Tree.EraseAt: uses the corrected extract_node. On the first Findings input (erase 2 after inserting 4, 2, 6, 1, 3, 5, 7) it promises a well-formed tree where the C leaves the root link on 3.
- RbTree.Tree.EraseInRun: uses the corrected extract_node, as EraseAt does.
- RbTree.Tree.Erase: uses the corrected extract_node, as EraseAt does.
- RbTree.Tree.EraseEqualRun: uses the corrected extract_node, as EraseAt does.
- RbTree.Tree.EraseRange: uses the corrected extract_node for a partial range, as EraseAt does.
- RbTree.Tree.EraseRangeWithin: uses the corrected extract_node, as EraseAt does.
- RbTree.Tree.EraseRangeRun: uses the corrected extract_node, as EraseAt does.
- RbTree.EraseTwice: uses the corrected extract_node, as EraseAt does.
- RbTree.Tree.EraseAt: requires that erase_fixup's loop is not entered (`FixupIdle`); the source accepts any node.
- RbTree.Tree.Extract: requires `FixupIdle`, as EraseAt does.
- RbTree.Tree.Unlink: requires `FixupIdle`, as EraseAt does.
- RbTree.Tree.Erase: requires that each removal of the equal run is idle in that sense (`IdleRun`).
- RbTree.Tree.EraseRange: requires `IdleRun` for a partial range.
- RbTree.Tree.EraseRange: the C loop calls `rbt_iter_next` on the node it has just freed (`src/rb_tree.c:191-192`), which is undefined behaviour. The model steps to the successor that `rbt_erase_at` returns.
- RbTree.Tree.EraseRange: a whole-range erase states the values handed to the destructor as a multiset, not in `destroy`'s post-order.
- RbTree.EraseTwice: requires `IdleRun` for the first call, as Erase does.
- RbTree.Tree.Clear: states the values handed to the destructor as a multiset, not in `destroy`'s post-order.
- RbRemove.Destroy: states the values handed to the destructor as a multiset; the body hands them over in post-order.
- RbTree.Tree.InsertFixup: proves order, caches and a black root, not the red-black colour rules, which the code does not keep.
- RbTree.Tree.Insert: requires a comparator unless the tree is empty. After `rbt_clear` the C code would call through a NULL pointer.
- RbTree.Tree.InsertUnique: requires a comparator unless the tree is empty, as Insert does.
- RbTree.Tree.InsertOrAssign: requires a comparator unless the tree is empty, as Insert does.
- RbTree.Tree.Find: requires a comparator unless the tree is empty, as Insert does.
- RbTree.Tree.ValAt: requires a comparator unless the tree is empty, as Insert does.
- RbTree.Tree.ValAtOr: requires a comparator unless the tree is empty, as Insert does.
- RbTree.Tree.LowerBoundIter: requires a comparator unless the tree is empty, as Insert does.
- RbTree.Tree.UpperBoundIter: requires a comparator unless the tree is empty, as Insert does.
- RbTree.Tree.EqualRangeIters: requires a comparator unless the tree is empty, as Insert does.
- RbTree.Tree.Erase: requires a comparator unless the tree is empty, as Insert does.

## Findings

| source | as written | input that shows it | evidently intended | confidence | as-written member | corrected member |
|---|---|---|---|---|---|---|
| src/rb_tree.c:435-436 | when the successor is the erased node's right child, `fixnode->parent = suc` also runs when `fixnode` is the sentinel, so the root cache names the successor | insert 4, 2, 6, 1, 3, 5, 7 into a new tree, then erase 2: its successor 3 is its right child and has no right child | write the parent link only when `fixnode` is a real node | not executed | RbFindings.RootLinkLostAtSplice | RbFindings.RootLinkKeptAtSplice |
| src/rb_tree.c:418-419 | when the erased root is also the cached minimum or maximum, the root cache takes the new minimum or maximum, not the node that replaces the root | insert 1, 3, 2 into a new tree, then erase 1: the root 1 has the right child 3, whose left child is 2, and the root cache becomes 2 | the root cache names the node that takes the root's place | not executed | RbFindings.RootLinkLostAtCaches | RbFindings.RootLinkKeptAtCaches |

The corrected writes are the ones every operation of the model uses.
`RbRemove.ExtractWf` proves, for every well-formed tree, that the corrected `extract_node` keeps the tree well formed.
