# Adaptable min-heap on a linked complete binary tree

This project models the core of AT1924/Heap. The core is a locator-aware
("adaptable") min-priority queue. Its parts are:

- **`MyLinkedHeapTree`**: a complete binary tree. It adds and removes only at
  the last node. To do that without walking the tree, it keeps a deque
  (`_positions`) of the nodes that can still take a child.
- **`MyHeapEntry`**: a mutable key/value pair. Each entry also records the tree
  position that holds it.
- **`MyHeap`**: the heap itself, with `insert`, `min`, `removeMin`, the removal
  of an arbitrary entry (`remove`), the down-heap walk `downSort`, the up-heap
  walk `reorderTree`, and the locator swap `swapElementPositions`.
- **`MyHeapEntryComparator`**: compares two keys by 32-bit subtraction.

The model has the following modules:

- **`TreeIndex`**: nodes are numbered breadth-first from 1. Node i has parent
  i/2 and children 2i and 2i+1. `At(s, i)` is the i-th element of a
  breadth-first sequence, and `Swap` exchanges two of them.
- **`HeapTree`**: the class `LinkedHeapTree`.
  - It holds an arena `slots` (node number to element), its `size`, and the
    deque `positions` as a sequence of node numbers.
  - A ghost field `Contents` lists the elements in breadth-first order.
  - `Valid()` says three things: the tree is complete (its nodes are exactly
    1..size); `Contents` lists them; the deque equals `Frontier(size)`, which
    is the nodes ⌈n/2⌉..n, i.e. the nodes with fewer than two children.
- **`HeapEntry`**: the class `Entry`, with fields key, value and position. The
  position is a node number, or `NoPosition` for Java's null.
- **`EntryComparator`**: `compare` over a 32-bit `int32`, with wrap-around
  written out. `CompareKeys` is the sign comparison its documentation
  promises.
- **`HeapOrder`**: the heap's key sequence as a pure value.
  - Walks: `SiftUp` (`reorderTree`) and `SiftDown` (`downSort`).
  - Operations: `InsertKeys`, `RemoveKeys` (`remove` at a node), `ReplaceKeys`
    (`replaceKey`), and `Drain` (repeated `removeMin`).
  - Proofs: each of these restores or uses heap order, and draining is
    sorted.
- **`HeapPlacement`**: which entry ends up at which node. `SiftUpWith` and
  `SiftDownWith` carry any sequence listed alongside the keys (the entries,
  in the class) through exactly the exchanges the key walks make. On the
  keys themselves they are `SiftUp` and `SiftDown`. So when keys tie, the
  strict comparisons of the walks still decide where each entry goes.
- **`AdaptableHeap`**: the class `Heap`. It owns a `LinkedHeapTree` of entries.
  - Ghost field `Keys`: the entries' keys in breadth-first order.
  - Ghost field `Entries`: the entries the heap may update.
  - `Consistent()` says:
    - the tree is valid;
    - each node's entry has the key listed in `Keys`;
    - each entry's position names the node holding it (locator consistency).
  - `Valid()` adds heap order.
  - Every mutating method states its effect on `Keys` through a `HeapOrder`
    function, so the heap-order lemmas carry over to the class. It states
    its effect on the tree's entries through the matching `HeapPlacement`
    function.
- **`HeapScenarios`**: client runs that follow the repository's unit tests.

Keys are integers under their usual order. The heap's comparator is never
replaced, because `setComparator` only forwards the comparator to the tree
(`MyHeap.java:60`). The heap walks therefore compare keys with `<` and `>`,
which is the order `CompareKeys` states.

## Model

| member | source | states |
|---|---|---|
| HeapTree.FrontierIsOpenNodes | MyLinkedHeapTree.java:65-83 | the deque holds exactly the nodes with fewer than two children, each once, in breadth-first order |
| HeapTree.FrontierAdd | MyLinkedHeapTree.java:65-83 | the front of the deque is the parent of the next node: it gets a left child if it has none, otherwise a right child and it leaves the front |
| HeapTree.FrontierRemove | MyLinkedHeapTree.java:87-96 | the back of the deque is the last node; after detaching it the back is popped, and a right child's parent goes back on the front |
| HeapTree.LinkedHeapTree.constructor | MyLinkedHeapTree.java:31-36 | a new tree is empty and so is its deque |
| HeapTree.LinkedHeapTree.Add | MyLinkedHeapTree.java:53-85 | empty tree: the root is created, returned, and is the whole deque; otherwise the new node is the front's left or right child, appended at the back, and a filled front is popped; the tree stays complete and the size grows by one |
| HeapTree.LinkedHeapTree.LastPosition | MyHeap.java:173 | the last node is the back of the deque, numbered size, holding the last element |
| HeapTree.LinkedHeapTree.Remove | MyLinkedHeapTree.java:87-100 | an empty tree gives EmptyTree and is unchanged; otherwise it returns the last node's element, drops only that node, and updates the deque as its inverse of `add` |
| HeapTree.LinkedHeapTree.SwapElements | MyHeap.java:175 | two nodes exchange elements; shape and deque are unchanged |
| HeapTree.AddThenRemove | MyLinkedHeapTree.java:38-100 | `add(x)` then `remove()` returns x and restores the arena, size and deque |
| HeapTree.RemoveScenario | MyLinkedHeapTreeTest.java:125-133 | after adding 24 and 16, removal yields 16, then 24, then EmptyTree |
| HeapEntry.Entry.constructor | MyHeapEntry.java:29-33 | key and value are stored as given; the position starts unset |
| HeapEntry.Entry.SetKey | MyHeapEntry.java:41-43 | the key is replaced; value and position are unchanged |
| HeapEntry.Entry.SetValue | MyHeapEntry.java:51-53 | the value is replaced; key and position are unchanged |
| HeapEntry.Entry.SetPosition | MyHeapEntry.java:78-80 | the position is replaced; key and value are unchanged |
| EntryComparator.Compare | MyHeapEntryComparator.java:19-21 | the result is o1 - o2 modulo 2^32; when the difference fits in an int it is the difference, and its sign orders the arguments |
| EntryComparator.CompareReflexive | MyHeapEntryComparator.java:20 | compare(x, x) is 0 |
| EntryComparator.CompareAntisymmetric | MyHeapEntryComparator.java:20 | when neither difference wraps, compare(x, y) == -compare(y, x) |
| EntryComparator.CompareOverflows | MyHeapEntryComparator.java:20 | compare(2147483647, -1) is negative although the first argument is larger |
| EntryComparator.CompareKeys | MyHeapEntryComparator.java:13-17 | negative, zero or positive exactly when o1 is less than, equal to or greater than o2, for all inputs |
| EntryComparator.CompareKeysAntisymmetric | MyHeapEntryComparator.java:13-17 | swapping the arguments negates the corrected comparison |
| EntryComparator.CompareAgreesWhenFits | MyHeapEntryComparator.java:13-21 | when the difference fits, the written and the corrected comparison have the same sign |
| HeapOrder.SiftUp | MyHeap.java:295-313 | the up-heap walk permutes the keys and keeps their number |
| HeapOrder.SmallerChild | MyHeap.java:271-277 | the child `downSort` picks is a child of p whose key is no larger than any child's, and it is the right child exactly when that one exists and is strictly smaller than the left (ties go left) |
| HeapOrder.SiftDown | MyHeap.java:262-290 | the down-heap walk permutes the keys and keeps their number |
| HeapOrder.SiftUpOrders | MyHeap.java:295-313 | if the only violation is between p and its ancestors, the up-heap walk restores heap order |
| HeapOrder.SiftDownOrders | MyHeap.java:262-290 | if the only violation is between p and its descendants, the down-heap walk restores heap order |
| HeapOrder.SiftUpStays | MyHeap.java:302-303 | on a heap-ordered sequence the up-heap walk stops at once |
| HeapOrder.SiftUpKeepsOffPath | MyHeap.java:302-307 | the up-heap walk from p leaves every node off the path from p to the root unchanged |
| HeapOrder.RootIsMinimum | MyHeap.java:111-118 | in a heap-ordered sequence the root key is no larger than any key |
| HeapOrder.InsertKeys | MyHeap.java:132-137 | insertion grows the key sequence by exactly one (its content and order are stated by `InsertRestores`) |
| HeapOrder.InsertRestores | MyHeap.java:132-137 | insertion keeps heap order and adds exactly the new key |
| HeapOrder.ReplaceKeys | MyHeap.java:188-206 | key replacement keeps the number of keys and trades exactly one copy of the old key at p for the new key (its order is stated by `ReplaceRestores`) |
| HeapOrder.ReplaceRestores | MyHeap.java:188-206 | key replacement at any node keeps heap order |
| HeapOrder.RemoveKeys | MyHeap.java:155-186 | removal at a node takes away exactly that node's key and shrinks the heap by one |
| HeapOrder.RemoveRestores | MyHeap.java:155-186 | removal at any node keeps heap order |
| HeapOrder.InsertAll | MyHeapTest.java:60-65 | inserting a sequence of keys one by one gives a heap-ordered permutation of them |
| HeapOrder.Drain | MyHeap.java:147-153 | repeated `removeMin` yields every key of the heap exactly once |
| HeapOrder.DrainSorted | MyHeap.java:147-153 | the keys come out of repeated `removeMin` in nondecreasing order |
| HeapOrder.SortedUnique | MyHeapTest.java:67-79 | two sorted sequences with the same keys are equal |
| HeapOrder.DrainExample | MyHeapTest.java:58-80 | any heap holding 11, 13, 64, 16, 44 drains as 11, 13, 16, 44, 64 |
| HeapOrder.ExampleSorted | MyHeapTest.java:67-79 | the expected drain order 11, 13, 16, 44, 64 is sorted and holds exactly the inserted keys |
| HeapOrder.InsertExample | MyHeapTest.java:60-65 | inserting 11, 13, 64, 16, 44 moves no key |
| HeapOrder.RemoveAsWrittenKeys | MyHeap.java:172-185 | `remove` as written (walk down and up, then detach the last node) returns the detached key and keeps the others |
| HeapOrder.RemoveAsWrittenCounterexample | MyHeap.java:172-185 | on 11, 13, 64, 16, 44, `removeMin` as written detaches 44 and leaves 13, 11, 64, 16, which is not heap-ordered |
| HeapOrder.RemoveMinExample | MyHeapTest.java:88-98 | removing the minimum of 11, 13, 64, 16, 44 leaves 13, 16, 64, 44 |
| HeapPlacement.SiftUpWith | MyHeap.java:302-307 | the exchanges of `reorderTree` made on the entries: they are permuted, never lost or duplicated |
| HeapPlacement.SiftDownWith | MyHeap.java:264-288 | the exchanges of `downSort` made on the entries: they are permuted, never lost or duplicated |
| HeapPlacement.SiftUpWithKeys | MyHeap.java:302-307 | carried along on the keys themselves, the entry walk is `SiftUp`: entries move exactly as their keys |
| HeapPlacement.SiftDownWithKeys | MyHeap.java:264-288 | carried along on the keys themselves, the entry walk is `SiftDown` |
| HeapPlacement.InsertFollowsKeys | MyHeap.java:132-137 | `InsertWith` on the keys is `InsertKeys` |
| HeapPlacement.WalkFollowsKeys | MyHeap.java:178-182 | the down-and-up walk on the keys is `SiftUp` after `SiftDown` |
| HeapPlacement.ReplaceFollowsKeys | MyHeap.java:188-206 | `ReplaceWith` on the keys is `ReplaceKeys` |
| HeapPlacement.RemoveFollowsKeys | MyHeap.java:172-185 | `RemoveWith` on the keys is `RemoveKeys` |
| HeapPlacement.SiftUpWithKeepsOffPath | MyHeap.java:302-307 | every entry off the path from p to the root stays at its node |
| HeapPlacement.SiftUpWithRests | MyHeap.java:300-308 | the entry that starts at p rests at `SiftUpStop`, the node `reorderTree` returns |
| HeapPlacement.SiftDownStopBelow | MyHeap.java:279-285 | the down-heap walk stops at p or at a descendant of p |
| HeapPlacement.SiftDownWithKeepsOffPath | MyHeap.java:264-288 | every entry off the path from p down to where the walk stops stays at its node |
| HeapPlacement.SiftDownWithRests | MyHeap.java:264-288 | the entry that starts at p rests at `SiftDownStop` |
| HeapPlacement.SiftDownTieGoesLeft | MyHeap.java:272-277 | when p's two children tie and both are smaller than p, the left child's entry moves up to p |
| AdaptableHeap.Heap.constructor | MyHeap.java:35-39 | a new heap is empty and valid |
| AdaptableHeap.Heap.Size | MyHeap.java:84-88 | the size is the number of keys in the heap |
| AdaptableHeap.Heap.IsEmpty | MyHeap.java:95-101 | the heap is empty exactly when its size is 0 |
| AdaptableHeap.Heap.OwnsIsMembership | MyHeap.java:165-170 | an entry's position names a node of this tree holding it exactly when the entry is in the heap |
| AdaptableHeap.Heap.CheckAndConvertEntry | MyHeap.java:238-243 | a null handle gives InvalidEntry; any other handle is accepted as it is |
| AdaptableHeap.Heap.SetComparator | MyHeap.java:53-62 | a non-empty heap is refused first, then a missing comparator; the heap never changes |
| AdaptableHeap.Heap.Min | MyHeap.java:111-118 | an empty heap gives EmptyPriorityQueue; otherwise the root entry, whose key is a lower bound of every key in the heap |
| AdaptableHeap.Heap.SwapNodes | MyHeap.java:315-324 | two nodes exchange entries and each moved entry records its new node; locators stay consistent, and keys and values are untouched |
| AdaptableHeap.Heap.SwapAsWritten | MyHeap.java:315-324 | `swapElements` then `swapElementPositions` as written: each moved entry records the node it left, so locators break whenever the nodes differ |
| AdaptableHeap.Heap.Insert | MyHeap.java:132-137 | a fresh entry with exactly the given key and value is added; its position names its node; keys follow `InsertKeys` and the entries `InsertWith`, so the new entry rests at `SiftUpStop`; every entry already in the heap keeps its key and value; heap order and locators are kept |
| AdaptableHeap.Heap.Remove | MyHeap.java:165-186 | null or foreign entries give InvalidEntry and change nothing; otherwise the same entry is returned, its key and value intact; keys follow `RemoveKeys` and the entries `RemoveWith` at its node; the heap loses exactly that entry and stays valid; on either path every entry keeps its key and value |
| AdaptableHeap.Heap.RemoveMin | MyHeap.java:147-153 | an empty heap gives EmptyPriorityQueue; otherwise the former root entry, with the smallest key and its value intact, is removed; keys follow `RemoveKeys` and the entries `RemoveWith` at the root; every entry keeps its key and value |
| AdaptableHeap.Heap.ReplaceKey | MyHeap.java:188-206 | null or foreign entries give InvalidEntry; otherwise it returns the old key, the entry gets the new key, keys follow `ReplaceKeys` and the entries `ReplaceWith`, and the heap stays valid; every other entry keeps its key and value |
| AdaptableHeap.Heap.ReplaceValue | MyHeap.java:208-225 | null or foreign entries give InvalidEntry; otherwise it returns the old value and only the entry's value changes |
| AdaptableHeap.Heap.RemoveNode | MyHeap.java:172-185 | the last node's entry replaces the target, the last node is detached, then the moved entry is walked down and up from the target; keys follow `RemoveKeys` and the entries `RemoveWith`; the removed entry and every remaining entry keep their key and value |
| AdaptableHeap.Heap.MoveLastTo | MyHeap.java:172-176 | swapping with the last node and detaching it removes exactly the target entry and leaves the others in the swapped order; every entry keeps its key and value |
| AdaptableHeap.Heap.DetachLast | MyHeap.java:184-185 | the tree's `remove` takes the last node's entry out of the heap |
| AdaptableHeap.Heap.DownSort | MyHeap.java:262-290 | the loop performs `SiftDown` on the keys and moves the entries exactly as `SiftDownWith` says (strict `>`, ties go left); it keeps the locators consistent |
| AdaptableHeap.Heap.ReorderTree | MyHeap.java:295-313 | the loop performs `SiftUp` on the keys and moves the entries exactly as `SiftUpWith` says (strict `<`); it returns `SiftUpStop`, the node where the walked entry comes to rest |
| HeapScenarios.DrainAll | MyHeapTest.java:71-74 | calling `removeMin` until the heap is empty yields `Drain` of its keys |
| HeapScenarios.InsertEach | MyHeapTest.java:60-65 | inserting several pairs adds exactly their keys and keeps the heap valid |
| HeapScenarios.DrainScenario | MyHeapTest.java:58-80 | inserting 11, 13, 64, 16, 44 and draining gives 11, 13, 16, 44, 64 |
| HeapScenarios.SizeScenario | MyHeapTest.java:161-169 | sizes 0, 1, 0 around one insert and its removal; the minimum key is then 1, as `testInsertOneElement` (MyHeapTest.java:51) checks; a second removal of the same entry, which no test makes, is refused because the heap is empty (MyHeap.java:168) |
| HeapScenarios.InsertScenario | MyHeapTest.java:127-148 | after five inserts, each returned entry still carries the key and value it was inserted with |
| HeapScenarios.TieScenario | MyHeap.java:302-303 | after inserting (5, 'A') and then (5, 'B'), 'B' stays at node 2, because the walk passes only a strictly larger key; so the minimum entry is 'A' |
| HeapScenarios.SetComparatorScenario | MyHeapTest.java:114-159 | `setComparator` on a non-empty heap and with no comparator is refused |

## Left out

- Comparator objects are not modelled: the constructor's comparator, the `_comparator` field, and the tree's `set_comparator`. Keys are integers under their usual order. The tree's `set_comparator` is not part of this model.
- `getTree` (`MyHeap.java:64-77`) exists only for the visualizer.
- The library's `LinkedBinaryTree` and `ArrayDeque` internals are modelled, not reproduced.
  - Positions are breadth-first node numbers.
  - Position objects have no identity of their own.
- The `BoundaryViolationException` handler in `reorderTree` is left out: the loop guard tests for the root first, so the handler is dead.
- `instanceof` in `checkAndConvertEntry` is left out: every non-null handle is an `Entry` here.
- `InvalidKeyException` is not modelled: the source never throws it, and every integer is a valid key.
- Integer widths are not modelled.
  - `size()` returns a `nat` rather than a Java `int`.
  - Heap keys are unbounded integers.
  - Only `compare` models 32-bit arithmetic.
- Dead locals (`swapped1`, `x`) in `swapElementPositions` are left out.
- AdaptableHeap.Heap.Remove: the model accepts an entry only if its position names a node of this heap that holds it. The source checks only for null, an empty heap and a null position. The source would therefore accept an entry of another heap, or a removed entry with a stale position, and corrupt the tree. A removed entry's position still names node n, the last node it was detached from, which is no longer in the tree. In the source the inverted swap (MyHeap.java:175-176) leaves it naming the target node, which is still in the tree unless the target was the last node.
- AdaptableHeap.Heap.ReplaceKey: the source body only validates the entry and returns null. The model follows the documented contract: it returns the old key, then walks down and up from the entry's node. Its validity check is the one `Remove` uses.
- AdaptableHeap.Heap.ReplaceValue: the source body only validates the entry and returns null. The model follows the documented contract and returns the old value.
- HeapTree.LinkedHeapTree.Remove: the source body returns null. The model follows the documented contract (`MyLinkedHeapTree.java:87-96`) as the inverse of `add`.
- `Heap.Remove`, `DownSort` and `ReorderTree` use the corrected swap (`SwapNodes`) and the corrected order of detaching (see Findings). The code as written is modelled in two places: `SwapAsWritten` and `HeapOrder.RemoveAsWrittenKeys`, the latter on keys only.

## Findings

| source | as written | input that shows it | evidently intended | confidence | as-written member | corrected member |
|---|---|---|---|---|---|---|
| MyHeap.java:315-324 | `swapElementPositions` runs after `swapElements`, so each moved entry is told the node it just left | any swap of two distinct nodes, e.g. insert 2 then 1: the entry with key 1 sits at the root but records node 2 | each entry records the node that now holds it | high; not executed | AdaptableHeap.Heap.SwapAsWritten | AdaptableHeap.Heap.SwapNodes |
| MyHeap.java:172-185 | `remove` walks down and up from the target before detaching the last node, so the moved key can be walked back into the last node and the wrong entry detached | keys 11, 13, 64, 16, 44: `removeMin` detaches 44 and leaves 13, 11, 64, 16, which is not heap-ordered | swap with the last node, detach it, then walk down and up from the target | high; not executed | HeapOrder.RemoveAsWrittenCounterexample | HeapOrder.RemoveRestores |
| MyHeapEntryComparator.java:20 | `(int) o1 - (int) o2` wraps around for distant keys | compare(2147483647, -1) is negative | the sign of o1 - o2 for all int keys | high; not executed | EntryComparator.CompareOverflows | EntryComparator.CompareKeys |
