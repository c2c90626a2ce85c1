# Concurrent priority queues and skip lists: the sequential core in Dafny

This project models the three single-operation-at-a-time data structures of the
repository and proves what each of them keeps and computes.

- **The fine-grained binary min-heap** (`FineGrainedPriorityQueue.java`) is module
  `FineGrainedHeap`, class `Heap`. It is an array of `MAX_LENGTH + 1` = 101 slots
  with slot 0 unused, and `nextIndex` is the first free slot. Each slot has a value,
  a priority and a tag: EMPTY, AVAILABLE or owned by an inserting thread. The locks
  are erased. The inserting thread's id is the constant `Me`. Between operations the
  heap is ordered and every slot below `nextIndex` is AVAILABLE (`Valid`).
  - `insert` claims slot `nextIndex` and sifts it up.
  - `deleteMin` moves the root to the last slot, marks it EMPTY and sifts the new
    root down.
  - `verify` checks parent/child pairs.
- **The sequential max-heap** (`src/SequentialPriorityQueue.java`) is module
  `SequentialHeap`, class `PriorityQueue`, over a growable list of nodes.
  - The constructor puts a sentinel node (value 42, priority 1) in the list.
  - The parent of `i` is `i / 2`, and its children are `2i` and `2i + 1`.
  - `remove` reads both children with no bounds check. The
    `IndexOutOfBoundsException` this causes is the explicit `IndexOutOfBounds`
    result.
- **The sequential skip list** (`src/SequentialSkipList.java`) is module
  `SequentialSkipList`, class `SkipList`, over quad-linked nodes (up, down, left,
  right).
  - The nodes live in an arena (module `SkipListNodes`): a node is an integer handle,
    and each node field is a sequence indexed by handle.
  - Ghost state records the handles of each level from head sentinel to tail
    sentinel. The invariant `ListWf` ties every link to that view.
  - The abstract contents are each level's entries (`Levels`, via module
    `SkipListEntries`) and the map they stand for (`Entries`, the bottom level).
  - The sentinels carry `Integer.MIN_VALUE` and `Integer.MAX_VALUE`, and keys are
    Java `int`s (`Int32`). A dereference of a null link is the result
    `NullPointer`. This happens for key `MAX_VALUE` in `find`, for key `MIN_VALUE`
    in `remove`, and for `deleteMin` on an empty list.
  - The coin flips of `insert` are a parameter (`flips`).

## Model

| member | source | states |
|---|---|---|
| FineGrainedHeap.PrioritiesExtend | FineGrainedPriorityQueue.java:44-48 | occupying slot n adds its priority to the heap's multiset |
| FineGrainedHeap.PrioritiesUpdate | FineGrainedPriorityQueue.java:46-47 | overwriting an occupied slot replaces its priority in the multiset; any other slot leaves it unchanged |
| FineGrainedHeap.PrioritiesSwap | FineGrainedPriorityQueue.java:161-171 | swapping two occupied slots keeps the multiset of priorities |
| FineGrainedHeap.Occupied | FineGrainedPriorityQueue.java:178 | in a settled heap a slot's tag is not EMPTY exactly when it lies in 1..nextIndex-1 |
| FineGrainedHeap.RootIsMin | FineGrainedPriorityQueue.java:92-107 | in an ordered heap the root's priority is at most every occupied slot's |
| FineGrainedHeap.RootIsMinimum | FineGrainedPriorityQueue.java:107 | the root's priority is the minimum of the heap's multiset |
| FineGrainedHeap.ClimbStart | FineGrainedPriorityQueue.java:44-48 | stamping slot nextIndex with the priority and the owner tag starts a sift-up and adds the priority to the multiset |
| FineGrainedHeap.ClimbSwap | FineGrainedPriorityQueue.java:59-64 | swapping the climbing slot with a larger AVAILABLE parent keeps the sift-up invariant one level higher, with the same multiset |
| FineGrainedHeap.ClimbSettle | FineGrainedPriorityQueue.java:66-68 | marking the climbing slot AVAILABLE when its parent is not larger, or when it is the root, restores the heap invariant |
| FineGrainedHeap.RootToLast | FineGrainedPriorityQueue.java:105-111 | after the root/last swap the last slot holds the old root, tagged EMPTY |
| FineGrainedHeap.RootToLastPriorities | FineGrainedPriorityQueue.java:105-111 | the root/last swap removes exactly the root's priority from the multiset |
| FineGrainedHeap.RootToLastSingle | FineGrainedPriorityQueue.java:114-118 | deleting from a one-element heap leaves a settled empty heap |
| FineGrainedHeap.RootToLastSinks | FineGrainedPriorityQueue.java:120-123 | otherwise the new root is AVAILABLE and only it may be out of order with its children |
| FineGrainedHeap.SinkSwap | FineGrainedPriorityQueue.java:125-149 | swapping the sinking slot with its smaller occupied child keeps the sift-down invariant one level lower, with the same multiset |
| FineGrainedHeap.SinkStop | FineGrainedPriorityQueue.java:129-153 | when no occupied child is smaller, the heap is settled |
| FineGrainedHeap.SinkFromSettles | FineGrainedPriorityQueue.java:123-154 | the walk `SinkFrom` (stop at an EMPTY left child; choose the left child when the right is EMPTY or the left is strictly smaller, else the right; swap only with a strictly smaller, non-EMPTY child) ends settled from any sift-down state, with the same priorities and slot nextIndex untouched |
| FineGrainedHeap.SinkFromTie | FineGrainedPriorityQueue.java:134-143 | on equal children the sinking entry goes right: 5 above two 1s ends in slot 3 |
| FineGrainedHeap.OrderedPassesVerify | FineGrainedPriorityQueue.java:205-215 | an ordered heap passes `verify` |
| FineGrainedHeap.VerifyIgnoresLastSlot | FineGrainedPriorityQueue.java:207 | `verify` never reads slot nextIndex-1: changing it does not change the answer |
| FineGrainedHeap.VerifyMissesDisorder | FineGrainedPriorityQueue.java:205-215 | a two-element heap whose root is larger than its child still passes `verify`, so `verify` does not imply order |
| FineGrainedHeap.Heap.constructor | FineGrainedPriorityQueue.java:23-30 | every slot holds an EMPTY node, nextIndex is 1, and the heap is valid and empty |
| FineGrainedHeap.Heap.SwapNodes | FineGrainedPriorityQueue.java:161-171 | the two slots exchange value, priority and tag, and nothing else changes |
| FineGrainedHeap.Heap.Insert | FineGrainedPriorityQueue.java:33-90 | fails exactly when nextIndex*2+1 reaches the array length, changing nothing; otherwise nextIndex grows by one, the priority joins the multiset and the heap stays valid |
| FineGrainedHeap.Heap.SiftUp | FineGrainedPriorityQueue.java:51-87 | from any sift-up state, the loop ends settled with the same multiset |
| FineGrainedHeap.Heap.DeleteMin | FineGrainedPriorityQueue.java:93-158 | on an empty heap returns null and changes nothing; otherwise returns the root's priority, which is the minimum, shrinks nextIndex by one, leaves the old root EMPTY in the freed slot, removes one copy of the priority and keeps the heap valid |
| FineGrainedHeap.Heap.SiftDown | FineGrainedPriorityQueue.java:120-155 | the array ends exactly as `SinkFrom` from the root says, hence settled with the same multiset and without touching slot nextIndex |
| FineGrainedHeap.Heap.Verify | FineGrainedPriorityQueue.java:205-215 | the loop answers exactly `VerifyPasses`: the three comparisons of `PairsInOrderAt` at every i of the loop range; it answers true on every ordered heap |
| SequentialHeap.Parent | src/SequentialPriorityQueue.java:102 | the parent of an index is no larger than it, and strictly smaller from 1 on |
| SequentialHeap.LeftChild | src/SequentialPriorityQueue.java:103 | the parent of i's left child is i |
| SequentialHeap.RightChild | src/SequentialPriorityQueue.java:104 | the right child follows the left child and also has parent i |
| SequentialHeap.RootIsMax | src/SequentialPriorityQueue.java:44-50 | in a max-heap the first entry has the highest priority |
| SequentialHeap.AppendOrderedExceptUp | src/SequentialPriorityQueue.java:27-30 | appending a node to a max-heap breaks order only between it and its ancestors |
| SequentialHeap.SiftUpStep | src/SequentialPriorityQueue.java:32-40 | swapping the new node with a lower-priority parent moves the one disorder up one level |
| SequentialHeap.SiftUpDone | src/SequentialPriorityQueue.java:32 | when the new node is at index 0 or its parent is not lower, the list is a max-heap |
| SequentialHeap.LastToRootOrderedExceptDown | src/SequentialPriorityQueue.java:50-52 | moving the last node to the front of a max-heap breaks order only below the root |
| SequentialHeap.SwapMultiset | src/SequentialPriorityQueue.java:63-76 | a swap keeps the nodes |
| SequentialHeap.LastToRootMultiset | src/SequentialPriorityQueue.java:50-52 | moving the last node to the front and dropping the end removes exactly the old front node |
| SequentialHeap.SiftDownStep | src/SequentialPriorityQueue.java:60-81 | swapping the sinking node with a child that is strictly higher than it and no lower than its sibling moves the one disorder down one level (on a tie either child qualifies; `Sink` fixes the left one) |
| SequentialHeap.SiftDownDone | src/SequentialPriorityQueue.java:60 | when neither child has higher priority, the list is a max-heap |
| SequentialHeap.ClimbResult | src/SequentialPriorityQueue.java:29-41 | the climb `Climb` (swap with the parent while the parent is strictly lower) keeps the nodes and turns an order broken only above the new node into a max-heap |
| SequentialHeap.SinkResult | src/SequentialPriorityQueue.java:55-82 | the walk `Sink` (throw when the right child slot is past the end; stop when neither child is strictly higher; otherwise swap with the strictly higher child, the left one on a tie) keeps the nodes, leaves the sinking node at the slot it ends in, completes exactly when that slot has both children and neither is higher, and turns a disorder only below the start into a max-heap when it completes |
| SequentialHeap.LastToFront | src/SequentialPriorityQueue.java:50-52 | moving the last node to the front and dropping the last slot removes exactly the old front node, and leaves a max-heap out of order only below the front |
| SequentialHeap.SinkWalkExample | src/SequentialPriorityQueue.java:60-81 | from 7, 18, 10, 16, 8, 2, 4, 6 the sinking 7 swaps with 18, then with 16, and completes at slot 3 above 4 and 6 |
| SequentialHeap.SinkReturnsExample | src/SequentialPriorityQueue.java:45-85 | on the max-heap 20, 18, 10, 16, 8, 2, 4, 6, 7 the moved 7 ends at slot 3, whose children are lower, so `remove` returns |
| SequentialHeap.SinkThrowsExample | src/SequentialPriorityQueue.java:45-85 | on the max-heap 3, 2, 1 the moved 1 ends at slot 1, which has no right child, so `remove` throws |
| SequentialHeap.PriorityQueue.constructor | src/SequentialPriorityQueue.java:13-16 | the list holds only the sentinel node, and that is a max-heap |
| SequentialHeap.PriorityQueue.Insert | src/SequentialPriorityQueue.java:19-42 | an empty list becomes the new node alone; otherwise the list is exactly what `Climb` makes of it with the node appended, so it gains exactly the new node and a max-heap stays a max-heap |
| SequentialHeap.PriorityQueue.Remove | src/SequentialPriorityQueue.java:45-85 | an empty list yields null; otherwise the list, the resting slot `stop` and whether the call returns are exactly what `Sink` gives from slot 0 after the last node is moved to the front. So the front node is dropped and the rest kept, the call returns exactly when `stop` has both children, neither of higher priority, and throws IndexOutOfBounds otherwise (always for one or two nodes), and a normal return yields the front value and keeps a max-heap a max-heap |
| SequentialHeap.PriorityQueue.LastToRoot | src/SequentialPriorityQueue.java:50-52 | the list becomes `LastToFront` of the old one: it loses exactly its front node, and a max-heap is left out of order only below the front |
| SequentialHeap.PriorityQueue.SiftDown | src/SequentialPriorityQueue.java:55-82 | the loop ends exactly as `Sink` from slot 0 says: the nodes are kept, the root node rests at slot `stop` with the disorder only below it, the loop completes exactly when `stop` has both children, neither of them higher, and a root-only disorder then becomes a max-heap |
| SkipListEntries.Lookup | src/SequentialSkipList.java:56-62 | a found value is stored under the key; no value means no entry has the key |
| SkipListEntries.InsertSorted | src/SequentialSkipList.java:75-81 | one entry more: the old ones and the new one |
| SkipListEntries.Delete | src/SequentialSkipList.java:132-146 | no entry with the key is left, and the result is no longer than the input |
| SkipListEntries.DeleteMembers | src/SequentialSkipList.java:132-146 | the result holds exactly the entries whose key is not k: none with k is left, none is added, none other is lost |
| SkipListEntries.InsertSortedAt | src/SequentialSkipList.java:75-81 | in an increasing list, inserting lands the entry right after the smaller keys |
| SkipListEntries.DeleteAt | src/SequentialSkipList.java:138-143 | in an increasing list, deleting a present key drops exactly its position |
| SkipListEntries.DeleteAbsent | src/SequentialSkipList.java:132-146 | deleting an absent key changes nothing |
| SkipListEntries.IncreasingTail | src/SequentialSkipList.java:164-168 | the tail of an increasing list is increasing, and its first key is the smallest |
| SkipListEntries.IncreasingCons | src/SequentialSkipList.java:75-81 | a smaller key in front keeps a list increasing |
| SkipListEntries.InsertSortedIncreasing | src/SequentialSkipList.java:65-129 | inserting a new key keeps a level increasing |
| SkipListEntries.DeleteIncreasing | src/SequentialSkipList.java:132-146 | deleting keeps a level increasing and adds no entry |
| SkipListEntries.LookupInsertSorted | src/SequentialSkipList.java:65-129 | after an insert, get finds the new value under its key and the old answers elsewhere |
| SkipListEntries.LookupDelete | src/SequentialSkipList.java:132-146 | after a remove, get finds nothing under the key and the old answers elsewhere |
| SkipListEntries.DeleteInsertSorted | src/SequentialSkipList.java:65-146 | removing a key just inserted gives back the list from before the insert |
| SkipListEntries.LookupAt | src/SequentialSkipList.java:56-62 | in an increasing list, a key's lookup yields the value at its position |
| SkipListNodes.LevelEntries | src/SequentialSkipList.java:17-33 | a level of n nodes stands for n - 2 entries, one per node between the sentinels |
| SkipListNodes.Sorted | src/SequentialSkipList.java:36-53 | keys strictly increase along every level |
| SkipListNodes.KeyBounds | src/SequentialSkipList.java:17-33 | every key lies in the int range, and strictly inside it between the sentinels |
| SkipListNodes.NewNode | src/SequentialSkipList.java:156-160 | `new Node(k, v)` (`Arena.New`) adds one node with key k, value v and null links, and leaves every existing node alone |
| SkipListNodes.Locate | src/SequentialSkipList.java:47-49 | a linked node sits at some position of the level it claims |
| SkipListNodes.HeadsStacked | src/SequentialSkipList.java:89-107 | the head sentinels form a column: each points down to the one below, which points back up |
| SkipListNodes.HeadDown | src/SequentialSkipList.java:164-168 | going down from a head reaches the head of the level below, and null from the bottom head |
| SkipListNodes.StackLinks | src/SequentialSkipList.java:89-107 | `Stack`: the new MIN_VALUE and MAX_VALUE sentinels point at each other and down at the old head and tail, whose up links reach them; nothing else changes |
| SkipListNodes.LevelIncreasing | src/SequentialSkipList.java:75-81 | each level's entries are in strictly increasing key order |
| SkipListNodes.LevelLookup | src/SequentialSkipList.java:56-62 | when node j's key is at most k and its right neighbour's is greater, looking k up in the level finds node j's value exactly when node j carries k |
| SkipListNodes.StackWf | src/SequentialSkipList.java:89-107 | a new top level of two sentinels, linked to the old head and tail, keeps every node well formed |
| SkipListNodes.StackListWf | src/SequentialSkipList.java:89-107 | adding a top level keeps the list invariant and adds an empty level |
| SkipListNodes.AttachLinks | src/SequentialSkipList.java:75-121 | `Attach`, which `Spliced` applies to a fresh node: the node sits between p and p's old right neighbour, which both point at it, and stands on `below`, whose up link comes back; no other link changes |
| SkipListNodes.SpliceEntries | src/SequentialSkipList.java:75-123 | splicing a node of a new key between its neighbours inserts its entry into that level's entries |
| SkipListNodes.SpliceListWf | src/SequentialSkipList.java:75-123 | the splice, including the up/down links of an upper tower node, keeps the list invariant and changes only that level's entries |
| SkipListNodes.InsertKeepsTop | src/SequentialSkipList.java:114-123 | a splice keeps the top level's sentinels as head and tail |
| SkipListNodes.UnhookEntries | src/SequentialSkipList.java:138-143 | unlinking a key's node from its neighbours deletes the key from that level's entries |
| SkipListNodes.UnhookAbsent | src/SequentialSkipList.java:138-143 | after unlinking, the level no longer holds the key and the other levels' entries are unchanged |
| SkipListNodes.UnhookListWf | src/SequentialSkipList.java:138-143 | unlinking one node of a column keeps the list invariant, allowing the node above it to point down at the removed node |
| SkipListNodes.RemoveKeepsTop | src/SequentialSkipList.java:138-143 | unlinking keeps the top level's sentinels as head and tail |
| SkipListNodes.UnhookLinks | src/SequentialSkipList.java:139-142 | `Unhook`: p's neighbours point at each other, p keeps all its own links (so `p.up` still climbs the column), and no key, value, up or down link changes |
| SkipListNodes.LevelBetween | src/SequentialSkipList.java:133-134 | when find's node has a smaller key than k, the bottom level holds no k |
| SkipListNodes.AbsentAbove | src/SequentialSkipList.java:132-146 | a key missing from the bottom level is missing from every level |
| SkipListNodes.AbsentLevels | src/SequentialSkipList.java:134 | a key missing from the bottom level leaves every level unchanged by deletion |
| SkipListNodes.ColumnTop | src/SequentialSkipList.java:142 | a column's node with a null up link is its top: no higher level holds the key |
| SkipListNodes.ColumnNext | src/SequentialSkipList.java:142 | a column's up link leads to the key's node on the next level, or is null when no higher level holds the key |
| SkipListNodes.GapAtBottom | src/SequentialSkipList.java:136-138 | the list invariant holds in its relaxed form before the column is unlinked |
| SkipListNodes.GapClosed | src/SequentialSkipList.java:138-143 | once the column is gone, the relaxed invariant is the full one |
| SkipListNodes.ClimbTarget | src/SequentialSkipList.java:110-111 | walking left to the nearest node with an up link and climbing it reaches the node on the next level that the new tower node goes after |
| SkipListNodes.BottomSplice | src/SequentialSkipList.java:72-81 | find's node and its right neighbour bracket a new key, so the bottom-level splice is legal |
| SkipListNodes.InitialWf | src/SequentialSkipList.java:17-33 | `Initial`, the two sentinels MIN_VALUE and MAX_VALUE linked to each other, is a well-formed list whose one level is empty |
| SkipListNodes.AbsentFrom | src/SequentialSkipList.java:138-143 | levels that no longer hold the key are unchanged by deleting it |
| SequentialSkipList.LeadingTrues | src/SequentialSkipList.java:87-88 | the tower grows at most once per coin flip |
| SequentialSkipList.LeadingTruesRun | src/SequentialSkipList.java:87-88 | the counted flips are all true, and the next flip, if there is one, is false |
| SequentialSkipList.WithRoom | src/SequentialSkipList.java:89-107 | a level is added only when the tower has outgrown the list |
| SequentialSkipList.Grown | src/SequentialSkipList.java:89-123 | one more tower level needs at most one new list level |
| SequentialSkipList.Towered | src/SequentialSkipList.java:65-129 | after a tower of height t the list has max(old height, t + 1) levels |
| SequentialSkipList.ToweredLevels | src/SequentialSkipList.java:65-129 | levels 0 to t hold the new entry besides their old entries, and the levels above are unchanged |
| SequentialSkipList.ToweredBottom | src/SequentialSkipList.java:75-81 | whatever the tower's height, the bottom level gains the entry |
| SequentialSkipList.Unlinked | src/SequentialSkipList.java:138-143 | unlinking never changes the number of levels |
| SequentialSkipList.UnlinkedLevels | src/SequentialSkipList.java:138-143 | after n column steps the levels below n have lost the key, and the others are unchanged |
| SequentialSkipList.UnlinkedAll | src/SequentialSkipList.java:138-143 | when the higher levels never held the key, every level has lost it |
| SequentialSkipList.SkipList.Entries | src/SequentialSkipList.java:17-33 | the bottom level's entries are in strictly increasing key order |
| SequentialSkipList.SkipList.constructor | src/SequentialSkipList.java:17-33 | one level with only the two sentinels: no entries, height 0 |
| SequentialSkipList.SkipList.Find | src/SequentialSkipList.java:36-53 | fails exactly for MAX_VALUE; otherwise returns the bottom node with the largest key at most k |
| SequentialSkipList.SkipList.Get | src/SequentialSkipList.java:56-62 | fails exactly for MAX_VALUE; otherwise the value of k in the map, or none |
| SequentialSkipList.SkipList.AddLevel | src/SequentialSkipList.java:89-107 | two fresh sentinels stacked on the old head and tail become the new top level, which is empty, and the invariant is kept |
| SequentialSkipList.SkipList.SpliceAfter | src/SequentialSkipList.java:75-123 | a fresh node right after p: its level gains the entry and the invariant is kept |
| SequentialSkipList.SkipList.ClimbLeft | src/SequentialSkipList.java:110-111 | reaches the node on the next level that the tower's next node must follow |
| SequentialSkipList.SkipList.MakeRoom | src/SequentialSkipList.java:89-107 | a new top level only when the tower has reached the top |
| SequentialSkipList.SkipList.GrowTower | src/SequentialSkipList.java:88-123 | one iteration of the coin loop: the entry joins the next level up, adding a top level if needed |
| SequentialSkipList.SkipList.BuildTower | src/SequentialSkipList.java:87-125 | the tower grows once per leading true flip, and the levels are those of `Towered` |
| SequentialSkipList.SkipList.Insert | src/SequentialSkipList.java:65-129 | fails exactly for MAX_VALUE; returns false, changing nothing, exactly when k is MIN_VALUE or already a key; otherwise the map gains the entry in key order, numEntries grows by one, and the tower and height follow the flips |
| SequentialSkipList.SkipList.AddEntry | src/SequentialSkipList.java:75-127 | splice, tower and count of a new key |
| SequentialSkipList.SkipList.UnlinkNode | src/SequentialSkipList.java:139-142 | one iteration of the column loop: the node leaves its level, whose entries lose the key, and the node above it is returned |
| SequentialSkipList.SkipList.Remove | src/SequentialSkipList.java:132-146 | fails exactly for MIN_VALUE and MAX_VALUE; returns the key's old value, or none, changing nothing, when it is absent; deletes the key from every level; numEntries unchanged |
| SequentialSkipList.SkipList.UnlinkColumn | src/SequentialSkipList.java:138-143 | the loop unlinks the whole column: every level loses the key, and the invariant is restored |
| SequentialSkipList.SkipList.GetMinKey | src/SequentialSkipList.java:164-168 | the first key of the map, or MAX_VALUE when the map is empty |
| SequentialSkipList.SkipList.DeleteMin | src/SequentialSkipList.java:171-173 | fails exactly on an empty list, changing nothing; otherwise returns the smallest entry's value, drops that entry from the map and its key from every level; head, tail, height and numEntries are kept |

## Left out

- Locks, `ReentrantLock` and threads. Each operation runs alone. The thread id that
  tags a slot being inserted is the constant `Me`.
- In `FineGrainedPriorityQueue.insert`, the branches for another thread's activity
  cannot be reached when operations run one at a time: the chase of a moved node
  (lines 75-77), the EMPTY parent (lines 71-73) and the wait on a parent that is
  neither AVAILABLE nor EMPTY. The model does not run them: it proves `assert false`
  in that branch from the loop invariant.
- FineGrainedHeap.Heap.Insert: the `value` argument is never stored, as in the
  source, which writes only the priority and the tag. `deleteMin` returns the
  priority, as the code does.
- `java.util.Random` in `SequentialSkipList.insert` is replaced by the `flips`
  parameter. Running out of flips ends the tower as a false flip would.
- Java object references in the skip list are integer handles into an arena. Null
  is `-1`. Nodes are never freed.
- `SequentialSkipList.remove` does not decrement `numEntries` and never lowers the
  height or removes empty levels. The model does the same.
- Java `int` overflow: skip-list keys are range-checked `Int32`. `numEntries` and
  the priorities are unbounded integers. No priority arithmetic occurs, and the
  count overflowing 2^31 is not modelled.
- SiftDownStep: covers a swap with either child on a tie. Which child `remove`
  picks (the left one on a tie, lines 62-77) is fixed by `Sink`, not by this lemma.
- `toString` and `System.out.println` are left out.
- `LockFreePriorityQueue.java`, `src/LockFreeSkipList.java` and `TestMain.java` are
  not part of this model.
