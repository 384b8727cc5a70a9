# Verified models of the data structure and synchronization modules

This project models the algorithmic core of the C repository in Dafny and proves what it
promises. `dafny verify dfyconfig.toml` checks everything.

- **Buddy allocator** (`Buddy*.dfy`, `Powers.dfy`, `Lists.dfy`). Bit mask and free lists of
  `src/allocator/buddy.c`, with the number of orders left as an arbitrary `D`. A ghost tree of
  free, used and split blocks is what mask and lists are two encodings of. The invariant is that
  this tree is fully merged. The free loop decides from the mask alone that a buddy is free;
  `StatusFreeIffOnList` shows that this is right because the merging is complete everywhere but
  at the block being freed.
- **Graph** (`Graph.dfy`, `BellmanFord.dfy`, `Queue.dfy`, `Levels.dfy`, `CycleCount.dfy`,
  `Cycles.dfy`). The loops work on the same arrays as the C code and are proved against walks,
  balls of reachable nodes and sets of cycles.
- **Concurrency** (`Rcu.dfy`, `RcuHistory.dfy`, `RcuGrace.dfy`,
  `RcuRuns.dfy`, `Barrier.dfy`, `RwLock.dfy`). Step systems, one shared memory access
  per step, any number of threads, every interleaving; weak compare-and-exchange may fail
  spuriously (section 7.17.7.4 of ISO/IEC 9899:2011). The results are about every run
  and, where a call returns, about what its caller can see: calls, returns and events.
- **Trees** (`AvlSpec.dfy`, `AvlTree.dfy`, `RadixState.dfy`, `RadixOps.dfy`, `RadixCompact.dfy`,
  `RadixTree.dfy`, `RadixRuns.dfy`, `Traversals.dfy`, `RebuildSpec.dfy`, `RebuildEnding.dfy`, `TreeRebuild.dfy`). Nodes on
  the heap are proved to compute functions on values; the theorems are about those values.
- **Loop detection** (`LoopDetect.dfy`) on an arbitrary finite graph of list nodes.
- **Slab allocator** (`SlabLayout.dfy`, `SlabState.dfy`, `SlabAllocator.dfy`, `SlabRuns.dfy`).

Modelling choices:

- A bit mask is the set of its bit numbers. The buddy mask uses numbers below `2^(D+1) - 1`
  (`BitRange`), at most 64 for the shipped configuration, so the 8-bit indices do not wrap. The
  slab bitmap is one word, because at most 63 objects fit a slab (`OneWord`).
- An intrusive list is the sequence of its members. `kdlist_delete` takes a member out of the list
  that holds it.
- Addresses are natural numbers; `__addr_2_slab` finds a slab by its page address. What
  `posix_memalign` returns is a parameter: an aligned page that no slab occupies.
- Buddy blocks are named by order and index; `Ptr` gives the address. `buddy_alloc` computes in
  32 bits: sizes above `2^32 - 4096` wrap to zero pages and are refused (`OrderIsLeast`).
- Distances are 32-bit integers with `INT_MAX` as the sentinel; that no sum leaves the range for 50
  nodes and 8-bit weights is part of the proof. The distances, which the C code only prints,
  are returned.
- C strings are sequences of non-zero bytes; the `NULL` prefix of the radix root is the empty
  sequence, which no other node has (`ChildOf`, `RootHasNoPrefix`). Data are integers.
- The rebuild is modelled for any two arrays and any depth of the stack; the three ways in which it
  can fail to return are outcomes of the model.
- Where the source stops with an assertion, the model returns a flag and changes nothing. A red zone
  is the set of addresses at which its magic word stands; callers may overwrite it.
- RCU histories (`retired`, `snap`, `quiesced`) record which pointers were replaced and waited for.
  They decide nothing in a step. A pointer that is published again leaves them.
- A step of a lock or barrier is one atomic operation; memory is sequentially consistent.

Properties that hold only under a condition, with the condition:

- `slab_cache_create` accepts sizes up to 4032, but an object fits exactly for sizes up to 4024
  (`SlabLayout.OneWord`); on a cache of the other sizes every allocation is refused.
- The range test of `buddy_free` accepts the address one past the region. It is taken for a block
  exactly if some block other than the whole region is allocated at the start of the region
  (`EndAddress`), which happens (`EndAddressReached`); then the bit of that block is cleared and an
  address outside the region is queued, which no tree of blocks has (`EndFreeBreaks`).
- `avl_tree_delete` takes the NULL of an emptied tree for an error: it returns 0 and removes
  exactly the key if and only if the tree is neither empty nor the single node holding the key
  (`AvlTree.AvlEntry.Delete`). In the second case it frees that node and leaves the root pointing at it.
- `rwlock_write_trylock` counts itself as a waiting writer before it looks for one, so it never acquires
  the lock (`RwLock.WriteTryLockFails`).
- `rcu_register_thread` does not count: its store stays inside the array exactly while fewer than 64
  threads are registered (`Rcu.AccessesInRange`), and with more than 64 threads a run reaches a store
  outside (`RcuRuns.RegistrationOverruns`). A modelled run ends there.
- A removal merges each node on its path once. Some node on the path can still be merged afterwards
  exactly if the parent of a removed leaf took over a child that could itself be merged, or if the key's
  node only lost its data and is the only child of a parent without data (`RadixCompact.Exempt`,
  `RadixTree.RadixMap.Remove`).
- `radix_tree_is_empty` is true exactly if the root is the only node; then no key is stored. The
  converse fails when empty nodes are left below the root, which happens
  (`RadixRuns.EmptyNodesReached`).
- `binary_tree_by_traversals` lets repeated labels through. One fill stays inside its array exactly
  if it meets at most `in_len` pairs of equal labels (`LeftLevelOrder`, `RightLevelOrder`), which
  fails for [1, 1, 2] with [2, 1, 1] (`OverrunExample`). The root is missing exactly if the first
  level-order element is not in the in-order sequence (`NoRootExactly`, `NoRootExample`). With a root and
  the array bounds aside, the recursion ends if and only if every label with three or more places in the
  in-order sequence is the root and occurs once in the level order (`EndsExactly`, `EndlessExample`);
  otherwise no stack is enough (`ReturnsExactly`). Distinct in-order labels are enough to rule all three
  failures out (`DistinctBuilds`); they are not necessary (`RepeatedBuilds`).
- `graph_node_level` stays inside its arrays exactly if the graph has a node (`Levels.NodeLevel`).
- A pointer run by `rcu_cleanup` is unreachable if a finished `rcu_synchronize` of any thread
  covered it and it was not published since (`Rcu.CleanupSafe`); callbacks queued later are not
  covered.

## Model

| member | source | states |
|---|---|---|
| Buddy.OrderIsLeast | include/allocator/buddy.h:59-61 | The order computed for a size is the least whose block holds it; zero and wrapping sizes give 32, above every order |
| BuddyAddress.BuddyOfBlock | src/allocator/buddy.c:23-31 | Flipping the size bit of a block's offset gives its sibling in the tree |
| BuddyAddress.BlockInLevel | src/allocator/buddy.c:33-57 | Index, bit and alignment test invert the address of a block at its level |
| BuddyAddress.BitInjective | src/allocator/buddy.c:41-45 | Different blocks have different mask bits |
| BuddyAddress.BitRange | src/allocator/buddy.c:41-45 | Mask bits stay below 2^(D+1) - 1 |
| BuddyAddress.SplitTest | src/allocator/buddy.c:62-71 | The recursive test on mask bits finds out whether any block below a node is allocated |
| BuddyAddress.MaskUnique | src/allocator/buddy.c:80-89 | A tree of blocks has one mask |
| Buddy.StatusFreeIffOnList | src/allocator/buddy.c:235-271 | While a block is being merged, the mask alone says "free" for its buddy exactly if the buddy is an entry of that order's free list |
| BuddyTree.NoTwoFreeBuddies | src/allocator/buddy.c:235-271 | In a merged tree no two buddies of one order are both free |
| BuddyTree.MergeCoalescedBut | src/allocator/buddy.c:235-271 | One round of the merge loop moves the only possible unmerged place up one order |
| BuddyTree.SplitCoalescedBut | src/allocator/buddy.c:152-175 | One round of the split loop keeps the tree merged except at the half to be allocated |
| BuddyTree.Canonical | src/allocator/buddy.c:211-275 | A fully merged tree is determined by its allocated blocks |
| BuddyTree.NoRoom | src/allocator/buddy.c:140-180 | If no block of the order or above is free around an aligned run of pages, some page of the run is allocated |
| BuddyTree.LeafUnique | src/allocator/buddy.c:121-192 | A page lies in one leaf block only |
| BuddyState.PutSplitBlocks | src/allocator/buddy.c:157-166 | Splitting replaces a free block by its two halves and changes no other free or allocated block |
| BuddyState.PutMergeBlocks | src/allocator/buddy.c:253-263 | Merging replaces two free buddies by their parent and changes nothing else |
| BuddyLists.SecondHalfIsBuddy | src/allocator/buddy.c:152-160 | Splitting a block queues it and the block that starts after its first half |
| Buddy.BuddyAllocator.constructor | src/allocator/buddy.c:283-327 | One free block of the highest order, nothing allocated |
| Buddy.BuddyAllocator.PopHead | src/list/kdoubly_linked_list.c:90-104 | The head leaves the list, or nothing happens |
| Buddy.BuddyAllocator.PushTail | src/list/kdoubly_linked_list.c:158-173 | The block is appended |
| Buddy.BuddyAllocator.Delete | src/list/kdoubly_linked_list.c:194-198 | A block that is on the list is unlinked |
| Buddy.BuddyAllocator.SplitBlock | src/allocator/buddy.c:157-166 | One split: the two halves join the lists of the order below, and nothing else changes |
| Buddy.BuddyAllocator.MarkAllocated | src/allocator/buddy.c:182-188 | Setting the bit restores the invariant with the block allocated |
| Buddy.BuddyAllocator.BlkAlloc | src/allocator/buddy.c:121-192 | NULL, with nothing changed, exactly if every aligned run of that many pages contains an allocated page; otherwise such a run becomes the one new block. It is the head of the least list that is not empty, and the second halves split off are all that joins a list |
| Buddy.BuddyAllocator.MarkFree | src/allocator/buddy.c:219-230 | Clearing the bit and queueing the block leaves a tree merged everywhere but at that block |
| Buddy.BuddyAllocator.MergeBlocks | src/allocator/buddy.c:253-263 | Unlinking two free buddies and queueing the parent keeps lists and mask in step |
| Buddy.BuddyAllocator.BlkFree | src/allocator/buddy.c:211-275 | An allocated block is freed, the tree is fully merged again and no other allocated block changes. The buddies merged leave their lists, the merged block is the last of its list, and every other list keeps its order |
| Buddy.BuddyAllocator.BuddyAlloc | src/allocator/buddy.c:337-353 | Refused sizes give NULL; otherwise the least fitting order is used, NULL means that no aligned run of pages is left, and a block is the head of the least list that is not empty |
| Buddy.BuddyAllocator.IsAllocatedInLevel | src/allocator/buddy.c:384-389 | The level test: the address is aligned in the level and its bit is set |
| Buddy.BuddyAllocator.HitBlock | src/allocator/buddy.c:383-391 | An address at which the level test hits is the start of an allocated block of that level |
| Buddy.BuddyAllocator.BuddyFree | src/allocator/buddy.c:367-398 | Succeeds exactly on the start of an allocated block, which is then the only one gone; otherwise nothing changes. On the address one past the region this holds while no smaller block starts the region |
| Buddy.BuddyAllocator.Partition | src/allocator/buddy.c:121-275 | Every page lies in exactly one free-list or mask block, never in both |
| Buddy.BuddyAllocator.FreeListEntries | src/allocator/buddy.c:235-271 | Free-list entries are size-aligned blocks inside the region and a block's buddy is not on the same list |
| Buddy.BuddyAllocator.StartUnique | src/allocator/buddy.c:383-391 | Two allocated blocks never start at one address |
| Buddy.BuddyAllocator.NothingLive | src/allocator/buddy.c:211-275 | With nothing allocated the mask is empty and the single top block is free |
| Buddy.BuddyAllocator.EndAddress | src/allocator/buddy.c:367-398 | The exact condition under which the address one past the region is taken for a block |
| Buddy.BuddyAllocator.EndFreeBreaks | src/allocator/buddy.c:222-230 | Freeing that address when it is taken for a block clears the bit of another block and leaves lists that no tree of blocks has |
| Buddy.CanonicalState | src/allocator/buddy.c:211-275 | Mask and free sets are a function of the allocated blocks |
| BuddyRuns.AllocThenFree | src/allocator/buddy.c:337-398 | Allocating and freeing the result restores the mask and every free set |
| BuddyRuns.FreeAll | src/allocator/buddy.c:211-398 | Freeing all blocks in any order succeeds and restores the single top block |
| BuddyRuns.EndAddressReached | src/allocator/buddy.c:337-398 | With two pages, both allocated, the address one past the region is taken for a block |
| Graph.GraphData.constructor | src/graph/graph.c:26-71 | A graph without edges |
| Graph.GraphData.AddDirectedWedge | src/graph/graph.c:129-138 | One matrix entry is set, or the nodes are refused and nothing changes |
| Graph.GraphData.AddUndirectedWedge | src/graph/graph.c:150-160 | Both entries are set and symmetry is kept |
| BellmanFord.PassCovers | src/graph/graph.c:633-653 | A full in-place pass makes the distances at most the weight of every walk with one more edge |
| BellmanFord.Shorten | src/graph/graph.c:622-653 | Without a reachable negative cycle every walk has one of fewer than n edges that weighs no more |
| BellmanFord.SimpleNegativeCycle | src/graph/graph.c:655-676 | A reachable negative closed walk contains a reachable negative cycle without repeated nodes |
| BellmanFord.SettledCorrect | src/graph/graph.c:651-678 | If no edge lowers a distance there is no reachable negative cycle and the distances are the minima, INT_MAX exactly for unreachable nodes |
| BellmanFord.Detected | src/graph/graph.c:663-676 | If an edge still lowers a distance after n - 1 passes a negative cycle is reachable |
| BellmanFord.RelaxEdges | src/graph/graph.c:634-649 | One pass relaxes every edge in place, keeps every distance the weight of a walk and never overflows |
| BellmanFord.FindUnsettled | src/graph/graph.c:663-678 | Finds out whether an edge still lowers a distance |
| BellmanFord.BellmanFord | src/graph/graph.c:599-690 | A negative cycle is reported exactly if one is reachable; otherwise the distances are the minimum walk weights, or INT_MAX exactly if there is no walk |
| Queue.NodeQueue.Enqueue | src/queue/queue.c:87-100 | Appends, or is full when `size` elements have ever been added |
| Queue.NodeQueue.Dequeue | src/queue/queue.c:109-124 | Takes the oldest element, or reports an empty queue |
| Levels.BallStep | src/graph/graph.c:315-340 | Nodes within k + 1 edges are those within k and their neighbours |
| Levels.BallStops | src/graph/graph.c:315-340 | A level that adds no node is the last |
| Levels.RoomLeft | src/graph/graph.c:330-337 | Each node is enqueued at most once, so the non-circular queue has room for an unvisited one |
| Levels.VisitNeighbours | src/graph/graph.c:329-337 | Enqueues exactly the unvisited neighbours, and never finds the queue full |
| Levels.ExpandNode | src/graph/graph.c:317-338 | Takes the next node of the level and adds its new neighbours to the next level |
| Levels.ExpandLevel | src/graph/graph.c:316-339 | One level of the search ends at the target or has turned the ball of radius k into that of radius k + 1 |
| Levels.NodeLevel | src/graph/graph.c:267-355 | The level is the least number of edges from node 0, or -1 exactly if there is no walk; the first write is outside the array exactly on a graph without nodes |
| CycleCount.CountPaths | src/graph/graph.c:502-540 | The backtracking restores `visited` and adds the number of simple closed paths |
| CycleCount.PathSet | src/graph/graph.c:502-540 | That number is the size of the set of paths through unvisited nodes that close at the source |
| Cycles.CyclesFrom | src/graph/graph.c:552-576 | The total of the starts tried is the number of closed n-vertex sequences that start at their least vertex |
| Cycles.Halve | src/graph/graph.c:566-575 | Reversal pairs those sequences without fixed points, so the total is twice a subset |
| Cycles.ForwardUnique | src/graph/graph.c:572-575 | A cycle as a set of edges has only one sequence in that subset |
| Cycles.ForwardOf | src/graph/graph.c:572-575 | Every cycle as a set of edges has such a sequence |
| Cycles.CountCycles | src/graph/graph.c:552-576 | The total is twice the number of n-cycles |
| Cycles.NLengthCycles | src/graph/graph.c:552-576 | On a symmetric graph and n of at least 3 the result is the number of cycles of n nodes, as long as twice that number fits the 32-bit counter |
| Rcu.StepInv | src/synchronization/rcu.c:82-259 | Every step of every thread keeps the invariant |
| Rcu.RunInv | src/synchronization/rcu.c:82-259 | The invariant holds in every state of every run |
| Rcu.AccessesInRange | src/synchronization/rcu.c:82-259 | Every access stays in range and only the mutex can block a step, but for the store of a registration, which is in range exactly while fewer than 64 threads are registered |
| Rcu.SlotUnique | src/synchronization/rcu.c:82-108 | Two registered threads never share a slot and a slot never changes |
| Rcu.GracePeriod | src/synchronization/rcu.c:179-198 | A pointer that is not published from the start of rcu_synchronize on is held by no reader in any state after it returns; every other pointer may be published any number of times |
| Rcu.SyncReturns | src/synchronization/rcu.c:179-198 | A finished rcu_synchronize covers every pointer that was replaced when it began and not published again while it lasted |
| Rcu.CleanupSafe | src/synchronization/rcu.c:235-259 | A pointer whose callback runs is held by no reader and is not published if any thread's finished rcu_synchronize covered it |
| RcuHistory.CallbacksOnce | src/synchronization/rcu.c:209-259 | Every callback runs as often as it was queued, less the times it is still queued or in the hands of a running rcu_cleanup |
| RcuHistory.CallReturns | src/synchronization/rcu.c:209-226 | A returned rcu_call has queued its pointer, once |
| RcuHistory.CleanupReturns | src/synchronization/rcu.c:235-259 | A returned rcu_cleanup emptied the queue at one moment and ran every callback that was in it, in that order, and no other |
| RcuHistory.QueueOrder | src/synchronization/rcu.c:223-225 | While nobody takes the queue, what is queued goes in front |
| RcuHistory.RegisterReturns | src/synchronization/rcu.c:82-108 | A returned rcu_register_thread has registered the thread and given it its slot |
| RcuHistory.NotAllBlocked | src/synchronization/rcu.c:82-259 | In every reachable state with a thread inside a call some thread inside a call has a step, unless a registration is about to leave the array |
| RcuGrace.PtrIsPublished | src/synchronization/rcu.c:154-157 | The shared pointer is the one published last |
| RcuGrace.CounterIsNesting | src/synchronization/rcu.c:119-142 | The counter of a registered thread is the number of its open read sections |
| RcuGrace.ReadersGone | src/synchronization/rcu.c:119-198 | Once rcu_synchronize has returned, whoever dereferenced a pointer that was not the published one since the call has left its read sections |
| RcuGrace.SyncEnds | src/synchronization/rcu.c:179-198 | A scan that finds every counter zero, while no slot is added, ends the call with its step number 2 * size + 1 |
| RcuGrace.LastScan | src/synchronization/rcu.c:179-198 | A returned rcu_synchronize ended with a scan of all slots from the first in which every counter was zero |
| RcuRuns.RegistrationOverruns | src/synchronization/rcu.c:82-108 | With more than 64 threads a run reaches a registration whose store is out of range |
| Barrier.StepInv | src/synchronization/barrier.c:60-79 | Every atomic operation keeps the invariant |
| Barrier.RunInv | src/synchronization/barrier.c:60-79 | The invariant holds in every state of every run |
| Barrier.NoEarlyLeave | src/synchronization/barrier.c:60-79 | Nobody returns from the n-th call before everybody has begun the n-th call, and nobody is more than one call ahead |
| Barrier.CallSpansPhase | src/synchronization/barrier.c:60-79 | A call that has returned lasted until every other thread had begun its call of that number, and the phase moved on by one |
| Barrier.PhaseEnds | src/synchronization/barrier.c:60-79 | Whenever every thread takes a step more than five times per thread, the phase ends |
| Barrier.EveryCallReturns | src/synchronization/barrier.c:60-79 | Under any schedule in which every thread keeps taking steps, every call returns |
| Barrier.SpinExact | src/synchronization/barrier.c:65-77 | The wrapped state word equals the loaded one exactly while the phase is the thread's own |
| Barrier.NoLostArrival | src/synchronization/barrier.c:68-73 | While the phase is open the count is the number of waiting threads, so the reset loses none |
| Barrier.NotAllSpinning | src/synchronization/barrier.c:60-79 | In every reachable state some thread makes progress |
| RwLock.StepInv | src/synchronization/rwlock.c:58-173 | Every atomic operation, spurious failures included, keeps the invariant |
| RwLock.RunInv | src/synchronization/rwlock.c:58-173 | The invariant holds in every state of every run |
| RwLock.Exclusion | src/synchronization/rwlock.c:58-173 | The count is -1 exactly if one writer and no reader holds the lock, and the number of readers otherwise |
| RwLock.WriterPriority | src/synchronization/rwlock.c:58-135 | While a writer waits a thread acquires for reading only if it was past the check, and once at most |
| RwLock.TryLockOutcome | src/synchronization/rwlock.c:84-100 | A whole read attempt ends holding the lock while no writer holds it, or refused; it is refused only if a writer was waiting or holding during it |
| RwLock.ReadLockReturns | src/synchronization/rwlock.c:58-77 | A returned read lock is held, and no writer holds the lock |
| RwLock.WriteLockReturns | src/synchronization/rwlock.c:119-135 | A returned write lock is held, and nobody else holds the lock |
| RwLock.HeldUntilReleased | src/synchronization/rwlock.c:107-173 | A thread holds the lock until its own next operation, which releases it |
| RwLock.AloneAcquires | src/synchronization/rwlock.c:58-135 | Alone, a reader acquires a lock without writers and a writer a free lock, unless an exchange fails for no reason |
| RwLock.WriteTryLockFails | src/synchronization/rwlock.c:142-163 | An attempt to write never acquires the lock: in every run it ends refused |
| RwLock.NotAllSpinning | src/synchronization/rwlock.c:61-173 | In every reachable state with a thread inside the lock some thread has a step that changes something |
| AvlSpec.BalanceAvl | src/tree/avl_tree.c:178-235 | Balancing two trees that differ by at most two gives an AVL tree whose height grows by at most one |
| AvlSpec.BalanceBst | src/tree/avl_tree.c:178-235 | Balancing keeps the search order |
| AvlSpec.InsertCorrect | src/tree/avl_tree.c:237-262 | Insertion keeps order, stored heights and balance, and adds exactly the key |
| AvlSpec.DeleteCorrect | src/tree/avl_tree.c:264-318 | Deletion, in each of its cases, keeps them and removes exactly the key |
| AvlSpec.DeleteEmpties | src/tree/avl_tree.c:264-318 | Deletion leaves nothing exactly of the empty tree and of the key alone |
| AvlSpec.Insert | src/tree/avl_tree.c:237-262 | The result is an AVL tree and is at most one higher |
| AvlSpec.Delete | src/tree/avl_tree.c:264-318 | The result is an AVL tree and is at most one lower |
| AvlSpec.LookupIsMembership | src/tree/avl_tree.c:320-340 | Lookup is membership in the key set |
| AvlSpec.SizeBound | src/tree/avl_tree.c:178-235 | A tree of height h has at least Fib(h + 2) - 1 nodes |
| AvlSpec.LookupCost | src/tree/avl_tree.c:320-340 | Two to the number of comparisons is at most (n + 1) squared |
| AvlTree.LeftRotate | src/tree/avl_tree.c:122-148 | The rewritten nodes are the left rotation of the tree, heights included |
| AvlTree.RightRotate | src/tree/avl_tree.c:150-176 | The rewritten nodes are the right rotation of the tree |
| AvlTree.Balance | src/tree/avl_tree.c:178-235 | Balancing in place computes the balanced tree |
| AvlTree.InsertNode | src/tree/avl_tree.c:237-262 | Recursive insertion in place computes the inserted tree |
| AvlTree.GetMinNode | src/tree/avl_tree.c:51-57 | The leftmost node holds the least key |
| AvlTree.CopyContent | src/tree/avl_tree.c:90-105 | A node with one child becomes that child |
| AvlTree.DeleteOneChild | src/tree/avl_tree.c:293-302 | A node with one child is replaced by that child and balanced |
| AvlTree.DeleteTwoChildren | src/tree/avl_tree.c:303-313 | The least key on the right takes the place of the key |
| AvlTree.DeleteNode | src/tree/avl_tree.c:264-318 | Recursive deletion in place computes the tree after deletion |
| AvlTree.LookupNode | src/tree/avl_tree.c:320-340 | Recursive lookup in place answers as on the value |
| AvlTree.AvlEntry.Insert | src/tree/avl_tree.c:472-490 | The key set grows by exactly the key |
| AvlTree.AvlEntry.Delete | src/tree/avl_tree.c:495-514 | Returns 0 and removes exactly the key if and only if the tree is neither empty nor the single node holding it; in the second case that node is freed and the root still points at it; one node is freed exactly for a key in the tree |
| AvlTree.AvlEntry.Lookup | src/tree/avl_tree.c:519-527 | Answers membership in the key set |
| RadixState.FullUnique | src/tree/radix_tree.c:243-300 | Different nodes stand for different byte strings |
| RadixState.FindSelf | src/tree/radix_tree.c:371-406 | Every node is found by following the bytes on its path |
| RadixState.StepDown | src/tree/radix_tree.c:269-279 | The common prefix with the next child is never empty, so the assertion on it holds; a shorter one means that no node stands for the key |
| RadixState.AnswerIsSelect | src/tree/radix_tree.c:371-406 | Searching on from anywhere on the walk for a key answers what the map holds |
| RadixState.RootAlone | src/tree/radix_tree.c:551-557 | The root has no child exactly if it is the only node, and then nothing is stored |
| RadixOps.SplitNodeKeeps | src/tree/radix_tree.c:155-188 | A split keeps the tree well formed and every entry |
| RadixOps.SplitReached | src/tree/radix_tree.c:276-296 | After a split the walk for the key stands at the upper half |
| RadixOps.MergeNodeKeeps | src/tree/radix_tree.c:194-231 | A merge with an only child keeps the tree well formed and every entry |
| RadixOps.DropLeafKeeps | src/tree/radix_tree.c:335-341 | Taking a leaf off removes at most its own entry |
| RadixOps.AddLeafKeeps | src/tree/radix_tree.c:257-266 | A new leaf adds exactly its entry, which was not there |
| RadixOps.SetDataKeeps | src/tree/radix_tree.c:281-292 | Setting or clearing the data of a node changes exactly its entry |
| RadixTree.CommonPrefix | src/tree/radix_tree.c:31-44 | The longest common prefix |
| RadixTree.NodeChildren | src/tree/radix_tree.c:56-70 | The number of children |
| RadixTree.CountOne | src/tree/radix_tree.c:200-210 | A count of one means that every other child is missing |
| RadixTree.RadixMap.constructor | src/tree/radix_tree.c:466-496 | A tree without keys |
| RadixTree.RadixMap.Split | src/tree/radix_tree.c:155-188 | The node is split in place, nothing stored changes and the walk has reached the node |
| RadixTree.RadixMap.MergeIndex | src/tree/radix_tree.c:194-214 | Finds the child to merge exactly if the node has one child and neither holds data |
| RadixTree.RadixMap.Merge | src/tree/radix_tree.c:194-231 | Merges in place exactly in that case and changes nothing stored |
| RadixTree.RadixMap.Cleanup | src/tree/radix_tree.c:132-150 | No empty leaf is left below the root and nothing stored changes |
| RadixTree.RadixMap.Descend | src/tree/radix_tree.c:269-279 | One step of the walk, with a common prefix that is not empty |
| RadixTree.RadixMap.Insert | src/tree/radix_tree.c:243-300 | Adds exactly the key, in one of four ways; fails exactly for a bad argument or a key already there, and then every node is as it was; leaves no empty leaf below the root |
| RadixTree.RadixMap.RemoveHere | src/tree/radix_tree.c:328-348 | A found leaf goes and its parent is merged or, if it is the root, cleaned up; another found node loses its data; a node without data is an error |
| RadixTree.RadixMap.RemoveBelow | src/tree/radix_tree.c:306-366 | Succeeds exactly for a stored key, which is the only one gone; an error leaves every node as it was; a leaf for the key is gone, and on the path no node is left that could be merged, but for the exact exemption |
| RadixTree.RadixMap.Remove | src/tree/radix_tree.c:538-544 | The same for the whole tree; the empty key is refused; every other node with data keeps its data, its path and its children, except for the removed leaf; no empty leaf is left below the root |
| RadixTree.RadixMap.Lookup | src/tree/radix_tree.c:371-406 | Answers what the map holds |
| RadixTree.RadixMap.IsEmpty | src/tree/radix_tree.c:551-557 | True exactly if only the root is left, and then nothing is stored |
| RadixCompact.GrowthTidy | src/tree/radix_tree.c:243-300 | No insertion leaves an empty leaf below the root |
| RadixCompact.MergedNode | src/tree/radix_tree.c:194-231 | A merged node could be merged again exactly if the child it took over could be merged |
| RadixCompact.LeafGone | src/tree/radix_tree.c:335-341 | After a leaf is removed its parent can be merged exactly if it took over a child that could be merged |
| RadixCompact.DataGone | src/tree/radix_tree.c:342-348 | After a node loses its data its parent can be merged exactly if it holds nothing and that node is its only child |
| RadixCompact.UpOne | src/tree/radix_tree.c:352-362 | Merging the nodes on the way back leaves nothing more to merge on the path than there was below |
| RadixRuns.TwoKeysRemoved | src/tree/radix_tree.c:243-366 | Two keys that share their first byte, inserted and removed, leave an empty tree |
| RadixRuns.EmptyNodesReached | src/tree/radix_tree.c:306-366 | Three keys inserted and removed leave a tree without keys that has nodes below the root |
| Traversals.KeepBfs | src/tree/binary_tree_problems.c:20-70 | Filtering a level order by whole subtrees gives the level order of those subtrees |
| Traversals.LevelOrderSplit | src/tree/binary_tree_problems.c:117-121 | The filtered parts are the level orders of the two subtrees |
| Traversals.BuildInverts | src/tree/binary_tree_problems.c:91-132 | Rebuilding from the in-order and level-order sequences of any tree with distinct labels gives that tree |
| Traversals.RebuildInOrder | src/tree/binary_tree_problems.c:91-132 | For any two permutations of the same distinct labels the result has the given in-order sequence |
| Traversals.TraversalLengths | src/tree/binary_tree_problems.c:151-153 | Both sequences list every node once |
| RebuildSpec.FillCount | src/tree/binary_tree_problems.c:31-39 | One fill writes as many elements as there are pairs of equal labels |
| RebuildSpec.MoreStack | src/tree/binary_tree_problems.c:91-132 | A result other than running out of stack does not depend on the stack |
| RebuildSpec.FillIsKeep | src/tree/binary_tree_problems.c:31-39 | With distinct labels a fill is a filter |
| RebuildSpec.DistinctBuilds | src/tree/binary_tree_problems.c:91-132 | With distinct labels every write stays inside, every root is found and one frame per label and one more suffice |
| RebuildSpec.OverrunExample | src/tree/binary_tree_problems.c:151-169 | Repeated labels that pass the validation and overrun the first array |
| RebuildSpec.EndlessExample | src/tree/binary_tree_problems.c:151-169 | Repeated labels that pass the validation and recurse for ever |
| RebuildSpec.NoRootExample | src/tree/binary_tree_problems.c:107-115 | Repeated labels that pass the validation and fail the assertion on the root |
| RebuildSpec.RepeatedBuilds | src/tree/binary_tree_problems.c:151-169 | Repeated labels that do no harm |
| RebuildEnding.HandedDown | src/tree/binary_tree_problems.c:31-39 | A call hands each label down once for each of its places on that side and each of its occurrences behind the head |
| RebuildEnding.TwiceForEver | src/tree/binary_tree_problems.c:91-132 | Two occurrences of a label with three places keep the recursion going for ever |
| RebuildEnding.TwoPlacesEnd | src/tree/binary_tree_problems.c:91-132 | While no label has more than two places the recursion ends |
| RebuildEnding.EndsExactly | src/tree/binary_tree_problems.c:91-170 | For input that passes the validation and has a root the recursion ends if and only if every label with three or more places is the root and occurs once in the level order |
| RebuildEnding.NoRootExactly | src/tree/binary_tree_problems.c:107-115 | The assertion on the root fails exactly if the first level-order element is not in the in-order sequence |
| RebuildEnding.ReturnsExactly | src/tree/binary_tree_problems.c:91-170 | With that condition enough stack gives a tree or an overrun; without it every stack is used up or an array overruns |
| TreeRebuild.AppendIfFound | src/tree/binary_tree_problems.c:34-38 | The inner loop appends a label once for every place that holds it, and stays inside the array exactly if these fit |
| TreeRebuild.LeftLevelOrder | src/tree/binary_tree_problems.c:20-42 | For any arrays, all writes stay inside exactly if there are at most in_len pairs of equal labels; then the array holds the fill |
| TreeRebuild.RightLevelOrder | src/tree/binary_tree_problems.c:48-70 | The same for the right side |
| TreeRebuild.FindRoot | src/tree/binary_tree_problems.c:107-115 | The first place of the root in the in-order sequence, if it is there |
| TreeRebuild.SplitAtRoot | src/tree/binary_tree_problems.c:107-121 | The two fills on which the result of the call depends, or why there is none |
| TreeRebuild.BuildNodes | src/tree/binary_tree_problems.c:91-132 | For any arrays and stack the recursion links fresh nodes into the outcome, or fails as the outcome says |
| TreeRebuild.SameElements | src/tree/binary_tree_problems.c:151-167 | Equal lengths and inclusion make the level order a permutation of distinct in-order labels |
| TreeRebuild.DistinctResult | src/tree/binary_tree_problems.c:146-170 | With distinct labels the outcome has the given in-order sequence and is the tree that has both traversals |
| TreeRebuild.ByTraversals | src/tree/binary_tree_problems.c:146-170 | For any arrays: NULL unless lengths and elements agree, else the outcome of the recursion; with distinct labels it is the tree with these traversals |
| LoopDetect.RepeatIsEndless | src/list/singly_linked_list.c:439-458 | A repeated node means that the chain never reaches NULL |
| LoopDetect.MeetingPoint | src/list/singly_linked_list.c:439-458 | On an endless chain the two pointers meet |
| LoopDetect.HasLoop | src/list/singly_linked_list.c:439-458 | Terminates on every finite graph of nodes, with true exactly if the chain never reaches NULL |
| LoopDetect.OnLoopIff | src/list/singly_linked_list.c:470-503 | From the meeting point on, the pointers agree at a node exactly if it lies on the loop |
| LoopDetect.FindLoopStart | src/list/singly_linked_list.c:470-503 | NULL exactly if there is no loop; otherwise the first node of the chain that lies on it |
| SlabLayout.ObjSizeAlign | src/allocator/slab.c:288-293 | The slot size is the least multiple of 64 that holds object and red zone |
| SlabLayout.OneWord | src/allocator/slab.c:292-296 | At most 63 objects, no full bitmap word, and some object exactly for sizes up to 4024 |
| SlabLayout.IndexInverts | src/allocator/slab.c:25-51 | The address of an object is aligned and in range, and slab and index come back from it |
| SlabLayout.AddressInverts | src/allocator/slab.c:214-226 | An aligned address in range is the address of its index, and an object exactly if it fits |
| SlabLayout.ObjectsDisjoint | src/allocator/slab.c:44-51 | Objects with their red zones never overlap |
| SlabState.OnOneList | src/allocator/slab.c:389-556 | Every slab is on exactly one list of one CPU, the one that matches its count |
| SlabState.StayKeeps | src/allocator/slab.c:422-437 | A change that keeps a slab's kind keeps every list right |
| SlabState.ChangedKeeps | src/allocator/slab.c:422-553 | The change that an allocation or a free makes keeps each slab on exactly one list, the right one |
| SlabState.MoveKeeps | src/allocator/slab.c:536-553 | Unlinking a slab and queueing it by its new count keeps every list of every CPU right |
| SlabState.LiveAdd | src/allocator/slab.c:145-206 | Setting a clear bit adds exactly one address, and a new one |
| SlabState.LiveRemove | src/allocator/slab.c:208-250 | Clearing a set bit removes exactly its address |
| SlabState.LiveObjects | src/allocator/slab.c:389-487 | Objects in use are 64-byte aligned, lie with their red zones in their slab and are disjoint |
| SlabState.AllFree | src/allocator/slab.c:542-553 | With no object in use every slab is on a free list |
| SlabAllocator.LowestClear | src/allocator/slab.c:181-190 | The bit chosen is the lowest clear one |
| SlabState.FreeAccepts | src/allocator/slab.c:214-236 | The checks of a free accept exactly the addresses in use |
| SlabAllocator.SlabAlloc | src/allocator/slab.c:145-206 | The lowest clear bit is set, the count stays the number of set bits, the address is that of the bit and its red zone is written |
| SlabAllocator.SlabFree | src/allocator/slab.c:208-250 | For any address in the object area: exactly an aligned one with its bit set and its red zone intact is cleared, else nothing changes |
| SlabAllocator.SlabCache.constructor | src/allocator/slab.c:287-306 | Empty lists and nothing in use |
| SlabAllocator.SlabCacheCreate | src/allocator/slab.c:265-311 | NULL exactly for a refused size or name; otherwise a cache with nothing in use |
| SlabAllocator.SlabCache.AllocPartial | src/allocator/slab.c:422-437 | A partial slab serves the object and moves exactly if that filled it |
| SlabAllocator.SlabCache.AllocFree | src/allocator/slab.c:443-460 | A free slab serves the object, and then moves to the partial or full list |
| SlabAllocator.SlabCache.AllocNew | src/allocator/slab.c:466-483 | A new slab serves the object and joins the partial or full list |
| Lists.UnlinkedSplit | src/list/kdoubly_linked_list.c:194-198 | Unlinking a member keeps the others in order |
| SlabState.ChangedLists | src/allocator/slab.c:422-553 | A slab that changes its kind leaves its list and becomes the last of its new one; the order of all other slabs stays, and otherwise no list changes |
| SlabAllocator.SlabCache.Alloc | src/allocator/slab.c:389-487 | The CPU's first partial slab, else its first free slab, else a new slab serves the lowest clear bit; exactly that address is newly in use, its red zone is written and the slab moves, to the end of its new list, exactly if its kind changes; refused exactly where no object fits |
| SlabAllocator.SlabCache.Free | src/allocator/slab.c:497-556 | For any address and CPU: succeeds exactly on an address in use with its red zone intact, which is given back, and its slab moves, to the end of a list of that CPU, exactly if it was full or becomes free; on any other nothing changes |
| SlabRuns.Serve | src/allocator/slab.c:389-556 | Over any requests on any CPUs the addresses in use are those handed out and not given back; each allocation gives a new address and a free succeeds exactly on a held one |
| SlabRuns.AllocThenFree | src/allocator/slab.c:389-556 | An object allocated on one CPU can be freed on any, which restores the addresses in use |

## Left out

- Printing, dump functions, destroy functions, `NULL` handles and failing memory allocation.
- Memory orders weaker than sequential consistency.
- Buddy.BuddyAllocator.BuddyFree: on the address one past the region, while a smaller block starts the region, only the first two effects are described (EndFreeBreaks), because the lists then hold an address outside the region.
- Cycles.NLengthCycles: the result of the source is not described when its 32-bit counter overflows, which `fits` excludes.
- SlabAllocator.SlabCache.Free: the source ends the program where the model returns false; memory that is not a slab is taken not to hold the slab magic.
- SlabAllocator.SlabCache.Alloc: the source ends the program where the model returns false.
- RebuildSpec.DistinctBuilds: a sufficient condition for the arrays to be large enough in every nested call; which repeated labels overrun depends on the order of both sequences in every call. When the recursion ends is exact (RebuildEnding.EndsExactly).
- `rcu_destroy` with pending callbacks, and `kslist_for_each_safe`.
- `slab_cache_shrink`: it leaves freed slabs on their list.
- The full-word loop of `__slab_alloc`: with 64-byte alignment it has no iterations.
- Cycle counting for fewer than three nodes.
- RadixTree.RadixMap.Insert: the copies that the user's allocation callback makes are the values themselves, and the callback succeeds.
- Depth-first search, longest path, cycle detection, trie, hash table, heaps, ring buffer, stack and plain list edits: easier members than the ones above.
