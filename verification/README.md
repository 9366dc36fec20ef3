# Verified model of dert

dert is a C library of hand-built containers, allocators and synchronisation. This project models its stateful
cores in Dafny and proves what they keep, refine and conserve. Each core has its own modules:

| source | modules | what is modelled |
|---|---|---|
| src/vht.c | Modular, FiniteSets, Probe, HashTable, VhtTable | open addressing with double hashing; the probe loops and the resize work in place on the slots and are proved against pure functions, which are proved to refine a finite map |
| src/aqueue.c | Aqueue | a single-producer single-consumer ring as steps: load len, copy one element, move the index, update len |
| src/mpscqueue.c | Mpscqueue, MpscqueueCalls | any number of producers behind a mutex, over the steps of Aqueue |
| src/fsemaphore.c | Fsemaphore, FsemaphoreMaxima, FsemaphoreCalls | a counting semaphore over a mutex and a futex, as steps of any number of threads |
| src/tpoolrr.c | Tpoolrr, TpoolrrProofs, TpoolrrCalls | one controller and N workers with explicit program counters, each worker with its own mutex, condition variable and two queues |
| src/tree_T.c | TreeShape, TreeMemory, TreeT, TreeRuns, TreeLinkRuns | the search tree on heap nodes with parent pointers; TreeShape is the tree as a value, TreeMemory the links, TreeT the methods, the others whole runs |
| src/tree_iterator.c, src/tree_iterator_bfs.c | TreeLevels, TreeIterator | the breadth-first iterator and its node queue |
| src/vqueue.c | Vqueue | the ring that can overwrite, single and batch forms |
| src/vpool.c | PoolMemory, Vpool | the free list threaded through freed elements, and growth by exchanging headers |
| src/vdll.c | ListLinks, Vdll | the doubly linked list with a cached cursor |
| src/varena.c | ArenaStack, Varena | the frame stack whose records are little-endian bytes in the arena itself |

Code that changes state step by step is a class with methods over arrays or linked nodes, or, where threads
interleave, a step function over a state that records where every thread is. A run is any sequence of actions; an
action that is not enabled changes nothing, so a theorem about all sequences is a theorem about all interleavings.
Condition variables follow POSIX: waiting releases the mutex and sleeps in one step, and a sleeper may wake for no
reason.

## Where the code does not do what it seems to promise

Each is stated exactly in the model, with the condition under which the code does meet the property.

- `vht_del` frees a slot without a tombstone. A delete acts as map removal, and leaves every other key reachable, if
  and only if the freed slot lies on no other stored key's probe path (HashTable.RemoveIsMapRemovalIff). Runs whose
  deletes keep to that refine a map (HashTable.RunRefinesMap), and they are the only runs throughout which every key is
  looked up as in the map (HashTable.RunAgreesIffNeverCuts). Entries that are cut off stay in the table and become
  reachable again at the next growth (HashTable.GrowKeepsKeys).
- Offsets have 32 bits, so that no more than 2^32 slots of a table are ever used. A set fails, whatever the capacity,
  if and only if the key is absent and all slots within reach are taken (HashTable.PutAccounting).
- `mpscqueue_enqueue` returns from a full queue with the mutex held, and one call too many is enough
  (Mpscqueue.LeakIsReachable). From then on no enqueue commits, and enqueues remain possible if and only if this has
  not happened (Mpscqueue.EnqueuePossibleIffNoLeak). FIFO order is not affected.
- The futex compares the low 32 bits of the 64-bit counter, and takes the number of threads to wake as a signed 32-bit
  number. A unit can be left behind a sleeper that nobody is about to wake if and only if the maximum is at least 2^31,
  or, with two threads, at least 2^32 (FsemaphoreMaxima.NeverStrandedIff).
- `tpoolrr_join` drains every queue if and only if no worker had already ended with jobs queued
  (TpoolrrProofs.JoinDrainsIff). After a join, a job can still be accepted; a second join then returns and leaves it
  (TpoolrrProofs.SecondJoinCanLeaveAJob).
- `tree_reorder_move`, line 559, makes a right child's only right child its own parent, and lines 569-570 follow the
  missing right child of a right child that has only a left child. A run keeps all links mutual and never follows a
  null pointer if and only if no delete in it meets one of the two shapes (TreeLinkRuns.EveryRunLinkedIff).
- A node that is its own parent stays in the tree, but deleting it loses values: `tree_reorder_move` works on the node
  itself instead of its parent, the node is zeroed where it is, and everything below it is gone
  (TreeMemory.DeleteLosesSubtree). After inserting 1, 2, 4, 3 and 5 and deleting 2, deleting 4 succeeds and takes 3 and 5
  along (TreeLinkRuns.DeleteCanLoseOtherValues). The child links spell the tree that they should throughout a run, and no
  null pointer is followed, if and only if no delete takes a right child with only a left child or a node that is its own
  parent (TreeLinkRuns.EveryRunSpelledIff); such runs, as coded, answer as a multiset (TreeLinkRuns.CodeRefinesMultiset).
- The breadth-first iterator returns null early when its queue of max_nodes cannot take a child. It hands out the whole
  tree if and only if max_nodes is at least the most nodes that are ever queued (TreeLevels.YieldsLevelOrderIff).
- `tree_ordered` rejects the empty tree (TreeShape.OrderedIffBst).
- header/vdll.h describes a delete as taking a range from its position on, a shrink as taking the tail, a grow as adding
  at the end and an insert as shifting the element at its position. `vdll_delete` goes backwards: it takes that range
  if and only if it takes one element or starts at 0 (Vdll.DeletesRangeIff). A shrink takes the tail if and only if that is
  one element or all (Vdll.ShrinkTakesTailIff). Growing and inserting do as described if and only if the list is empty
  (Vdll.GrowsAtEndIff, Vdll.InsertsBeforeIff). A range that leaves the list leaves the cursor outside or follows a null
  pointer unless it starts at 0 (Vdll.VdllList.Delete). An insert that cannot create all its nodes leaves the list as it was
  in exactly the cases of Vdll.RollbackRestoresIff; when one node has been created there is no rollback, and it stays.
- `varena_claim` and `varena_alloc` add sizes without a check for wrap-around; the arena stays well formed if and
  only if the sums do not wrap or the wrapped sum is refused (Varena.Arena.Claim, Varena.Arena.Alloc). Varena.WrappingClaim
  and Varena.WrappingAlloc are sizes that are accepted and break it.
- `vpool_guided_extend` of a dynamic pool makes it a guided one, and deinit then frees none of the blocks it grew. Deinit
  frees exactly what was grown if and only if the pool is still dynamic or has never grown (Vpool.VpoolHeader.FreesGrownIff);
  Vpool.ExtendedPoolLeaks is a pool for which it does not. Memory smaller than a header is overrun
  (Vpool.VpoolHeader.GuidedExtend).

## Model

| member | source | states |
|---|---|---|
| `Probe.AtIsLinear` | src/vht.c:43-84 | adding the 32-bit stride with wrap-around and then reducing by the capacity is the same as an unbounded linear sequence modulo the capacity |
| `Probe.OddCancel` | src/vht.c:47-48 | why the stride is made odd: a power of two that divides a product with an odd factor divides the other factor |
| `Probe.ProbesDistinct` | src/vht.c:47-84 | no two of cap consecutive probes look at the same slot, for every capacity up to 2^32, every start and every odd stride |
| `Probe.ProbesCoverTable` | src/vht.c:47-84 | any cap consecutive probes visit every slot, each exactly once, so a free slot is found if there is one and the rehash walk sees every entry |
| `Probe.VisitedCount` | src/vht.c:59-84 | count consecutive probes, up to cap, meet count different slots |
| `Probe.AtReach` | src/vht.c:64-84 | in a table of more than 2^32 slots the probes are those of its first 2^32 slots |
| `Probe.ProbeOf` | src/vht.c:64-84 | any probe sequence as long as there are slots within reach meets each of them |
| `Probe.FirstSlot` | src/vht.c:43-44 | the first probe looks at the hash reduced modulo the slots within reach |
| `Probe.AtOfHash` | src/vht.c:36-64 | by the 64-bit hash itself: probe j looks at the low half plus j times the high half with its lowest bit set, reduced |
| `HashTable.Scan` | src/vht.c:212-220 | a walk ends at the first slot that is free or holds the key, and otherwise after cap guesses |
| `HashTable.ScanIs` | src/vht.c:212-220 | the end of a walk is determined by what it meets |
| `HashTable.LookupIsMapLookup` | src/vht.c:198-223 | on a chained table get returns the value the map has for the key and misses exactly the keys outside the map |
| `HashTable.WalkEndsUnlessFull` | src/vht.c:212-220 | a walk uses up its guesses if and only if every slot within reach is occupied by another key |
| `HashTable.PutAccounting` | src/vht.c:243-262 | a set reports a full table if and only if the key is not found and every slot within reach is taken, and otherwise adds one entry exactly when the key was not found |
| `HashTable.PutKeepsChains` | src/vht.c:243-262 | a set that finds room keeps every entry reachable from its own key |
| `HashTable.PutIsMapUpdate` | src/vht.c:225-263 | a set that finds room is the map update at that key |
| `HashTable.WalkedTo` | src/vht.c:318-336 | after j steps of the rehash walk the new table is chained and holds exactly the entries of the slots visited |
| `HashTable.GrowKeepsKeys` | src/vht.c:296-343 | on any table, also after deletions, growing keeps every key, invents no entry, and leaves every entry reachable |
| `HashTable.GrowKeepsMap` | src/vht.c:296-343 | on a chained table growing does not change the map |
| `HashTable.RehashNeverGrows` | src/vht.c:306-336 | every set inside vht_double meets a table below its load limit: it does not double again and does not fail |
| `HashTable.ReadySound` | src/vht.c:234-236 | growing keeps the number of entries, and a table that has to grow has at most 2^34 slots, so that no capacity ever wraps |
| `HashTable.SetKeepsLoad` | src/vht.c:225-263 | with allocation succeeding a set keeps 4 * len <= cap and succeeds, unless all 2^32 slots that can be reached are taken |
| `HashTable.RemoveForgets` | src/vht.c:265-294 | a delete succeeds exactly when get finds the key, and a get of that key right after it misses, on any table |
| `HashTable.RemoveOthers` | src/vht.c:279-291 | every other key is lost exactly when its walk goes past the freed slot |
| `HashTable.RemoveAccounting` | src/vht.c:279-291 | a delete takes one from the number of occupied slots exactly when it succeeds |
| `HashTable.RemoveIsMapRemovalIff` | src/vht.c:265-294 | a delete answers all gets as map removal would, and leaves the table chained, if and only if the freed slot lies on no other stored key's path |
| `HashTable.TwoSets` | src/vht.c:225-263 | of two keys set in an empty table the first goes to its hash reduced, the second to its own unless that slot is taken, and then one step of its stride further |
| `HashTable.DeleteAfterTwoSets` | src/vht.c:36-84 | of two such keys deleting the first hides the second if and only if their hashes agree modulo the slots within reach; deleting the second never hides the first |
| `HashTable.DeleteCanHideAnotherKey` | src/vht.c:279-286 | two keys of equal hash: deleting the first hides the second, whose entry is still in the table |
| `HashTable.RunKeepsLoad` | src/vht.c:225-294 | over every run of set, get and del of any length with all its resizes the load limit holds, and a set fails only with 2^32 entries in the table |
| `HashTable.StepRefinesMap` | src/vht.c:198-294 | one set, get or del that cuts no chain, with the resize it may cause and whether or not its allocation succeeds, changes the map and answers as the map does |
| `HashTable.RunRefinesBoundedMap` | src/vht.c:198-343 | every run from an empty table whose deletes cut no chain, whichever allocations fail, gives the answers of a finite map of limited size |
| `HashTable.RunRefinesMap` | src/vht.c:198-343 | with allocations succeeding the only limit of that map is 2^32 keys |
| `HashTable.AgreesIffNeverCuts` | src/vht.c:198-343 | from any chained table: every key is looked up as in the map before and after every operation of a run if and only if no delete of the run cuts another key's chain |
| `HashTable.RunAgreesIffNeverCuts` | src/vht.c:198-343 | the same for every run from an empty table, whichever allocations fail |
| `HashTable.NoDeletesNeverCut` | src/vht.c:265-294 | runs of set and get need no such proviso |
| `VhtTable.Vht.Init` | src/vht.c:131-159 | a new table is all free; it is a table the operations are promised for if and only if its capacity is 16 * 4^k |
| `VhtTable.Vht.Get` | src/vht.c:198-223 | the probe loop with its guesses, offset and stride returns what the lookup function says |
| `VhtTable.Vht.Set` | src/vht.c:225-263 | in place, after a doubling that may fail, makes the table and the code that the set function says; len stays the number of occupied slots |
| `VhtTable.Vht.Place` | src/vht.c:238-262 | the probe loop of a set writes exactly the slot at which the walk ends |
| `VhtTable.Vht.Del` | src/vht.c:265-294 | the loop in place frees exactly the slot that the remove function frees; len stays the number of occupied slots |
| `VhtTable.Vht.Double` | src/vht.c:296-343 | the table struct is overwritten by one four times the size filled by the rehash walk; a failed allocation changes nothing |
| `Aqueue.WriteStores` | src/aqueue.c:125-145 | writing one element puts it behind everything sent and disturbs none of what is still to be received |
| `Aqueue.ProducerKeepsInv` | src/aqueue.c:125-198 | every producer step, single or batch, keeps len, both indices and the contents consistent |
| `Aqueue.ConsumerKeepsInv` | src/aqueue.c:147-236 | every consumer step keeps them too |
| `Aqueue.FifoOnEveryRun` | src/aqueue.c:125-236 | in every interleaving what has been dequeued is a prefix of what has been enqueued, len is the difference and stays within 0..cap |
| `Aqueue.NoSlotWrittenWhileReadable` | src/aqueue.c:125-236 | in every interleaving the slot the producer is about to write is not one the consumer may read, and the slot the consumer is about to read is one it may |
| `Aqueue.EnqueueDelivers` | src/aqueue.c:125-198 | an undisturbed enqueue, single or batch, appends as many values as there is room for, in order |
| `Aqueue.DequeueDelivers` | src/aqueue.c:147-236 | an undisturbed dequeue, single or batch, hands over the oldest values, as many as asked for and available |
| `Aqueue.CallsAreAtomic` | src/aqueue.c:125-236 | in every interleaving each call takes effect in one step, the update of len: an enqueue appends, a dequeue removes, every other step leaves the queue as it is |
| `Mpscqueue.StepKeepsInv` | src/mpscqueue.c:83-126 | every step of every thread keeps mutual exclusion, the ring consistent, and each producer's committed items equal to its finished calls and the one in flight |
| `Mpscqueue.CommitOrderOnEveryRun` | src/mpscqueue.c:83-126 | in every interleaving there is one commit order of which the received items are a prefix, each producer's items keep their own order, and len <= cap |
| `Mpscqueue.LeakExactlyAtFull` | src/mpscqueue.c:93-98 | the mutex is leaked by exactly the call that looks at a full queue |
| `Mpscqueue.LeakIsReachable` | src/mpscqueue.c:83-98 | from the start, for every capacity, one producer making one call too many brings about the leak |
| `Mpscqueue.LeakIsForever` | src/mpscqueue.c:83-111 | after that no enqueue commits on any run |
| `Mpscqueue.OwnerFinishes` | src/mpscqueue.c:83-111 | a producer inside that does not meet a full queue can finish and release the mutex |
| `Mpscqueue.MakeRoom` | src/mpscqueue.c:113-126 | the consumer alone can bring the queue below its capacity |
| `Mpscqueue.EnqueuePossibleIffNoLeak` | src/mpscqueue.c:83-126 | enqueues can still commit if and only if no call has met a full queue |
| `MpscqueueCalls.EnqueueDelivers` | src/mpscqueue.c:83-111 | an undisturbed enqueue below the capacity appends the value it was called with in the name of its caller, returns, and releases the mutex |
| `MpscqueueCalls.EnqueueLeaks` | src/mpscqueue.c:83-98 | an undisturbed enqueue at the capacity leaves the queue as it is and the mutex taken |
| `MpscqueueCalls.DequeueDelivers` | src/mpscqueue.c:113-126 | a dequeue from a queue that is not empty hands over the oldest item not yet handed over, whatever the producers do in between, a leaked mutex included |
| `MpscqueueCalls.DequeueAlone` | src/mpscqueue.c:113-126 | undisturbed, it changes nothing but the length besides |
| `MpscqueueCalls.DequeueFindsNothing` | src/mpscqueue.c:128-137 | a dequeue from an empty queue changes nothing |
| `Fsemaphore.RunKeepsSafe` | src/fsemaphore.c:130-275 | every step of every thread keeps one holder of the mutex, the bound on the counter and the balance of units |
| `Fsemaphore.CounterOnEveryRun` | src/fsemaphore.c:130-275 | on every run from the start no two threads hold the mutex at a time, 0 <= counter <= max, and every unit taken was supplied |
| `Fsemaphore.RunKeepsInv` | src/fsemaphore.c:149-275 | with max below 2^31: whenever a thread sleeps, pending wakes and awake waiters are at least the counter |
| `FsemaphoreMaxima.LargeMaxStrands` | src/fsemaphore.c:149-199 | with max of 2^32 or more there is a run in which a waiter goes to sleep over available units |
| `FsemaphoreMaxima.MiddleMaxStrands` | src/fsemaphore.c:241-275 | with max from 2^31 on and three threads a reset wakes one of two sleepers and leaves the other behind |
| `FsemaphoreMaxima.NeverBehindIff` | src/fsemaphore.c:149-275 | pending wakes and awake waiters suffice for the counter whenever a thread sleeps, on every run of two or more threads, if and only if max is below 2^31 |
| `FsemaphoreMaxima.NeverStrandedIff` | src/fsemaphore.c:149-275 | no unit is ever left behind a sleeper that no pending wake will reach if and only if max is below 2^31, or below 2^32 with two threads |
| `FsemaphoreCalls.WaitTakesUnit` | src/fsemaphore.c:149-199 | an undisturbed wait that finds a unit takes exactly one and returns |
| `FsemaphoreCalls.WaitSleeps` | src/fsemaphore.c:166-181 | one that finds none releases the mutex and sleeps |
| `FsemaphoreCalls.InterruptedWaitReturns` | src/fsemaphore.c:176-199 | interrupted in its sleep it returns without a unit, and nothing else has changed |
| `FsemaphoreCalls.PostAddsUnit` | src/fsemaphore.c:201-239 | an undisturbed post below the maximum adds one unit and wakes one sleeper, if any |
| `FsemaphoreCalls.PostAtMax` | src/fsemaphore.c:209-214 | at the maximum it changes nothing |
| `FsemaphoreCalls.ExhaustEmpties` | src/fsemaphore.c:130-147 | an undisturbed exhaust throws the available units away |
| `FsemaphoreCalls.ResetFills` | src/fsemaphore.c:241-275 | an undisturbed reset makes all units available and wakes as many sleepers as there are units |
| `FsemaphoreCalls.WaitCanReturn` | src/fsemaphore.c:149-199 | from every safe state in which units are available, whoever holds the mutex and whatever it takes, a thread inside a wait can come to the return of that wait with a unit |
| `TpoolrrProofs.RunKeepsInv` | src/tpoolrr.c:345-470 | the invariant of pool, mutexes, signals and histories holds on every run |
| `TpoolrrProofs.NoLostWakeup` | src/tpoolrr.c:372-431 | in every interleaving a worker asleep with queued jobs to run, or with an end to come to, is one the controller is on its way to signal |
| `TpoolrrProofs.IdlePoolSleepsOnlyWithoutWork` | src/tpoolrr.c:372-431 | when no call is in progress every sleeper has nothing to do |
| `TpoolrrProofs.QueueErrorsNeverHappen` | src/tpoolrr.c:434-465 | a worker never dequeues from an empty queue and an add never enqueues into a full one |
| `TpoolrrProofs.JobsConserved` | src/tpoolrr.c:404-466 | on every run the jobs accepted for a worker are those executed, in order and once each, then the one running, then those queued; executed ones are popped, queued, about to be queued or dropped |
| `TpoolrrProofs.DropNeedsOverload` | src/tpoolrr.c:461-465 | a completion is lost only by a worker with more than jobs_per_thread jobs accepted and not popped |
| `TpoolrrProofs.ModestRunDropsNothing` | src/tpoolrr.c:404-466 | if that never happens no completion is ever dropped, and the completions popped, queued and about to be queued are those of the accepted jobs in the order of acceptance |
| `TpoolrrProofs.CaughtUpDropsIff` | src/tpoolrr.c:461-465 | a worker that has caught up has lost completions if and only if more are missing than its completion queue holds |
| `TpoolrrProofs.AddFindsFirstRoom` | src/tpoolrr.c:628-659 | an undisturbed add appends the job to the first queue with room in round-robin order and to no other |
| `TpoolrrProofs.AddGivesUpWhenAllFull` | src/tpoolrr.c:628-662 | with every queue full an add changes nothing |
| `TpoolrrProofs.PopTakesFirst` | src/tpoolrr.c:1008-1040 | an undisturbed pop takes the oldest completion of the first non-empty queue in round-robin order and moves the round-robin index there |
| `TpoolrrProofs.JoinReturnsAfterAll` | src/tpoolrr.c:923-953 | a join or its steps do not return before every worker has left its loop |
| `TpoolrrProofs.JoinDrainsIff` | src/tpoolrr.c:909-961 | when a join returns every accepted job has been executed if and only if no worker had already ended with jobs queued |
| `TpoolrrProofs.FirstJoinDrains` | src/tpoolrr.c:909-961 | the first join of a pool that was never stopped drains every queue, whatever was paused or queued |
| `TpoolrrProofs.EndJoinProgress` | src/tpoolrr.c:942-951 | while the controller waits in pthread_join the awaited worker can always go on, its own steps bring its end closer and nobody else's set it back |
| `TpoolrrProofs.AwaitedWorkerExits` | src/tpoolrr.c:867-876 | the wait in pthread_join is not for ever: a bounded number of the awaited worker's own steps ends its thread, whatever happens in between |
| `TpoolrrProofs.CallCanReturn` | src/tpoolrr.c:619-1040 | no deadlock: from every reachable state the call in progress, with its waits for mutexes and for workers to end, can be driven to its return |
| `TpoolrrProofs.SecondJoinCanLeaveAJob` | src/tpoolrr.c:909-961 | a join, an accepted job, and a second join that returns with the job still queued and no thread to run it |
| `TpoolrrCalls.ModeCallsReachAll` | src/tpoolrr.c:764-961 | in every interleaving, when a pause returns every worker is told to pause, after a resume to be active, after a stop to stop, after a join to join |
| `TpoolrrCalls.EndCallsEndAll` | src/tpoolrr.c:834-961 | a stop or a join returns only when every worker has left its loop |
| `TpoolrrCalls.RestingWorkerStartsNothing` | src/tpoolrr.c:395-420 | on every run without a resume or join a worker told to pause or stop finishes at most the job it was bound to run, and takes nothing more from its queue |
| `TpoolrrCalls.PauseHolds` | src/tpoolrr.c:395-403 | from the return of a pause on, until a resume or join, no worker runs more than the job it has in hand |
| `TpoolrrCalls.StopLeavesQueue` | src/tpoolrr.c:415-420 | a stop leaves the queue of a paused worker unstarted, although the worker has ended when it returns |
| `TpoolrrCalls.StoppedWorkerExits` | src/tpoolrr.c:415-420 | a stop waits for at most 13 of a worker's own steps, however many jobs are queued |
| `TpoolrrCalls.ActiveWorkerRuns` | src/tpoolrr.c:372-445 | with no call in progress an active worker with jobs queued comes to run the first of them by at most 7 of its own steps |
| `TpoolrrCalls.ResumeRestarts` | src/tpoolrr.c:799-832 | after a resume every worker that has jobs queued and has not ended can go on to run them |
| `TpoolrrCalls.IdleWorkerSleeps` | src/tpoolrr.c:387-403 | with no call in progress a paused worker, or an active one without jobs, goes to sleep instead of spinning |
| `TpoolrrCalls.SpuriousWakeSleepsAgain` | src/tpoolrr.c:387-403 | woken for no reason, it goes back to sleep |
| `TpoolrrCalls.OnlyExpiringJobsExpire` | src/tpoolrr.c:442-459 | on every run a completion is flagged as expired only if its job carries an expiration time |
| `TpoolrrCalls.JobOutcome` | src/tpoolrr.c:442-466 | and then exactly when that time is over as the worker comes to it; job and flag go into the completion queue |
| `TpoolrrCalls.AddDelivers` | src/tpoolrr.c:619-662 | an undisturbed add from call to return: the job goes to the end of the first queue with room, its worker is woken, the round-robin index moves on by one, nothing else changes |
| `TpoolrrCalls.AddRefused` | src/tpoolrr.c:619-662 | with every queue full the whole call changes nothing |
| `TpoolrrCalls.PopDelivers` | src/tpoolrr.c:1008-1040 | an undisturbed pop from call to return: the oldest completion of the first non-empty queue, and the index moves there |
| `TpoolrrCalls.PopFindsNothing` | src/tpoolrr.c:1008-1040 | with every completion queue empty the whole call changes nothing |
| `TreeShape.BstIsSorted` | src/tree_T.c:135-137 | the in-order sequence of a search tree is sorted |
| `TreeShape.InsertIsSortedInsert` | src/tree_T.c:140-179 | insertion keeps the order and puts the value behind exactly the values at most as large |
| `TreeShape.LookupFindsIff` | src/tree_T.c:332-358 | lookup finds a value if and only if it is in the tree |
| `TreeShape.RangeIsBest` | src/tree_T.c:360-403 | range lookup finds nothing if and only if no value is in range, and otherwise one in range, the smallest or the largest as the strategy says |
| `TreeShape.FirstIsTopmost` | src/tree_T.c:374-392 | with the strategy that stops at the first hit the answer is exactly the node in range that has none in range above it |
| `TreeShape.GraftIs` | src/tree_T.c:600-634 | hanging a subtree under the right spine appends its in-order sequence |
| `TreeShape.GraftKeepsBst` | src/tree_T.c:600-634 | and keeps the order when all its values are above those it is hung under |
| `TreeShape.MergeIs` | src/tree_T.c:516-598 | whatever the children of the removed node, what replaces it is ordered and holds their in-order sequences one after the other |
| `TreeShape.DeleteRemovesOne` | src/tree_T.c:444-514 | deleting a present value keeps the order and removes exactly one occurrence of it from the in-order sequence, for every shape |
| `TreeShape.DeleteNodes` | src/tree_T.c:444-514 | deletion removes exactly the node that lookup finds and no other |
| `TreeShape.MinIsLeast` | src/tree_T.c:754-788 | a node returned by tree_node_min is a true minimum |
| `TreeShape.MaxIsGreatest` | src/tree_T.c:717-752 | a node returned by tree_node_max is a true maximum |
| `TreeShape.OrderedIffBst` | src/tree_T.c:131-133 | the two checks together accept a tree if and only if it is a non-empty search tree |
| `TreeShape.OneCheckIsNotEnough` | src/tree_T.c:717-788 | each check alone accepts a tree that is not ordered |
| `TreeMemory.InsertKeepsTree` | src/tree_T.c:277-317 | hanging the new node under the parent found by the descent gives the tree with the value inserted; every parent link is right, or that of a node that was its own parent before |
| `TreeMemory.DownIsUnique` | src/tree_T.c:140-179 | the child links of a memory spell at most one tree |
| `TreeMemory.MutualIff` | src/tree_T.c:559 | all links of a tree are mutual if and only if none of its nodes is its own parent |
| `TreeMemory.RotatedLinks` | src/tree_T.c:600-634 | after the rotation of a node with two children the merged tree is linked, its three reparented nodes properly even if they were their own parents, and no other node has changed |
| `TreeMemory.MovedLinks` | src/tree_T.c:516-598 | in all cases but the crash what takes the place of the node is linked under its parent, with the one self-parent of line 559, and nothing else has changed |
| `TreeMemory.DeleteKeepsTree` | src/tree_T.c:444-514 | a deletion that does not crash, of a node that is not its own parent, leaves the tree without it; which nodes are their own parents after it follows from the shape |
| `TreeMemory.DeleteLosesSubtree` | src/tree_T.c:548-593 | deleting a node that is its own parent leaves it in the tree with value 0 and without its subtrees, so that the links do not spell the tree without it |
| `TreeMemory.Aim` | src/tree_T.c:548-593 | comparing links and comparing values tell the same side of the node that the parent link leads to, also when that is the node itself; and the delete follows a null pointer exactly in the stated shapes |
| `TreeMemory.DeleteLinksIff` | src/tree_T.c:516-598 | all parent links are mutual afterwards if and only if no node is left as its own parent; in a tree without any, if and only if the deleted node was not a right child with only a right child |
| `TreeMemory.DeleteWitnesses` | src/tree_T.c:548-571 | inserting 1, 3, 2 and deleting 3 follows a null pointer; inserting 1, 2, 3 and deleting 2 makes a node its own parent |
| `TreeT.TreeTree.constructor` | src/tree_T.c:46-65 | a new tree is empty |
| `TreeT.TreeTree.Exists` | src/tree_T.c:320-329 | true if and only if the value is in the tree |
| `TreeT.TreeTree.LookupNode` | src/tree_T.c:332-358 | the loop returns the node that the lookup function finds, null if and only if the value is absent |
| `TreeT.TreeTree.LookupRange` | src/tree_T.c:360-403 | the loop returns the node that the range lookup finds, a best one for the strategy, or null when none is in range |
| `TreeT.TreeTree.Insert` | src/tree_T.c:140-179 | fails exactly when max_nodes inserts have been made; otherwise a fresh node is in its place and linked, also in a tree with nodes that are their own parents |
| `TreeT.TreeTree.NodeInsert` | src/tree_T.c:277-317 | the node is linked under the expected parent on the side of its value, or becomes the root |
| `TreeT.TreeTree.ReorderRol` | src/tree_T.c:600-634 | the loop down the right spine hangs the right child's left subtree under its end |
| `TreeT.TreeTree.ReorderMove` | src/tree_T.c:516-598 | the nine cases of the move, with the self-parent and the null dereference as coded, wherever the parent link leads |
| `TreeT.TreeTree.Delete` | src/tree_T.c:444-479 | fails exactly when the value is absent and crashes exactly when it follows the missing right child; otherwise removes the node in place, and says which nodes are then their own parents; if the node was its own parent, leaves it zeroed with its subtree lost |
| `TreeT.TreeTree.NodeDelete` | src/tree_T.c:496-514 | unlinks and clears the node |
| `TreeT.TreeTree.NodeMin` | src/tree_T.c:754-788 | the recursion returns the minimum, or null when one of its comparisons finds a fault |
| `TreeT.TreeTree.NodeMax` | src/tree_T.c:717-752 | the recursion returns the maximum, or null when one of its comparisons finds a fault |
| `TreeT.TreeTree.Ordered` | src/tree_T.c:131-133 | on any finite linked tree, true if and only if it is non-empty and ordered |
| `TreeT.TreeTree.NodeReachable` | src/tree_T.c:100-129 | returns the node if and only if every parent link below it is mutual |
| `TreeRuns.InsertAddsOne` | src/tree_T.c:140-179 | insertion adds one occurrence to the multiset of values |
| `TreeRuns.DeleteTakesOne` | src/tree_T.c:444-514 | deletion of a present value takes one occurrence from it |
| `TreeRuns.RunRefinesMultiset` | src/tree_T.c:140-514 | of the tree as a value, whose deletion neither crashes nor loses anything: every run answers as a multiset does that accepts max_nodes inserts in all, and ends in a search tree whose in-order sequence is that multiset sorted; the code does so on the runs of TreeLinkRuns.CodeRefinesMultiset |
| `TreeLinkRuns.StepSpelledIff` | src/tree_T.c:140-692 | an operation as coded does not crash and leaves the child links spelling the expected tree if and only if it does not delete a right child with only a left child nor a node that is its own parent; then every parent link is right or leads to the node itself |
| `TreeLinkRuns.EveryRunSpelledIff` | src/tree_T.c:140-692 | over every run as coded the child links spell the expected tree throughout, and no null pointer is followed, if and only if no delete takes a right child with only a left child or a node that an earlier delete made its own parent |
| `TreeLinkRuns.CodeRefinesMultiset` | src/tree_T.c:140-692 | such runs, with memory and answers read along the links as coded, answer as a multiset does that accepts max_nodes inserts in all, and the memory spells a search tree with that multiset sorted |
| `TreeLinkRuns.WalkIsLookup` | src/tree_T.c:332-358 | the descent along the child links finds what the lookup function finds in the tree that they spell |
| `TreeLinkRuns.DeleteCanLoseOtherValues` | src/tree_T.c:559-692 | inserting 1, 2, 4, 3 and 5 and deleting 2 and 4 loses 3 and 5 as well |
| `TreeLinkRuns.StepLinkedIff` | src/tree_T.c:140-598 | an operation as coded does not crash and leaves all links mutual if and only if it does not delete a right child with just one child |
| `TreeLinkRuns.EveryRunLinkedIff` | src/tree_T.c:140-692 | every run as coded keeps all links mutual throughout and never follows a null pointer if and only if no delete in it meets a right child with just one child |
| `TreeLevels.BfsLevel` | src/tree_iterator_bfs.c:9-36 | working off one level queues exactly the next one |
| `TreeLevels.BfsIsLevelOrder` | src/tree_iterator_bfs.c:9-36 | the order in which the queue yields nodes is level order, left to right |
| `TreeLevels.BfsNodes` | src/tree_iterator_bfs.c:9-36 | the nodes yielded are those of the queued subtrees, as many in all as there are |
| `TreeLevels.LevelOrderIsEachOnce` | src/tree_iterator_bfs.c:9-36 | level order lists every node of a tree exactly once |
| `TreeLevels.YieldsAllIff` | src/tree_iterator_bfs.c:9-36 | a queue of limited size yields all nodes if and only if nothing ever has to be dropped from it |
| `TreeLevels.YieldsLevelOrderIff` | src/tree_iterator_bfs.c:9-36 | a tree comes out whole, in level order, if and only if the queue is as large as the most nodes that are ever queued; one that can hold all nodes always is |
| `TreeIterator.BfsIterator.constructor` | src/tree_iterator.c:131-138 | for every tree and max_nodes: the whole tree is to come, in level order, exactly under that condition |
| `TreeIterator.BfsIterator.Next` | src/tree_iterator_bfs.c:9-36 | each call yields the next node in level order, or null when none is left or a child does not fit; what is queued after it in all cases |
| `TreeIterator.BfsIterator.QueueChildren` | src/tree_iterator_bfs.c:20-33 | the first enqueue always finds room, the second fails exactly when the queue is full again |
| `Vqueue.EachKeepsLast` | src/vqueue.c:124-153 | enqueuing one at a time leaves the last cap elements of what was there and what is added |
| `Vqueue.EachStopsWhenFull` | src/vqueue.c:124-153 | without overwriting, offering all elements one at a time takes exactly the first that fit |
| `Vqueue.WrittenAppends` | src/vqueue.c:170-218 | writing behind the ring appends at the price of as many of the oldest as do not fit |
| `Vqueue.RingWrap` | src/vqueue.c:11-17 | contents depend on front only up to wrapping |
| `Vqueue.CopyWrites` | src/vqueue.c:170-218 | the copy split at the end of the buffer writes the slots behind back |
| `Vqueue.VqueueQueue.Enqueue` | src/vqueue.c:124-153 | refuses exactly when full without overwriting; otherwise appends, dropping the oldest element when full |
| `Vqueue.VqueueQueue.EnqueueSome` | src/vqueue.c:170-218 | overwriting takes all elements, or cap of them if there are more, and leaves the last cap; otherwise takes as many as there is room for and appends them; the same as that many single enqueues with the same flag |
| `Vqueue.VqueueQueue.Dequeue` | src/vqueue.c:155-168 | takes the oldest element; front + len stays equal to back modulo cap |
| `Vqueue.VqueueQueue.DequeueSome` | src/vqueue.c:220-254 | takes the oldest elements, as many as asked for and available, in order: what repeated single dequeues would give |
| `Vqueue.VqueueQueue.Front` | src/vqueue.c:256-285 | the oldest element |
| `Vqueue.VqueueQueue.Back` | src/vqueue.c:287-320 | the newest element, although back is one ahead of it and may be unwrapped |
| `PoolMemory.HandedIsInside` | src/vpool.c:131-194 | everything held or freed is a slot of a block of the pool |
| `PoolMemory.AllocPops` | src/vpool.c:137-143 | popping the stack threaded through freed elements keeps it acyclic and gives out an element nobody holds |
| `PoolMemory.AllocTakes` | src/vpool.c:163-177 | an untouched slot is nobody's and inside its block |
| `PoolMemory.GrowKeeps` | src/vpool.c:145-161 | putting a new block in front keeps every held and freed element in place |
| `PoolMemory.DeallocPushes` | src/vpool.c:180-194 | giving back a held element pushes it on the stack and leaves the others |
| `PoolMemory.ClientWriteKeeps` | src/vpool.c:131-194 | a client may write anything into what it holds |
| `PoolMemory.DoublingTotal` | src/vpool.c:145-161 | k growths from c slots give c * (2^(k+1) - 1) slots |
| `PoolMemory.OneBlockCount` | src/vpool.c:131-194 | in a pool of one block held and freed elements are those handed out |
| `Vpool.VpoolHeader.Init` | src/vpool.c:63-87 | a new pool holds nothing and has the capacity and kind asked for; elements are at least as large as a pointer; zero sizes are refused |
| `Vpool.VpoolHeader.Alloc` | src/vpool.c:131-178 | returns null exactly when nothing is free, the block is full and the pool does not grow; otherwise an element inside a block that nobody holds, with all held elements untouched; a freed element comes back zeroed; a growth doubles the capacity and puts one header in front of the old chain |
| `Vpool.VpoolHeader.Extend` | src/vpool.c:146-159 | after the header exchange the new block is in front under the same address, the new place holds the old header, the old chain follows it, and each place on the chain still belongs to the block obtained with it |
| `Vpool.VpoolHeader.Regrow` | src/vpool.c:145-161 | a growth keeps all held elements, and the old chain behind the new place |
| `Vpool.VpoolHeader.Dealloc` | src/vpool.c:180-194 | the element is on top of the free stack; memory changes at that element only |
| `Vpool.VpoolHeader.GuidedExtend` | src/vpool.c:204-223 | refused exactly for static pools and memory without room for an element behind the header; overruns memory smaller than a header, after which nothing is promised; otherwise the new block has as many elements as fit behind the header and no more, is in front, and everything held or freed is kept |
| `Vpool.VpoolHeader.Deinit` | src/vpool.c:89-113 | the loop frees the places on the prev chain of a dynamic pool, in order, and nothing of any other |
| `Vpool.VpoolHeader.FreedBlocks` | src/vpool.c:89-113 | these are the memory of every block of a dynamic pool but the first, each exactly once |
| `Vpool.VpoolHeader.FreesGrownIff` | src/vpool.c:89-113 | what is freed is exactly what was grown if and only if the pool is still dynamic or has never grown |
| `Vpool.ExtendedPoolLeaks` | src/vpool.c:89-113 | a dynamic pool that grew and was extended by 128 bytes, which hold 9 elements: deinit frees nothing and the grown block is lost |
| `Vpool.VpoolHeader.StaticFullIff` | src/vpool.c:131-202 | a static pool refuses exactly when capacity elements are held |
| `Vpool.VpoolHeader.DynamicTotal` | src/vpool.c:145-161 | a dynamic pool grown k times owns first * (2^(k+1) - 1) slots |
| `ListLinks.InsertLinks` | src/vdll.c:214-264 | linking a node between its neighbours keeps the chain mutually linked |
| `ListLinks.RemoveLinks` | src/vdll.c:284-302 | joining the neighbours of a node keeps the chain mutually linked |
| `Vdll.VdllList.Wind` | src/vdll.c:72-88 | moves the cursor forward; it leaves the list, or follows a null pointer, exactly when start and increment pass the end |
| `Vdll.VdllList.Rewind` | src/vdll.c:90-106 | moves the cursor back, stopping at the front, and recovers a cursor that is inside the list |
| `Vdll.VdllList.Seek` | src/vdll.c:44-70 | succeeds exactly for positions in the list, or 0 in an empty one; the cached pointer is the node at the cached position |
| `Vdll.VdllList.GetDirect` | src/vdll.c:174-184 | the node at the index of the plain sequence; a null dereference exactly for index 0 of an empty list |
| `Vdll.VdllList.Set` | src/vdll.c:186-200 | writes the element at the index and no other |
| `Vdll.VdllList.InsertOne` | src/vdll.c:214-264 | one new node beside the cursor, the chain otherwise unchanged and mutually linked |
| `Vdll.VdllList.Insert` | src/vdll.c:214-264 | num_elems new nodes side by side, all else in order, the cursor at the position asked for; when nodes run out, what the rollback leaves; list and cursor stay sound in all cases but a rollback in a list that was empty |
| `Vdll.VdllList.Rollback` | src/vdll.c:229-236 | when more than one node was created, deletes as many going back from position + 1; otherwise nothing |
| `Vdll.VdllList.DeleteOne` | src/vdll.c:281-312 | removes the node at the cursor and no other; the cursor moves back |
| `Vdll.VdllList.Delete` | src/vdll.c:266-315 | removes num_elems nodes going backwards from the position; list and cursor stay sound if and only if the range lies in the list, the call fails early, or it starts at 0; otherwise exactly when it crashes |
| `Vdll.VdllList.Grow` | src/vdll.c:317-331 | new elements go before the last one; when nodes run out, what the rollback leaves |
| `Vdll.VdllList.Shrink` | src/vdll.c:333-343 | the elements that a backwards delete from cap - num_elems takes; more than there are is refused |
| `Vdll.VdllList.Deinit` | src/vdll.c:137-147 | every node goes |
| `Vdll.DeletesRangeIff` | src/vdll.c:266-315 | a delete takes the range that starts at its position if and only if it takes one node or starts at the front |
| `Vdll.ShrinkTakesTailIff` | src/vdll.c:333-343 | a shrink takes the last nodes if and only if it takes one or all |
| `Vdll.InsertsBeforeIff` | src/vdll.c:239-258 | an insert puts the new nodes before the one at its position, and the other form behind it, if and only if the list is empty |
| `Vdll.GrowsAtEndIff` | src/vdll.c:317-331 | a grow puts the new nodes at the end if and only if the list is empty |
| `Vdll.RollbackRestoresIff` | src/vdll.c:229-236 | a failed insert leaves the list as it was if and only if it created no node, or the list was not empty, the insert was of the form that grow uses, and it created two nodes or, at position 0, more; one created node stays |
| `ArenaStack.RecordRoundTrip` | src/varena.c:119-131 | a frame record written into the bytes is read back as it was |
| `ArenaStack.LevelsApart` | src/varena.c:103-132 | frames do not overlap |
| `ArenaStack.RecordsClear` | src/varena.c:103-177 | an allocation lies inside its own frame and clear of the record of every frame |
| `ArenaStack.AllocationsApart` | src/varena.c:157-177 | allocations of all frames are pairwise disjoint |
| `ArenaStack.StackedFrame` | src/varena.c:95-155 | bytes that no record uses do not matter to the frames |
| `ArenaStack.OuterFramesKept` | src/varena.c:103-177 | a run that closes no frame it did not open leaves the outer frames as they were |
| `ArenaStack.BracketRestores` | src/varena.c:103-155 | a claim, any well-bracketed run and the matching disclaim restore the frames and with them top and bottom |
| `Varena.Arena.constructor` | src/varena.c:9-33 | a new arena has no frame and zero bytes |
| `Varena.Arena.Open` | src/varena.c:119-131 | moves top and bottom and writes the record at the end of the frame; sound if and only if the record fits above the frame below |
| `Varena.Arena.Claim` | src/varena.c:103-132 | refuses size 0 and sums, as they wrap, beyond the capacity; sound if and only if refused or the sum does not wrap; a wrapping request that ends below 16 copies to a null pointer; no bytes but the record change |
| `Varena.WrappingClaim` | src/varena.c:119-131 | a claim of 2^64 - 16 bytes in a frame is accepted and its record replaces the record of that frame |
| `Varena.Arena.Disclaim` | src/varena.c:134-155 | reads the record back from the bytes and returns to exactly the frame below |
| `Varena.Arena.Alloc` | src/varena.c:157-177 | null exactly when the sum, as it wraps, reaches the record of the frame; otherwise the old top; sound if and only if refused or the sum does not wrap |
| `Varena.WrappingAlloc` | src/varena.c:157-177 | an allocation of 2^64 - 1 bytes is accepted and moves top back |
| `Varena.Arena.ClientWrite` | src/varena.c:157-177 | a write inside any allocation changes no frame record and no other byte |
| `Varena.Arena.FrameUsed` | src/varena.c:76-84 | the used bytes of the frame are what its allocations add up to |

## Left out

- src/gtpoolrr.c, src/greent.c, src/greent_asm.S and src/fmutex.c: io_uring, stack copying, register switching and the futex mutex; the mutex is taken as the contract in header/fmutex.h promises.
- SipHash and the salt: the hash is any function from keys to numbers, and the start of the rehash walk any number. Keys are values with equality, not byte arrays.
- vht_iterate_start and vht_iterate_next, and the byte sizes of keys and values.
- C11 memory ordering: steps are sequentially consistent. Overflow of unwrapped front and back past 2^64 in aqueue and vqueue: they are natural numbers.
- Aqueue.EnqueueDelivers: a call that the other side does not interrupt; Aqueue.CallsAreAtomic and Aqueue.FifoOnEveryRun hold in every interleaving.
- Aqueue.DequeueDelivers: likewise.
- Return codes of the batch calls of aqueue, aqueue_front and mpscqueue_front; null-argument branches everywhere.
- FsemaphoreMaxima.NeverStrandedIff: the initial value is at most the maximum. Spurious wakeups and interrupted waits are steps; a futex call that fails otherwise is not modelled.
- tpoolrr_jobs_assign, tpoolrr_completions_popsome, tpoolrr_stop_unsafe, the retry loops of jobs_addall and completions_popall, pthread calls that fail (with the unlock of another mutex in the error path of _tpoolrr_jobs_add), and wall-clock time: a job may expire at any step if it carries an expiration. Jobs are given the pool; it is assumed that they do not call the functions that add jobs or change the state of the pool. The queues of a pool are sequences here; Aqueue.CallsAreAtomic says why a ring used by one thread on each side may be taken as one.
- TreeRuns.RunRefinesMultiset: uses the deletion function, not the code, in which a delete may crash or lose a subtree; TreeLinkRuns.CodeRefinesMultiset is the theorem about the code, and TreeLinkRuns.EveryRunSpelledIff says on which runs the two agree.
- TreeLinkRuns.EveryRunSpelledIff: what becomes of a run after its first crash, or after its first delete of a node that is its own parent (TreeMemory.DeleteLosesSubtree gives the tree right after that delete).
- tree_insert_many, tree_update and its batch form, tree_reorder_ror, the pre-, in- and post-order iterators, graphviz. Tree values are unbounded integers, not bytes.
- TreeIterator.BfsIterator.constructor: the tree does not change while it is iterated.
- vdll_get copies the element that GetDirect finds; vdll_create and vdll_destroy. vdll capacities stay below 2^64.
- Vpool.VpoolHeader.Dealloc: only elements the client holds; double deallocation is outside its contract. malloc failures other than that of a growth.
- Vpool.VpoolHeader.Extend: alignment and byte addresses inside a block; an element is a block and a slot, and its first word.
- Varena.Arena.Alloc: at least one frame is claimed; without one the bound underflows.
- Varena.Arena.ClientWrite: clients write only inside their allocations.
- Containers without hidden state of interest: vstack, tbuf, varray, cstring, pointerarith, tld, fqueue.
