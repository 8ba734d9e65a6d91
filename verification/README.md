# Hermes SHM: a verified model

Hermes SHM is a C++ library of shared-memory allocators, containers, locks and small solvers.
This project models its hardest parts in Dafny and proves what they are for:

- **Locks** (`TicketLock.dfy`, `RwLock.dfy`, `RwLockExclusion.dfy`, `RwLockProgress.dfy`,
  `Threads.dfy`): any number of threads, one atomic operation per step, every interleaving; who is
  kept out, and who gets in.
- **Lock-free queues** (`MpscStack.dfy`, `MpscStackCalls.dfy`, `MpscRing.dfy`,
  `MpscRingCalls.dfy`): many producers and one consumer over a
  linked stack and over a ring of slots, again one atomic operation per step. Compare-exchange
  may fail spuriously. Both are shown to refine a plain stack and a plain queue.
  `SplitMachine.dfy` has the split queue with many producers and consumers.
- **Allocators** (`PageSizes.dfy`, `PagePool.dfy`, `PageReuse.dfy`, `LifoLists.dfy`, `PageAllocator.dfy`,
  `TidPool.dfy`): size classes, free lists, the first-fit fallback list, the bump heap, the
  payload bytes, and the pool of thread identifiers.
- **Containers** (`FixedRing.dfy`, `SplitQueue.dfy`, `KeySets.dfy`, `Slists.dfy`,
  `UnorderedMaps.dfy`, `Vectors.dfy`): classes with the fields the library has, each method
  proved against the sequence, map or partition it stands for.
- **Algorithms** (`Sorting.dfy`, `Matrices.dfy`, `GaussJordan.dfy`, `GaussPivots.dfy`,
  `LeastSquares.dfy`, `SolverSteps.dfy`, `RealNumbers.dfy`, `Arithmetic.dfy`, `Serialization.dfy`): in-place sorting of arrays, matrix
  inversion and least squares over exact reals, 48.16 fixed-point arithmetic in wrapping words,
  and the length-prefixed archive format.

The step machines are relations or functions on a state value; a run is a sequence of states
and actions, and the main results hold at every position of every run. The sequential parts
are classes whose methods follow the library's loops.

## What does not hold, and exactly when

Some promises of the library are not kept by its code. The code is modelled as it is; each
failure is shown on an input or a run, and the exact condition is proved.

- `RwLock`: a reader and a writer can be inside together, because the reset of the mode can
  take effect after the counter that justified it has changed. `RwLock.SplitUpdateLetsBothIn` is
  such a run. A reset is harmful if it takes the mode from a reader relying on it, or from the
  writer whose turn it is. In a run, a state from which a reader and a writer can get inside
  together without any further reset occurs if and only if a harmful reset has occurred
  (`RwLockExclusion.ExclusionExactly`, and for one step `OnlyHarmfulResetsBreak`); being inside
  together always means that one came before (`BothInsideNeedsHarm`). Exclusion holds when the
  update of the mode is one step (`RwLock.ReadersExcludeWriters`).
- `Mutex::TryLock`: a success never takes back its increment of `try_lock_`, so over the life of
  a lock it succeeds at most once. Called while no other is under way it succeeds if and only if
  the lock is free and none has succeeded before (`TicketLock.TryLockPassesExactlyWhen`); `TicketLock.TryLockRefusedWhenFree` is a
  run in which it is refused although nobody holds or wants the lock.
- `is_sorted`: it compares neighbours with the strict order itself, so it refuses a sorted pair of
  equal elements (`Sorting.EqualPairIsRefused`). After a sort it answers true if and only if no
  two elements of the input were equivalent (`Sorting.SortThenCheck`).
- `MatrixInverse`: the result is the inverse of its argument if and only if the regularisation
  branch is never taken (`GaussJordan.InvertsExactlyUnlessRegularised`); an invertible matrix that
  does not come back inverted is in `GaussJordan.InvertibleIsNotInverted`.
- `Minimize`: for a nonempty parameter vector it reports success if and only if the tolerance is
  positive, converged or not (`LeastSquares.NonlinearLeastSquares.Minimize`); with no iterations
  allowed it does so away from the minimum (`LeastSquares.SucceedsWithoutAStep`).
- Reallocation: the copy stays inside the new page if and only if the new size is rounded to at
  least the size first requested (`PageAllocator.CopyFitsExactlyWhen`); 65 bytes shrunk to one
  do not fit (`PageAllocator.ShrinkingOverruns`).
- Small requests: a request of 32 bytes or less looks into the list of 4 KB pages, and its page is
  freed into the list of 64-byte pages. So after allocating, freeing and allocating again the same
  page comes back if and only if the request is larger than 32 bytes
  (`PageReuse.ComesBackExactlyWhen`), and a program of such requests alone never gets a page twice
  (`PageReuse.SmallRequestsNeverReuse`).
- `RealNumber`: each operation is exact, or the exact floor, if and only if its intermediate
  words do not wrap (`RealNumbers.RatioIsFloor`, `IntProductIsExact`, `ProductIsFloor`). Inputs
  that wrap are in `RatioWraps`, `TimesIntWraps` and `TimesWraps`.
- `key_set`: when it grows, the stored values survive if the element type is plain data, and are
  lost otherwise, because growing a vector moves `length_` elements and the key set never
  changes that length from zero (`KeySets.KeySet.Emplace`, with `KeySets.GrowthLosesValues`).
- `slist`: inserting before a position that is neither the first nor the end drops the element at
  that position from the chain, and counts one element too many. The list stays well formed if
  and only if the position is the first or the end (`Slists.Slist.Emplace`, with
  `Slists.InsertionBetweenLosesOne`).
- Ring queues: the producer keeps its slot index in 32 bits, the consumer in 64. They agree on
  every ticket if and only if the depth is at most 2^32 (`MpscRing.DepthLimit`).

## Model

| member | source | states |
|---|---|---|
| TicketLock.MutualExclusion | include/hermes_shm/thread/lock/mutex.h:44-74 | in every run of any threads mixing Lock, TryLock and Unlock at most one thread is in the critical section |
| TicketLock.OutstandingTickets | include/hermes_shm/thread/lock/mutex.h:44-74 | in every reachable state the tickets held are exactly those from head_ up to lock_, each held by one thread |
| TicketLock.EntersAfterExactlyItsTurn | include/hermes_shm/thread/lock/mutex.h:44-54 | a thread waiting with ticket k enters after exactly k minus head_ further unlocks, when every lower ticket is gone |
| TicketLock.NeverStuck | include/hermes_shm/thread/lock/spin_lock.h:35-64 | while tickets are outstanding the owner of the lowest one has a step, entering or unlocking |
| TicketLock.LocksAtOnceExactlyWhen | include/hermes_shm/thread/lock/mutex.h:44-54 | Lock lets a thread in by its own three steps if and only if no ticket is outstanding |
| TicketLock.TryLockPassesAtMostOnce | include/hermes_shm/thread/lock/mutex.h:58-65 | over a whole run TryLock passes at most once, and after that every test is refused |
| TicketLock.TryLockIsFreshExactly | include/hermes_shm/thread/lock/mutex.h:58-65 | try_lock_ is zero if and only if no TryLock has passed and none is under way |
| TicketLock.TryLockPassesExactlyWhen | include/hermes_shm/thread/lock/mutex.h:58-65 | with no other test under way, a TryLock passes if and only if the lock is free and none has passed before |
| TicketLock.TryLockRefusedWhenFree | include/hermes_shm/thread/lock/mutex.h:58-65 | a run in which TryLock is refused on a lock that nobody holds or waits for |
| TicketLock.TicketsStep | include/hermes_shm/thread/lock/mutex.h:44-74 | every atomic step keeps the ownership of tickets intact |
| RwLock.OneWriterInTicketOrder | include/hermes_shm/thread/lock/rwlock.h:122-156 | at single-operation granularity at most one writer is inside and every other writer's ticket is higher |
| RwLock.UnlockNeverUnderflows | include/hermes_shm/thread/lock/rwlock.h:118-156 | a reader or writer inside is counted, so neither unlock takes a counter below zero |
| RwLock.OnlyStaleResetsBreak | include/hermes_shm/thread/lock/rwlock.h:161-169 | a step takes the mode away from a thread relying on it, inside or queued, if and only if it is a reset under such a thread |
| RwLock.ReadersExcludeWriters | include/hermes_shm/thread/lock/rwlock.h:90-169 | with the mode update as one step no reader and writer are ever inside together; the exact condition without that is RwLockExclusion.ExclusionExactly |
| RwLock.SplitUpdateLetsBothIn | include/hermes_shm/thread/lock/rwlock.h:164-167 | a run in which a stale reset lets a reader and a writer in together |
| RwLockExclusion.ExclusionExactly | include/hermes_shm/thread/lock/rwlock.h:90-169 | in every run, a state from which reader and writer can get inside together with no further reset has occurred if and only if a reset has hit a reader relying on the mode or the writer whose turn it was |
| RwLockExclusion.OnlyHarmfulResetsBreak | include/hermes_shm/thread/lock/rwlock.h:161-169 | from a safe state exclusion can be lost without a further reset if and only if the step is such a reset |
| RwLockExclusion.BothInsideNeedsHarm | include/hermes_shm/thread/lock/rwlock.h:90-169 | a reader and a writer inside together at some point of a run means such a reset came before |
| RwLockExclusion.CoherentExactly | include/hermes_shm/thread/lock/rwlock.h:161-169 | in every run, every thread has found the mode it relies on if and only if no reset has hit one that did |
| RwLockExclusion.WriterResetBreaks | include/hermes_shm/thread/lock/rwlock.h:90-169 | after a writer's reset under a reader relying on kRead, a continuation puts that reader and a writer inside together |
| RwLockExclusion.ReaderResetBreaks | include/hermes_shm/thread/lock/rwlock.h:90-169 | after a reader's reset under the writer whose turn it is, a continuation puts that reader and that writer inside together |
| RwLockProgress.ReaderGetsInExactlyWhen | include/hermes_shm/thread/lock/rwlock.h:90-116 | in every reachable state and at every step of ReadLock a waiting reader gets in by its own steps, whatever mode was left behind, if and only if the mode is not kWrite, or no writer is announced, or it has already seen kRead or is about to reset the mode |
| RwLockProgress.WriterGetsInExactlyWhen | include/hermes_shm/thread/lock/rwlock.h:122-149 | in every reachable state and at every step of WriteLock a waiting writer gets in by its own steps if and only if its ticket is cur_writer_, and the mode is not kRead, or no reader is announced, or it has already seen kWrite or is about to reset the mode |
| RwLockProgress.LostClaimStillEnters | include/hermes_shm/thread/lock/rwlock.h:131-145 | a writer whose turn it is and whose exchange comes too late reads the mode again and is in after three steps |
| RwLockProgress.LooksAfresh | include/hermes_shm/thread/lock/rwlock.h:98-147 | a waiting thread by its own steps is inside or back in its loop: it never keeps acting on a mode it once saw |
| MpscStack.RefinesStack | include/hermes_shm/data_structures/ipc/mpsc_lifo_list_queue.h:178-234 | in every interleaving the successful exchanges so far are a legal history of a stack and the acyclic chain from tail_shm_ is that stack |
| MpscStack.InvStep | include/hermes_shm/data_structures/ipc/mpsc_lifo_list_queue.h:178-234 | every step is a push, a pop or nothing on the abstract stack, and keeps chain, ownership and tally |
| MpscStack.NodesAreConserved | include/hermes_shm/data_structures/ipc/mpsc_lifo_list_queue.h:178-234 | counted with multiplicity, what was pushed is what was popped plus what is linked, with nodes pushed again freely |
| MpscStack.PopInstallsTheCurrentLink | include/hermes_shm/data_structures/ipc/mpsc_lifo_list_queue.h:221-231 | a successful pop installs the removed node's current link, however stale the read: no ABA |
| MpscStack.ConsumerFindsWhatItCounted | include/hermes_shm/data_structures/ipc/mpsc_lifo_list_queue.h:214-232 | count_ never underflows and a consumer that read a nonzero size never takes the null-tail exit |
| MpscStack.CountIsExact | include/hermes_shm/data_structures/ipc/mpsc_lifo_list_queue.h:184-232 | count_ is the chain length minus producers between exchange and increment plus the consumer between exchange and decrement |
| MpscStackCalls.SizeCheckExactly | include/hermes_shm/data_structures/ipc/mpsc_lifo_list_queue.h:214-217 | a dequeue is turned back at the size check if and only if every linked node is still to be counted by its producer |
| MpscStackCalls.DequeueAlone | include/hermes_shm/data_structures/ipc/mpsc_lifo_list_queue.h:213-234 | whenever count_ is positive, a dequeue alone pops exactly the top of the chain, hands it over and is at rest again |
| MpscStackCalls.DequeueFinishes | include/hermes_shm/data_structures/ipc/mpsc_lifo_list_queue.h:219-233 | a consumer left alone at any step of dequeue pops the present top, unless it has popped, and returns |
| MpscStackCalls.EnqueueAlone | include/hermes_shm/data_structures/ipc/mpsc_lifo_list_queue.h:178-188 | an enqueue alone pushes exactly the node it was called with |
| MpscStackCalls.EnqueueFinishes | include/hermes_shm/data_structures/ipc/mpsc_lifo_list_queue.h:180-186 | a producer left alone at any step of enqueue, however outdated what it saw, pushes its node, unless it has, and returns |
| MpscStackCalls.EnqueueIsOnePush | include/hermes_shm/data_structures/ipc/mpsc_lifo_list_queue.h:178-188 | in every interleaving an enqueue that has returned pushed once, and pushed its argument |
| MpscStackCalls.DequeueIsOnePop | include/hermes_shm/data_structures/ipc/mpsc_lifo_list_queue.h:213-234 | in every interleaving a dequeue past the size check returns only after exactly one pop, with that node |
| MpscStackCalls.FailedPushMeansProgress | include/hermes_shm/data_structures/ipc/mpsc_lifo_list_queue.h:180-185 | lock freedom: an exchange of a producer that fails, not spuriously, means that a push or pop has succeeded since its load |
| MpscStackCalls.FailedPopMeansPush | include/hermes_shm/data_structures/ipc/mpsc_lifo_list_queue.h:220-232 | an exchange of the consumer that fails, not spuriously, means that a producer has pushed since its load |
| MpscRing.PopsInTicketOrder | include/hermes_shm/data_structures/ipc/ring_queue.h:205-277 | in every interleaving the popped values are the pushed ones in ticket order, each once, the first head_ of them |
| MpscRingCalls.DeliversTheCallersArgument | include/hermes_shm/data_structures/ipc/ring_queue.h:205-277 | in every interleaving the k-th delivered value is the argument of the emplace call that took ticket k |
| MpscRingCalls.TicketsAreTakenOnce | include/hermes_shm/data_structures/ipc/ring_queue.h:209-209 | no two calls take the same ticket |
| MpscRingCalls.PopDeliversOrFindsNothing | include/hermes_shm/data_structures/ipc/ring_queue.h:258-277 | a pop that has returned delivered one value, or none: then head_ had reached tail_ or the oldest ticket was not filled |
| MpscRingCalls.PopAlone | include/hermes_shm/data_structures/ipc/ring_queue.h:258-277 | a pop alone delivers the oldest value if its ticket is filled, and clears its slot |
| MpscRingCalls.PopAloneFindsNothing | include/hermes_shm/data_structures/ipc/ring_queue.h:258-277 | otherwise it changes nothing |
| MpscRingCalls.EmplaceAlone | include/hermes_shm/data_structures/ipc/ring_queue.h:205-245 | an emplace(v) alone on a ring with room fills the next ticket's slot with v |
| MpscRingCalls.EmplaceAloneWaits | include/hermes_shm/data_structures/ipc/ring_queue.h:212-226 | on a full ring it takes its ticket and then waits without changing anything |
| MpscRingCalls.EmplaceReturnsExactlyWhen | include/hermes_shm/data_structures/ipc/ring_queue.h:205-245 | in every reachable state an emplace, wherever it is, returns by its own steps if and only if its ticket is within a ring's length of head_ |
| MpscRing.NoOverwrite | include/hermes_shm/data_structures/ipc/ring_queue.h:212-245 | a producer past the space check writes a slot whose ready bit is clear and that no unconsumed ticket uses |
| MpscRing.SizesNeverWrap | include/hermes_shm/data_structures/ipc/ring_queue.h:213-219 | the unsigned tail minus head never wraps in the size checks |
| MpscRing.OldestTicketMoves | include/hermes_shm/data_structures/ipc/ring_queue.h:208-276 | the oldest outstanding ticket is ready to pop or its producer passes the space check: no deadlock |
| MpscRing.WindowSlotsDistinct | include/hermes_shm/data_structures/ipc/ring_queue.h:239-267 | tickets of one window of depth tickets use pairwise different slots |
| MpscRing.DepthLimit | include/hermes_shm/data_structures/ipc/ring_queue.h:239-267 | the producer's 32-bit slot index and the consumer's 64-bit one agree on every ticket if and only if the depth is at most 2^32 |
| MpscRing.InvStep | include/hermes_shm/data_structures/ipc/ring_queue.h:205-277 | every step of a producer or of the consumer keeps the window of slots and the outstanding tickets in order |
| PageSizes.RoundHolds | include/hermes_shm/memory/allocator/page_allocator.h:40-58 | the rounded size is never below the request |
| PageSizes.RoundIsMonotone | include/hermes_shm/memory/allocator/page_allocator.h:40-58 | a larger request is never rounded to a smaller page |
| PageSizes.FreedPageFindsItsList | include/hermes_shm/memory/allocator/page_allocator.h:141-153 | rounding a page's own size gives it back, and leads to the list of its class, or to the fallback list |
| PageSizes.CachedPageIsLargeEnough | include/hermes_shm/memory/allocator/page_allocator.h:121-128 | the class of the list an allocation is served from is large enough, also for requests of at most 32 bytes served from the 4 KB list |
| PageSizes.RoundIsLeastPage | include/hermes_shm/memory/allocator/page_allocator.h:40-58 | one request's page is at least another's exactly when it holds the other request |
| PageReuse.PageOf | include/hermes_shm/memory/allocator/page_allocator.h:40-58 | the size classes in numbers: 64 bytes, the next power of two below 2n, or exactly n, behind the header; and the list each is looked for in |
| PagePool.RunsAreCoherent | include/hermes_shm/memory/allocator/scalable_page_allocator.h:114-190 | after every prefix of every legal sequence of allocations and frees the extents lie in the region and apart, every page is where its size says, and the total is the sum of live page sizes |
| PagePool.AllocateKeeps | include/hermes_shm/memory/allocator/scalable_page_allocator.h:114-144 | an allocation keeps all that, hands out a page nobody holds and moves or resizes no carved extent; which page, and when it fails, is PageReuse |
| PageReuse.FailsExactlyWhen | include/hermes_shm/memory/allocator/scalable_page_allocator.h:114-136 | an allocation fails if and only if its class's list is empty, or no page of the fallback list is large enough, and the heap has no room |
| PageReuse.TakesTheTop | include/hermes_shm/memory/allocator/page_allocator.h:122-127 | a nonempty class list serves its first page and nothing else moves |
| PageReuse.TakesTheFirstThatFits | include/hermes_shm/memory/allocator/page_allocator.h:128-136 | from the fallback list comes the first page large enough and nothing else moves |
| PageReuse.CarvesWhenNothingFits | include/hermes_shm/memory/allocator/scalable_page_allocator.h:125-136 | otherwise the page is carved at the heap's end, which moves even if there is no room |
| PageReuse.FreePutsOnTop | include/hermes_shm/memory/allocator/page_allocator.h:140-153 | a freed page becomes the first of its list and nothing else moves |
| PageReuse.ComesBackExactlyWhen | include/hermes_shm/memory/allocator/scalable_page_allocator.h:114-190 | allocate n bytes, free, allocate n bytes: the same page without growing the heap if and only if n > 32 |
| PageReuse.FreedPageComesBack | include/hermes_shm/memory/allocator/scalable_page_allocator.h:114-190 | the same at any point of any run |
| PageReuse.SmallRequestsNeverReuse | include/hermes_shm/memory/allocator/page_allocator.h:48-50 | in a run with requests of at most 32 bytes only, every allocation carves a new page |
| PagePool.FreeKeeps | include/hermes_shm/memory/allocator/scalable_page_allocator.h:179-190 | a free is accepted exactly for a live page, so no page is listed twice, and it keeps all that |
| PagePool.PagesAreConserved | include/hermes_shm/memory/allocator/page_allocator.h:121-153 | a carved page is never lost and never resized for the rest of the run |
| PagePool.EveryPageIsInOnePlace | include/hermes_shm/memory/allocator/page_allocator.h:121-153 | every carved page is live or waits at one position of one list, exactly one of these |
| PagePool.LiveBlocksAreSafe | include/hermes_shm/memory/allocator/scalable_page_allocator.h:114-144 | the bytes of a live block are as many as requested, lie in the region and overlap no other page |
| PagePool.NoLeakMeansZero | include/hermes_shm/memory/allocator/scalable_page_allocator.h:139-199 | with size tracking the reported total is zero exactly when nothing is live |
| PagePool.FirstAllocationIsLive | include/hermes_shm/memory/allocator/scalable_page_allocator.h:126-143 | a fresh region with room serves its first request from its start, and that block is then the live one |
| PagePool.TakenPageIsLargeEnough | include/hermes_shm/memory/allocator/page_allocator.h:121-138 | the page taken from a list records, and so was carved with, at least the size needed |
| PageAllocator.HeapAllocator.AllocateOffset | include/hermes_shm/memory/allocator/heap.h:53-63 | the offset always grows; the result is the old offset if the request fits, otherwise null |
| PageAllocator.HeapAllocator.Align | include/hermes_shm/memory/allocator/stack_allocator.h:102-107 | the offset moves up to the next multiple of 4096 |
| PageAllocator.ScalablePageAllocator.AllocateCached | include/hermes_shm/memory/allocator/page_allocator.h:122-138 | the scan loop takes the top of the class's list, or the first page of the fallback list that is large enough, and nothing else changes |
| PageAllocator.ScalablePageAllocator.AllocateOffset | include/hermes_shm/memory/allocator/scalable_page_allocator.h:114-144 | the object's new state is the allocation step on its abstract state and stays coherent |
| PageAllocator.ScalablePageAllocator.PutBack | include/hermes_shm/memory/allocator/page_allocator.h:141-153 | the page is put on top of the list its recorded size leads to |
| PageAllocator.ScalablePageAllocator.FreeOffset | include/hermes_shm/memory/allocator/scalable_page_allocator.h:179-190 | the new state is the free step; a double free is refused and changes nothing |
| PageAllocator.ScalablePageAllocator.ReallocateOffset | include/hermes_shm/memory/allocator/scalable_page_allocator.h:164-173 | for any live block and positive size: the payload moves to a new page and the old one is freed, other payloads stay; says when instead the copy would not fit the new page |
| PageAllocator.CopyFitsExactlyWhen | include/hermes_shm/memory/allocator/scalable_page_allocator.h:164-173 | the copy stays inside the new page if and only if the new size is rounded to at least the size requested before; asking for no less suffices |
| PageAllocator.ShrinkingOverruns | include/hermes_shm/memory/allocator/scalable_page_allocator.h:170-170 | shrinking 65 bytes to one copies past the new page |
| PageAllocator.MoveKeeps | include/hermes_shm/memory/allocator/scalable_page_allocator.h:164-174 | copying a page's contents into another live page that is at least as large carries the payload over and leaves every other payload as it was |
| PageAllocator.LivePagesAreApart | include/hermes_shm/memory/allocator/scalable_page_allocator.h:140-143 | the recorded pages of two live blocks do not overlap |
| LifoLists.LifoList.Enqueue | include/hermes_shm/data_structures/ipc/lifo_list_queue.h:307-311 | the page comes first, the rest follows unchanged, and the links describe exactly that list |
| LifoLists.LifoList.Dequeue | include/hermes_shm/data_structures/ipc/lifo_list_queue.h:352-360 | the first page leaves; null exactly from an empty list |
| LifoLists.LifoList.DequeueAt | include/hermes_shm/data_structures/ipc/lifo_list_queue.h:381-391 | the page at the iterator leaves and the others keep their order |
| LifoLists.LinkedWithout | include/hermes_shm/data_structures/ipc/lifo_list_queue.h:385-390 | bridging over a position unlinks exactly it |
| TidPool.RunsKeepPartition | include/hermes_shm/memory/allocator/thread_local_allocator.h:65-84 | in every run live and free identifiers partition those below tid_heap_, none twice |
| TidPool.HeapIsPeak | include/hermes_shm/memory/allocator/thread_local_allocator.h:65-84 | tid_heap_ is the largest number of identifiers ever live at once |
| TidPool.SlotsSuffice | include/hermes_shm/memory/allocator/thread_local_allocator.h:87-89 | a live identifier indexes the slots in bounds if never more than max_threads were live |
| TidPool.CreateKeeps | include/hermes_shm/memory/allocator/thread_local_allocator.h:65-77 | a created identifier was not live, and the heap grows only when all of it is live |
| TidPool.LastFreedComesBack | include/hermes_shm/memory/allocator/thread_local_allocator.h:66-87 | the identifier freed last is handed out next, then the one freed before it |
| TidPool.ThreadLocalAllocatorHeader.CreateTid | include/hermes_shm/memory/allocator/thread_local_allocator.h:65-77 | the method does the creation step and keeps the partition |
| TidPool.ThreadLocalAllocatorHeader.FreeTid | include/hermes_shm/memory/allocator/thread_local_allocator.h:80-84 | the method does the freeing step and keeps the partition |
| FixedRing.Ring.Emplace | include/hermes_shm/data_structures/ipc/ring_queue.h:205-248 | appends if there is room; otherwise the null token and no change to the contents |
| FixedRing.Ring.Pop | include/hermes_shm/data_structures/ipc/ring_queue.h:258-277 | removes and returns the oldest element; nothing exactly when empty |
| FixedRing.Ring.PopBack | include/hermes_shm/data_structures/ipc/ring_queue.h:303-323 | removes and returns the newest element; nothing exactly when empty |
| FixedRing.Ring.Resize | include/hermes_shm/data_structures/ipc/ring_queue.h:190-197 | keeps the contents in order, cut to the new depth |
| FixedRing.PushWindow | include/hermes_shm/data_structures/ipc/ring_queue.h:239-246 | writing the slot of the next ticket appends to the window and disturbs no slot of it |
| FixedRing.PopWindow | include/hermes_shm/data_structures/ipc/ring_queue.h:267-272 | clearing the oldest ticket's slot drops the first element and no other |
| FixedRing.PopBackWindow | include/hermes_shm/data_structures/ipc/ring_queue.h:310-318 | clearing the newest ticket's slot drops the last element and no other |
| SplitQueue.TicketQueue.Emplace | include/hermes_shm/data_structures/ipc/ticket_queue.h:172-177 | appends to the inner ring unless it is full and leaves the lock free |
| SplitQueue.TicketQueue.Pop | include/hermes_shm/data_structures/ipc/ticket_queue.h:181-186 | takes the oldest element of the inner ring and leaves the lock free |
| SplitQueue.SplitTicketQueue.Emplace | include/hermes_shm/data_structures/ipc/split_ticket_queue.h:181-195 | for one caller: the first split with room from the round-robin position takes the element at its end; fails exactly when every split is full; the multiset grows by just that element |
| SplitQueue.SplitTicketQueue.Pop | include/hermes_shm/data_structures/ipc/split_ticket_queue.h:200-214 | for one caller: the first nonempty split from the round-robin position gives its oldest; fails exactly when all are empty; the multiset loses just that element |
| SplitQueue.PushSucceeds | include/hermes_shm/data_structures/ipc/split_ticket_queue.h:186-193 | pushing to the first open split conserves the multiset of all elements |
| SplitQueue.PopSucceeds | include/hermes_shm/data_structures/ipc/split_ticket_queue.h:205-212 | popping from the first nonempty split conserves the multiset of all elements |
| SplitQueue.PushFails | include/hermes_shm/data_structures/ipc/split_ticket_queue.h:186-194 | a round of refusals has visited every split, so all are full |
| SplitQueue.GatherUpdate | include/hermes_shm/data_structures/ipc/split_ticket_queue.h:181-214 | changing one split changes the whole by exactly the difference |
| SplitQueue.StartsGoRound | include/hermes_shm/data_structures/ipc/split_ticket_queue.h:182-185 | consecutive calls start at consecutive splits round and round, but where the 16-bit counter wraps |
| SplitMachine.SplitsAreQueues | include/hermes_shm/data_structures/ipc/split_ticket_queue.h:181-214 | with any number of threads and in every interleaving each split is a bounded first-in first-out queue: what entered it is what left it, in order, then what is there |
| SplitMachine.EntersItsArgument | include/hermes_shm/data_structures/ipc/split_ticket_queue.h:181-195 | what enters a split is the argument of the push that puts it there, and the split is the first this push found with room from its round-robin position |
| SplitMachine.LeavesTheFirstFound | include/hermes_shm/data_structures/ipc/split_ticket_queue.h:200-214 | a pop takes the oldest of the first split it found with an element from its round-robin position |
| SplitMachine.TurnsCountCalls | include/hermes_shm/data_structures/ipc/split_ticket_queue.h:182-182 | the round-robin position of a push or pop is the number of pushes or pops called before it |
| SplitMachine.GivenUpPushSawAllFull | include/hermes_shm/data_structures/ipc/split_ticket_queue.h:186-194 | a concurrent push that is refused met every split full at some moment of the call |
| SplitMachine.GivenUpPopSawAllEmpty | include/hermes_shm/data_structures/ipc/split_ticket_queue.h:205-213 | a concurrent pop that finds nothing met every split empty at some moment of the call |
| KeySets.RecycleKey | include/hermes_shm/data_structures/ipc/key_set.h:65-69 | handing out a queued key keeps live, queued and never-issued keys a partition of the naturals |
| KeySets.FreshKey | include/hermes_shm/data_structures/ipc/key_set.h:71-81 | handing out the next heap key keeps the partition |
| KeySets.GiveBackKey | include/hermes_shm/data_structures/ipc/key_set.h:55-55 | a live key can be queued again, and the queue then holds fewer keys than were ever issued |
| KeySets.KeySet.Emplace | include/hermes_shm/data_structures/ipc/key_set.h:41-44 | the key is new, below max_size_ and stores the entry; refused only without growth and with every key live, and then nothing changes; other values stay, unless a full set of a type that is not plain data grows: then all are lost |
| KeySets.KeySet.PopKey | include/hermes_shm/data_structures/ipc/key_set.h:65-82 | the oldest queued key first, then the next of the heap, then after growth; and the partition survives it |
| KeySets.KeySet.Resize | include/hermes_shm/data_structures/ipc/key_set.h:58-63 | the capacity doubles for the ring, the places and max_size_ alike |
| KeySets.KeySet.Erase | include/hermes_shm/data_structures/ipc/key_set.h:55-55 | a live key is queued; the ring never refuses it |
| KeySets.KeySet.Pop | include/hermes_shm/data_structures/ipc/key_set.h:48-51 | returns the value stored for the key and frees the key |
| KeySets.GrowthLosesValues | include/hermes_shm/data_structures/ipc/key_set.h:41-63 | a full growing key set of elements that are not plain data loses a live key's value to the next insertion |
| Slists.Slist.Emplace | include/hermes_shm/data_structures/ipc/slist.h:391-415 | at every position: insertion at the front or the end is sequence insertion over links, head, tail and length; anywhere else the new node takes the place of the node there, and the list stays well formed exactly in the first two cases |
| Slists.Slist.EmplaceFront | include/hermes_shm/data_structures/ipc/slist.h:385-387 | the sequence longer by the element at its front |
| Slists.Slist.EmplaceBetween | include/hermes_shm/data_structures/ipc/slist.h:408-414 | the chain afterwards is the old one with the node at the position replaced by the new one |
| Slists.InsertionBetweenLosesOne | include/hermes_shm/data_structures/ipc/slist.h:408-414 | inserting 15 before 20 in the list 10, 20 leaves the chain 10, 15 and the length 3 |
| Slists.Slist.FindPrior | include/hermes_shm/data_structures/ipc/slist.h:419-434 | the node before a position, null before the first, the last before the end |
| Slists.Slist.Erase | include/hermes_shm/data_structures/ipc/slist.h:449-472 | erasing a range removes that slice, relinks the rest, and frees exactly its nodes |
| Slists.Slist.Clear | include/hermes_shm/data_structures/ipc/slist.h:476-476 | the list is empty and every node freed |
| Slists.EraseShape | include/hermes_shm/data_structures/ipc/slist.h:449-472 | freeing a range and bridging the gap leaves one well-formed list of the others in order |
| Slists.PushBackShape | include/hermes_shm/data_structures/ipc/slist.h:401-407 | linking a node behind the tail leaves one well-formed list, longer by it at the end |
| Slists.PushFrontShape | include/hermes_shm/data_structures/ipc/slist.h:398-400 | linking a node before the head leaves one well-formed list, longer by it at the front |
| UnorderedMaps.SearchIsLookup | include/hermes_shm/data_structures/ipc/unordered_map.h:499-509 | scanning the key's bucket finds an entry exactly when the key is in the map, and then its value |
| UnorderedMaps.EntriesLieByHash | include/hermes_shm/data_structures/ipc/unordered_map.h:383-403 | every entry lies in the bucket that its key's hash selects |
| UnorderedMaps.AppendIsInsert | include/hermes_shm/data_structures/ipc/unordered_map.h:399-403 | appending to the bucket of an absent key is map insertion, each key once in its own bucket |
| UnorderedMaps.CutIsRemove | include/hermes_shm/data_structures/ipc/unordered_map.h:427-430 | erasing an entry from its bucket is map removal |
| UnorderedMaps.OrderVisitsEachKeyOnce | include/hermes_shm/data_structures/ipc/unordered_map.h:86-119 | bucket order meets every key once with its value, as many entries as keys |
| UnorderedMaps.UnorderedMap.FindCollision | include/hermes_shm/data_structures/ipc/unordered_map.h:499-509 | the first node with the key, or the end |
| UnorderedMaps.UnorderedMap.EmplaceTempl | include/hermes_shm/data_structures/ipc/unordered_map.h:383-405 | update, or insert if absent; true exactly when it wrote; length_ is the number of keys |
| UnorderedMaps.UnorderedMap.Emplace | include/hermes_shm/data_structures/ipc/unordered_map.h:356-358 | map update |
| UnorderedMaps.UnorderedMap.TryEmplace | include/hermes_shm/data_structures/ipc/unordered_map.h:369-371 | insert if absent |
| UnorderedMaps.UnorderedMap.Erase | include/hermes_shm/data_structures/ipc/unordered_map.h:416-431 | map removal, a no-op for an absent key |
| UnorderedMaps.UnorderedMap.EraseAt | include/hermes_shm/data_structures/ipc/unordered_map.h:437-447 | removes the key at the iterator, a no-op at the end |
| UnorderedMaps.UnorderedMap.Clear | include/hermes_shm/data_structures/ipc/unordered_map.h:452-458 | the empty map, and every node freed |
| UnorderedMaps.UnorderedMap.Find | include/hermes_shm/data_structures/ipc/unordered_map.h:480-495 | an iterator at the key's entry, or the end exactly when it is absent |
| UnorderedMaps.UnorderedMap.Index | include/hermes_shm/data_structures/ipc/unordered_map.h:470-476 | the key's value, or the not-found error |
| UnorderedMaps.UnorderedMap.MakeCorrect | include/hermes_shm/data_structures/ipc/unordered_map.h:103-119 | skips empty lists only: no entry is passed |
| UnorderedMaps.UnorderedMap.Begin | include/hermes_shm/data_structures/ipc/unordered_map.h:530-541 | the first entry, or the end |
| UnorderedMaps.UnorderedMap.Next | include/hermes_shm/data_structures/ipc/unordered_map.h:86-90 | passes exactly the current entry |
| UnorderedMaps.UnorderedMap.Iterate | include/hermes_shm/data_structures/ipc/unordered_map.h:86-119 | the loop from begin to end visits every entry exactly once, length_ of them |
| Vectors.AppendsAreCheap | include/hermes_shm/data_structures/ipc/vector.h:671-676 | any n appends from empty move at most 6n elements in all |
| Vectors.GrowthIsGeometric | include/hermes_shm/data_structures/ipc/vector.h:671-676 | each growth satisfies 6 old <= 5 new and adds at least ten |
| Vectors.GrowthIsModest | include/hermes_shm/data_structures/ipc/vector.h:671-676 | a growth adds a quarter of the capacity, or up to ten more when the quarter is at most ten |
| Vectors.LittleIsWasted | include/hermes_shm/data_structures/ipc/vector.h:671-676 | after n appends the capacity is at most n + n/4 + 20 |
| Vectors.Vector.GrowVector | include/hermes_shm/data_structures/ipc/vector.h:668-715 | same elements, new capacity, length_ moves; a smaller capacity is ignored |
| Vectors.Vector.Reserve | include/hermes_shm/data_structures/ipc/vector.h:478-483 | same elements; the capacity becomes the one asked for unless it is larger already |
| Vectors.Vector.EmplaceBack | include/hermes_shm/data_structures/ipc/vector.h:536-543 | appends; grows, and moves elements, only when full |
| Vectors.Vector.Emplace | include/hermes_shm/data_structures/ipc/vector.h:570-582 | sequence insertion |
| Vectors.Vector.Erase | include/hermes_shm/data_structures/ipc/vector.h:605-617 | removal of a slice, with positions past the end meaning the end |
| Vectors.Vector.ShiftRight | include/hermes_shm/data_structures/ipc/vector.h:747-757 | the tail of the array moves up by one intact |
| Vectors.Vector.ShiftLeft | include/hermes_shm/data_structures/ipc/vector.h:724-737 | the tail of the array moves down by count intact |
| Vectors.Vector.PopBack | include/hermes_shm/data_structures/ipc/vector.h:528-532 | drops the last element, if any |
| Vectors.FromSeq | include/hermes_shm/data_structures/ipc/vector.h:547-551 | a vector assigned from a sequence holds it, and moved at most six elements for each |
| Sorting.Sort | include/hermes_shm/data_structures/ipc/algorithm.h:94-100 | for every array range and strict weak order: a permutation with no later element less than an earlier one, nothing else touched |
| Sorting.InsertionSort | include/hermes_shm/data_structures/ipc/algorithm.h:104-115 | the same for the insertion sort loop |
| Sorting.QuickSort | include/hermes_shm/data_structures/ipc/algorithm.h:151-168 | the same, and the mutual recursion with sort terminates |
| Sorting.Partition | include/hermes_shm/data_structures/ipc/algorithm.h:155-165 | smaller elements before the stored pivot, no smaller ones after it |
| Sorting.Heapify | include/hermes_shm/data_structures/ipc/algorithm.h:119-132 | sifting down, in a heap that starts anywhere in the array, yields exactly the sift-down of that range and restores its heap order |
| Sorting.HeapSort | include/hermes_shm/data_structures/ipc/algorithm.h:136-147 | a sorted permutation of the range, nothing else touched |
| Sorting.SinkStep | include/hermes_shm/data_structures/ipc/algorithm.h:110-113 | swapping an element down keeps the range sorted but for it |
| Sorting.PartsMakeWhole | include/hermes_shm/data_structures/ipc/algorithm.h:165-167 | sorting both sides of the pivot sorts the range |
| Sorting.SiftDownHeap | include/hermes_shm/data_structures/ipc/algorithm.h:119-132 | sifting down restores the heap order below a position |
| Sorting.RootIsLargest | include/hermes_shm/data_structures/ipc/algorithm.h:143-146 | no element of a heap is greater than its root |
| Sorting.ExtractStep | include/hermes_shm/data_structures/ipc/algorithm.h:143-146 | one extraction moves a maximum behind the heap and keeps heap and sorted tail |
| Sorting.IsSorted | include/hermes_shm/data_structures/ipc/algorithm.h:55-69 | true exactly for strictly increasing ranges |
| Sorting.SortThenCheck | include/hermes_shm/data_structures/ipc/algorithm.h:55-100 | is_sorted after sort answers true if and only if no two elements of the input range are equivalent |
| Sorting.StrictlyIncreasingIff | include/hermes_shm/data_structures/ipc/algorithm.h:55-69 | a sorted range is strictly increasing if and only if its multiset holds no two equivalent elements |
| Sorting.EqualPairIsRefused | include/hermes_shm/data_structures/ipc/algorithm.h:55-69 | two equal elements are sorted, and is_sorted answers false |
| GaussJordan.StepKeeps | include/hermes_shm/solver/nonlinear_least_squares.h:72-107 | one swap, scale and eliminate step keeps the right half times A equal to the left half; a regularised step changes A in one column |
| GaussJordan.StepMakesUnitColumn | include/hermes_shm/solver/nonlinear_least_squares.h:86-106 | a step turns its column into a unit column and keeps the earlier ones |
| GaussJordan.ReducedKeeps | include/hermes_shm/solver/nonlinear_least_squares.h:71-107 | the whole elimination ends with the left half equal to I, for A itself exactly when nothing was regularised |
| GaussJordan.InvertsExactlyUnlessRegularised | include/hermes_shm/solver/nonlinear_least_squares.h:58-118 | the result is a two-sided inverse of the argument if and only if the regularisation branch is never taken |
| GaussPivots.PivotIsLargest | include/hermes_shm/solver/nonlinear_least_squares.h:74-84 | the pivot is at least as large as every entry below it, from the first such row, and two rows are exchanged |
| GaussPivots.RegularisedExactlyWhen | include/hermes_shm/solver/nonlinear_least_squares.h:74-92 | a pivot is regularised if and only if its whole column from the diagonal down is below 1e-12 |
| GaussPivots.ScaledPermutationsInvert | include/hermes_shm/solver/nonlinear_least_squares.h:58-118 | a permutation matrix with its ones replaced by any numbers comes back inverted if and only if none of them is below 1e-12 |
| GaussPivots.IdentityInverts | include/hermes_shm/solver/nonlinear_least_squares.h:58-118 | the identity of any size is its own result |
| GaussPivots.OneByOneInverted | include/hermes_shm/solver/nonlinear_least_squares.h:86-99 | the exact result for every one-by-one matrix, regularised or not |
| GaussJordan.SingularIsRegularised | include/hermes_shm/solver/nonlinear_least_squares.h:88-92 | a matrix without inverse always takes the regularisation branch |
| GaussJordan.TinyIsRegularised | include/hermes_shm/solver/nonlinear_least_squares.h:86-92 | every one-by-one matrix below the threshold is regularised |
| GaussJordan.InvertibleIsNotInverted | include/hermes_shm/solver/nonlinear_least_squares.h:86-92 | an invertible matrix for which the result is not its inverse |
| GaussJordan.PivotIsNonzero | include/hermes_shm/solver/nonlinear_least_squares.h:87-96 | the divisor is nonzero, regularised or not |
| Matrices.InverseOfOne | include/hermes_shm/solver/nonlinear_least_squares.h:58-118 | a matrix is the inverse of at most one matrix |
| LeastSquares.MatrixInverse | include/hermes_shm/solver/nonlinear_least_squares.h:58-118 | the nested loops compute the reduction the lemmas are about |
| LeastSquares.MatrixMultiply | include/hermes_shm/solver/nonlinear_least_squares.h:24-41 | every entry is the dot product of row and column |
| LeastSquares.MatrixTranspose | include/hermes_shm/solver/nonlinear_least_squares.h:43-56 | rows and columns exchanged |
| LeastSquares.NonlinearLeastSquares.ComputeJacobian | include/hermes_shm/solver/nonlinear_least_squares.h:138-157 | the forward differences of the cost function |
| LeastSquares.NonlinearLeastSquares.TryStep | include/hermes_shm/solver/nonlinear_least_squares.h:195-249 | the proposed parameters are taken exactly when they fit better; parameters, residuals and sum agree afterwards |
| LeastSquares.NonlinearLeastSquares.Minimize | include/hermes_shm/solver/nonlinear_least_squares.h:183-258 | fields stay consistent and the fit never gets worse; the path is a chain of proposed or rejected steps that ends exactly at the iteration limit, at an improvement below the tolerance or at exploding damping; the result is true exactly for nonempty parameters and positive tolerance |
| SolverSteps.StepSolvesNormalEquations | include/hermes_shm/solver/nonlinear_least_squares.h:187-219 | unless regularised, the proposed step d solves (J^T J + lambda I) d = -J^T r |
| SolverSteps.JacobianOfAffine | include/hermes_shm/solver/nonlinear_least_squares.h:138-157 | for affine residuals the forward differences are the exact Jacobian |
| SolverSteps.JacobianOfSquare | include/hermes_shm/solver/nonlinear_least_squares.h:138-157 | for the residual x^2 they are 2x + 1e-8 |
| SolverSteps.StepDescends | include/hermes_shm/solver/nonlinear_least_squares.h:187-235 | for affine residuals and lambda >= 0 a step lowers the sum of squares by |J d|^2 + 2 lambda |d|^2, so never makes it worse |
| LeastSquares.SucceedsWithoutAStep | include/hermes_shm/solver/nonlinear_least_squares.h:183-258 | with no iterations allowed, success is reported at a point that is not the minimum |
| RealNumbers.RatioIsProper | include/hermes_shm/types/real_number.h:45-49 | the numerator stays below 65536 |
| RealNumbers.RatioIsFloor | include/hermes_shm/types/real_number.h:45-49 | a ratio is rounded down to a multiple of 1/65536 if and only if the remainder does not wrap, and is never above it |
| RealNumbers.NumeratorsFit | include/hermes_shm/types/real_number.h:97-99 | the product of two numerators fits 32 bits |
| RealNumbers.IntProductIsExact | include/hermes_shm/types/real_number.h:78-85 | multiplying by an integer is exact if and only if no word wraps |
| RealNumbers.ProductIsFloor | include/hermes_shm/types/real_number.h:93-103 | the product is the true product rounded down to a multiple of 1/65536 if and only if no word wraps |
| RealNumbers.AsIntTruncates | include/hermes_shm/types/real_number.h:118-118 | the integer is the number truncated, for any numerator |
| RealNumbers.ScalingByRatio | include/hermes_shm/types/real_number.h:45-118 | (a/b)*k as an integer lies between floor(a*k/b) minus ceil(k/65536) and floor(a*k/b) |
| RealNumbers.RatioWraps | include/hermes_shm/types/real_number.h:45-49 | the ratio of 2^48 to 2^49 comes out as zero instead of one half |
| RealNumbers.TimesIntWraps | include/hermes_shm/types/real_number.h:78-85 | 2/65536 times 2^63 comes out as zero instead of 2^48 |
| RealNumbers.TimesWraps | include/hermes_shm/types/real_number.h:93-103 | 2^63 times 2/65536 comes out as zero instead of 2^48 |
| Serialization.SavedFormsAreUnambiguous | include/hermes_shm/data_structures/serialization/serialize_common.h:126-210 | no saved form is a proper prefix of another of its type, and equal saved forms come from equal values, in any map orders |
| Serialization.SizeTakesEightBytes | include/hermes_shm/data_structures/serialization/serialize_common.h:126-197 | strings and containers begin with their size in eight bytes, least significant first; a string goes on with its text and nothing else |
| Serialization.BulkIsElementwise | include/hermes_shm/data_structures/serialization/serialize_common.h:146-152 | copying an arithmetic vector's memory writes exactly the bytes of saving its elements one by one |
| Serialization.NumberRoundTrip | include/hermes_shm/data_structures/serialization/local_serialize.h:112-113 | a number survives its little-endian bytes |
| Serialization.ByteIsDigit | include/hermes_shm/data_structures/serialization/local_serialize.h:112-113 | byte i of a saved number is its digit of weight 256^i |
| Serialization.MapIsItsIteration | include/hermes_shm/data_structures/serialization/serialize_common.h:191-210 | storing the entries of any iteration order gives the map back |
| Serialization.LocalSerialize.Save | include/hermes_shm/data_structures/serialization/local_serialize.h:109-124 | appends a saved form of the value, for any nesting and any map order |
| Serialization.LocalSerialize.SaveVec | include/hermes_shm/data_structures/serialization/serialize_common.h:143-153 | the saved form of a vector, by its memory image or element by element |
| Serialization.LocalSerialize.SaveMap | include/hermes_shm/data_structures/serialization/serialize_common.h:190-197 | a saved form of the map, for the order its iteration takes |
| Serialization.LocalSerialize.SaveEntries | include/hermes_shm/data_structures/serialization/serialize_common.h:191-197 | saves every entry once in whatever order they come |
| Serialization.LocalDeserialize.Load | include/hermes_shm/data_structures/serialization/local_serialize.h:169-184 | from any saved form of a value, into a fresh object: the value, and the cursor exactly past its bytes |
| Serialization.LocalDeserialize.LoadBulk | include/hermes_shm/data_structures/serialization/serialize_common.h:160-161 | the bulk path reads back what either way of saving wrote |
| Serialization.LocalDeserialize.LoadEntries | include/hermes_shm/data_structures/serialization/serialize_common.h:200-210 | the loaded map is the saved one |
| Serialization.SaveThenLoad | include/hermes_shm/data_structures/serialization/local_serialize.h:77-193 | two values saved one after the other come back equal, one after the other |

## Left out

- Weak memory: all step machines are sequentially consistent.
- FixedRing.Ring.Emplace: the slot index is unbounded, where the source has 32 bits for the producer; MpscRing.Init admits depths up to 2^32, and MpscRing.DepthLimit says what that bound is for.
- Counters are unbounded: wrap-around of 64-bit tickets and tokens, and of the 32-bit writer counter after 2^32 writers, is not modelled; nor are `int` loop counters beyond 2^31 in heap sort.
- Floating point: the solver works over exact reals; the ceiling of log2 is the integer one.
- PageSizes.MakePageId: does not model an allocation of zero bytes, whose logarithm is undefined in the source.
- PageAllocator.ScalablePageAllocator.ReallocateOffset: reports a copy that does not fit and stops before it; what the bytes past the page would overwrite, and the free after it, are not modelled.
- PageAllocator.ScalablePageAllocator.AllocateOffset: the free lists appear as sequences, one operation at a time; their concurrent form is MpscStack. Page headers are kept apart from the payload bytes.
- KeySets.KeySet.constructor: asks for a positive size; a key set made for zero keys doubles zero places when it grows and hands out a key without a place.
- Slists.Slist.Emplace: the offset of a new node is a parameter, as the allocator's choice.
- Slists.Slist.Erase: erasing, searching and iterating are proved for well-formed lists; what they do after an insertion in the middle has lost a node is not modelled.
- Serialization.LocalDeserialize.Load: malformed input and loading into a container that already holds elements are not modelled; the source checks no bounds.
- MpscRing.PopsInTicketOrder: is about the waiting flavour; the concurrent use of the refusing flavour, the resizing and the circular flavours do not give a queue and are not modelled.
- SplitQueue.SplitTicketQueue.Emplace: calls come one at a time. SplitMachine has concurrent callers, with a try on one split as one step because TicketLock.MutualExclusion protects it; the two are not composed into one machine.
- UnorderedMaps.UnorderedMap.Clear: empties the lists in place, where the source destroys and rebuilds them.
- The thread-local allocator's own heap and `ring_ptr_queue`, `list` in the middle, `spsc_fifo_list_queue` and `big_bitfield`.
- Growth of a vector by resize within spare capacity, which constructs nothing.
- Backends, mapping of memory, thread models, GPU paths, timers, logging, configuration, compression and encryption wrappers.
