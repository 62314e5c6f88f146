# bc-concurrency: verified model

A Dafny model of the concurrency library's three hard parts and proofs of what they promise.

**The bounded multi-producer multi-consumer queue** (`Words`, `QueueProtocol`, `QueueInvariant`,
`QueueTheorems`, `QueueClosing`, `QueueProgress`, `QueueBuffer`, `Queue`). Any number of threads
push and pop without a lock, coordinated by one sequence number per slot. `QueueProtocol` is the transition system: one
step is one load, one weak compare-and-swap (which may fail spuriously), one byte copied, or one
store, and steps of different threads interleave freely. `QueueInvariant` proves an inductive
invariant for every interleaving and every capacity of at least two. `QueueTheorems` derives
refinement of an atomic bounded FIFO that may turn a call away only at a moment at which it is full
or empty, exclusive access to slots, a reason inside the call for every refused call, and progress.
`QueueClosing` says what a close guarantees and exactly when it does not. `QueueProgress` bounds the
steps of every run, under every schedule, by the calls it begins and the spurious failures it meets.
`QueueBuffer` is the one
byte buffer, in 64-bit words. `Queue.MpmcQueue` is the object itself, with arrays, masks, 64-bit
differences and the retry loops; every push and pop is proved to be a run of the transition system
under any finite schedule of other threads' steps (`env`) and of spurious failures (`weak`), and to
have exactly the atomic effect when run alone.

**The fork/join pool** (`PoolProtocol`, `PoolInvariant`, `PoolTheorems`, `PoolSlots`, `PoolLiveness`,
`Dispatch`). One main thread and any number of workers, with per worker a mutex, the condition
variables `ready_cond` and `done_cond`, the three flags, the thread-local `tls_worker` and the
private slots. Waiting releases the mutex and enters the wait set in one step, a signal moves a
waiter out, and a waiter may leave without one, as POSIX allows for `pthread_cond_wait`. Proved:
exactly-once execution and the completion barrier, no lost wakeup, exclusive use of the shared work
records, that every task updates its own executor's slots and nobody else's, freedom from deadlock,
and a measure that bounds every run up to its spurious wakeups. `Dispatch.Dispatcher` is the context
as callers drive it: staging, submit, dispatch_and_wait, the parallel for, foreach_slot and destroy,
each run under a schedule chosen from outside, and `Dispatch.Life` is any script of them.

**The arithmetic and bookkeeping around the pool** (`Split`, `Reduction`, `Resources`, `Platform`).
The balanced split and the strided parallel for in 64-bit words, reduction over per-worker slots,
the slot registry with rollback and the ledger of memory blocks under any pattern of refused
allocations, and the physical-core scan. The context struct is modelled by two classes:
`Dispatch.Dispatcher` has the fields that work passes through, `Resources.ContextMemory` the
pointers to memory. They share the thread count, which never changes; the dispatch buffer is a
number of entries in the one and a block in the other.

Results that are negative, each with its exact condition:

- a queue of capacity one is accepted by create but loses items; the queue is never overfull exactly
  when its capacity is at least two (`OverfullExactlyAtOne`);
- a closed queue may still accept a push exactly when some push is past its closed test and not yet
  turned away, and there is room or a second thread to make room (`ClosedAcceptsExactly`, with the
  input `UnsealedCloseLeaks`);
- the slots lie inside the block that create asks for exactly when the aligned slot size times the
  rounded capacity is below 2^64 (`SlotsFitExactly`, with the input `SizeWrapsToZero`);
- rounding the capacity up comes to an end exactly for requests up to 2^63 (`RoundUpExitsExactly`);
- after a partial failure to start the threads, the stop flags of the started workers stay up; a
  call can return true exactly when no worker that it gives work to carries a stop flag
  (`CallSucceedsExactly`, with the input `PartialStartIsReachable`), and once it has its memory it
  finishes exactly then (`CallFinishesExactly`);
- an accepted configuration isolates its threads exactly when `core_offset + worker_count` does not
  overflow (`AcceptedIsIsolatedExactly`, with the input `OverflowIsAccepted`);
- without an explicit worker count a configuration is accepted exactly for `core_offset` zero
  (`DefaultCountNeedsOffsetZero`).

Where the code and its comments disagree the model follows the code: main is executor
`thread_count`, not worker 0 as include/public/bc_concurrency.h:100 says; workers synchronise by
mutex and condition variables, not by an eventfd as include/internal/bc_concurrency_context_internal.h:36
says; and the default worker count of `physical_core_count - 1` described at
include/public/bc_concurrency.h:39-41 is available only with `core_offset` zero.

## Model

| member | source | states |
|---|---|---|
| Words.MaskIsMod | src/queue/bc_concurrency_queue.c:53 | masking a position with `capacity - 1` is the remainder by the capacity, for every power of two |
| Words.PowerOfTwoTest | src/queue/bc_concurrency_queue.c:29-32 | the bit test holds exactly for the powers of two |
| Words.RoundUpPowerOfTwo | src/queue/bc_concurrency_queue.c:34-44 | the result is the least power of two that is not below the request |
| Words.RoundUpExitsExactly | src/queue/bc_concurrency_queue.c:39-42 | on 64-bit words the rounding loop can leave exactly when the request is at most 2^63 |
| Words.LeastPow2Is | src/queue/bc_concurrency_queue.c:34-44 | the reference definition is a power of two, not below the request, and the least such |
| Words.EffectiveCapacity | src/queue/bc_concurrency_queue.c:70-71 | create settles on the least power of two not below the request, and it is at least two exactly when the request is |
| Words.ClearLowBits | src/queue/bc_concurrency_queue.c:48 | and-ing with the complement of `2^k - 1` rounds a word down to a multiple of 2^k |
| Words.AlignUpIsLeastMultiple | src/queue/bc_concurrency_queue.c:46-49 | the stride is the least multiple of the alignment that is not below the slot size, when the sum fits 64 bits |
| Words.DifferenceExact | src/queue/bc_concurrency_queue.c:122 | the signed difference of the stored words is the difference of the ideal counters exactly when no 2^63 boundary lies between them |
| QueueBuffer.StrideIs | src/queue/bc_concurrency_queue.c:79 | the stride in 64-bit words is a multiple of a cache line, and the least one that holds header and element unless the sum wraps |
| QueueBuffer.SlotsDisjoint | src/queue/bc_concurrency_queue.c:51-61 | while stride times capacity is below 2^64, header and payload of every slot lie inside the buffer and slots do not overlap |
| QueueBuffer.SlotsFitExactly | src/queue/bc_concurrency_queue.c:79-82 | with stride, offsets and size computed modulo 2^64, every slot lies inside the block asked for exactly when the unwrapped stride times capacity is below 2^64 |
| QueueBuffer.SizeWrapsToZero | src/queue/bc_concurrency_queue.c:80 | eight-byte items in 2^58 slots: the size asked for is zero |
| QueueInvariant.InitialInv | src/queue/bc_concurrency_queue.c:88-100 | the state after create satisfies the invariant when the capacity is at least two |
| QueueInvariant.SlotsDiffer | src/queue/bc_concurrency_queue.c:53 | tickets less than a lap apart use different slots |
| QueueInvariant.MaskIsSlot | src/queue/bc_concurrency_queue.c:53 | the masked position is the slot of the ticket in the ideal queue |
| QueueInvariant.LoadedStillCurrent | src/queue/bc_concurrency_queue.c:121-124 | a compare-and-swap that succeeds after an earlier sequence load finds that sequence still current: no ABA |
| QueueInvariant.ClaimPush | src/queue/bc_concurrency_queue.c:124-126 | a successful push compare-and-swap keeps the invariant and gives its ticket one writer |
| QueueInvariant.ClaimPop | src/queue/bc_concurrency_queue.c:147-149 | a successful pop compare-and-swap keeps the invariant and gives its ticket one reader |
| QueueInvariant.ByteInInv | src/queue/bc_concurrency_queue.c:127 | each byte copied in keeps the invariant, whatever the other threads are copying |
| QueueInvariant.PublishInv | src/queue/bc_concurrency_queue.c:128 | the release store of push turns its ticket from writing to published |
| QueueInvariant.ByteOutInv | src/queue/bc_concurrency_queue.c:150 | each byte copied out is the byte pushed under that ticket |
| QueueInvariant.ReleaseInv | src/queue/bc_concurrency_queue.c:151 | the release store of pop frees the slot for the next lap and records the item handed out |
| QueueInvariant.StepInv | src/queue/bc_concurrency_queue.c:113-165 | every step of every thread keeps the invariant: positions at most a lap apart, each ticket in exactly one phase that determines its slot's sequence |
| QueueInvariant.RunInv | src/queue/bc_concurrency_queue.c:113-165 | the invariant holds at every point of every run with any number of threads |
| QueueTheorems.ReachableInv | src/queue/bc_concurrency_queue.c:63-165 | every reachable state of a queue of two or more slots satisfies the invariant |
| QueueTheorems.AlwaysEnabled | src/queue/bc_concurrency_queue.c:119-159 | a thread inside a call always has a step, and its copy stays inside the slot |
| QueueTheorems.ExclusiveCopy | src/queue/bc_concurrency_queue.c:124-129 | between compare-and-swap and release store no two threads, producers or consumers, copy to or from the same physical slot |
| QueueTheorems.StepRefines | src/queue/bc_concurrency_queue.c:113-165 | each step is one atomic FIFO operation or invisible: successful compare-and-swaps are the effects, and a call is turned away only at a sequence load made while the FIFO is full or empty, or by the closed flag |
| QueueTheorems.RunRefines | src/queue/bc_concurrency_queue.c:113-165 | every run is, from the empty open queue and step by step, a run of the atomic FIFO bounded by the capacity, refusals included |
| QueueTheorems.PopGetsItsPush | src/queue/bc_concurrency_queue.c:146-153 | the pop that holds ticket k returns exactly the whole item of the push that holds ticket k |
| QueueTheorems.RealTimeOrder | src/queue/bc_concurrency_queue.c:123-130 | a push that returned before another claimed has the smaller ticket, and no pop takes the later item unless one has taken the earlier |
| QueueTheorems.ClaimedSlotMovedOn | src/queue/bc_concurrency_queue.c:119-136 | a slot's sequence never falls behind a claimed ticket |
| QueueTheorems.PushRefusalJustified | src/queue/bc_concurrency_queue.c:131-132 | a sequence load turns push away exactly when its position is the current one and the ticket a lap earlier is unreleased |
| QueueTheorems.PopRefusalJustified | src/queue/bc_concurrency_queue.c:154-155 | a sequence load turns pop away exactly when its position is the current one and that ticket is unpublished |
| QueueTheorems.RefusedPushHadReason | src/queue/bc_concurrency_queue.c:113-137 | for every run and every push that returned false, at some moment inside the call the queue was closed or had no room |
| QueueTheorems.RefusedPopHadReason | src/queue/bc_concurrency_queue.c:139-160 | for every run and every pop that returned false, at some moment inside the call the next ticket was not ready |
| QueueTheorems.QuietRefusals | src/queue/bc_concurrency_queue.c:131-155 | with no copy under way, refusals mean exactly full and exactly empty |
| QueueClosing.SealedRun | src/queue/bc_concurrency_queue.c:115-117 | once closed with no push past its closed test, nothing is ever accepted again |
| QueueClosing.ClosedRefusesPush | src/queue/bc_concurrency_queue.c:115-117 | a push that starts on a closed queue is refused by its first step |
| QueueClosing.DrainAfterClose | tests/test_bc_concurrency_queue.c:205-228 | a pop that begins after a sealed close and returns false proves that every pushed ticket is claimed, and when all calls are over the popped items are the pushed items, in order |
| QueueClosing.UnsealedCloseLeaks | src/queue/bc_concurrency_queue.c:113-118 | a reachable state, closed and with a pop refused, from which a push already under way still gets in |
| QueueClosing.UndecidedGetsIn | src/queue/bc_concurrency_queue.c:118-130 | with room, a push past its closed test and not turned away gets in when it runs by itself |
| QueueClosing.MakeRoom | src/queue/bc_concurrency_queue.c:139-153 | a second thread can always make room for a waiting push, or a push gets in on the way |
| QueueClosing.BarredRun | src/queue/bc_concurrency_queue.c:113-137 | a closed queue with no such push, or with a lone thread and no room, accepts nothing in any run |
| QueueClosing.ClosedAcceptsExactly | src/queue/bc_concurrency_queue.c:113-137 | a closed queue may still accept a push exactly when some push is past its closed test and not turned away, and there is room or a second thread |
| QueueTheorems.RetriesBounded | src/queue/bc_concurrency_queue.c:119-136 | the non-spurious retries of a call are bounded by the tickets other threads claimed since it began |
| QueueTheorems.RetryFindsPositionAhead | src/queue/bc_concurrency_queue.c:133-134 | every non-spurious retry finds the shared position strictly ahead of the local one |
| QueueTheorems.RankFalls | src/queue/bc_concurrency_queue.c:119-159 | the number of own steps a lone thread still needs falls with each of them |
| QueueTheorems.AloneReturnsSoon | src/queue/bc_concurrency_queue.c:113-160 | from every reachable state a thread left alone returns within `element_size + 7` steps |
| QueueProgress.StepPays | src/queue/bc_concurrency_queue.c:119-159 | every step of every thread lowers one queue-wide measure, except for what new calls and spurious failures pay in; a claim pays for all the retries it causes |
| QueueProgress.StepsAreBounded | src/queue/bc_concurrency_queue.c:113-160 | the length of any run, under any schedule, is bounded by its start, the calls it begins, the closes and the spurious failures |
| QueueProgress.EveryoneReturns | src/queue/bc_concurrency_queue.c:113-160 | with no new calls and no spurious failures every schedule ends after a bounded number of steps, and where it cannot go on all calls have returned |
| QueueTheorems.CapacityOneOverwrites | src/queue/bc_concurrency_queue.c:67-71 | a reachable state of a one-slot queue in which the second push has overwritten the first item |
| QueueTheorems.OverfullExactlyAtOne | src/queue/bc_concurrency_queue.c:67-71 | the queue never holds more tickets than slots exactly when its capacity is at least two |
| Queue.MpmcQueue.Fresh | src/queue/bc_concurrency_queue.c:86-100 | the new object represents the initial state of the transition system |
| Queue.MpmcQueue.Create | src/queue/bc_concurrency_queue.c:63-104 | refused exactly on a zero size or a failed allocation; otherwise the least power of two, the aligned stride, a block in which every slot fits, and the invariant exactly for capacity two or more |
| Queue.MpmcQueue.LoadHeader | src/queue/bc_concurrency_queue.c:51-55 | the masked load reads the sequence of the position's slot, in range for the signed comparison |
| Queue.MpmcQueue.CompareExchangeEnqueue | src/queue/bc_concurrency_queue.c:124-125 | the weak compare-and-swap is the protocol's decision step; a failure reloads the position |
| Queue.MpmcQueue.CompareExchangeDequeue | src/queue/bc_concurrency_queue.c:147-148 | the same for the dequeue position |
| Queue.MpmcQueue.ClaimPush | src/queue/bc_concurrency_queue.c:115-136 | push up to its claim under any interference: the item sits under a ticket claimed during the call, or at some moment of the call the queue was closed or had no room |
| Queue.MpmcQueue.FinishPush | src/queue/bc_concurrency_queue.c:126-129 | copies the item byte by byte amid interference and publishes it |
| Queue.MpmcQueue.Push | src/queue/bc_concurrency_queue.c:113-137 | under any interference a run of the protocol that keeps the invariant; accepted, the item is under its own ticket; refused, the queue was closed or had no room at some moment of the call; at most one ticket more than the other threads claim; alone, refused exactly when closed or without room, otherwise appends |
| Queue.MpmcQueue.ClaimPop | src/queue/bc_concurrency_queue.c:141-158 | pop up to its claim under any interference; turned away only if at some moment of the call the next ticket was not ready |
| Queue.MpmcQueue.FinishPop | src/queue/bc_concurrency_queue.c:149-152 | copies the item out byte by byte amid interference and hands the slot back |
| Queue.MpmcQueue.Pop | src/queue/bc_concurrency_queue.c:139-160 | under any interference returns the item pushed under a ticket claimed during the call, or the next ticket was not ready at some moment of the call; alone, refused exactly when the next ticket is unpublished, otherwise takes the oldest item |
| Queue.MpmcQueue.CloseQueue | src/queue/bc_concurrency_queue.c:162-165 | sets the closed flag and nothing else, keeping the invariant |
| PoolInvariant.InitialInv | src/context/bc_concurrency.c:243-286 | the pool that create leaves behind satisfies the invariant |
| PoolInvariant.WorkerStepInv | src/context/bc_concurrency.c:82-106 | every step of every worker keeps the invariant |
| PoolInvariant.MainStepInv | src/context/bc_concurrency.c:53-70 | every step of main keeps the invariant: starting, rolling back, handing over, running, waiting, stopping |
| PoolInvariant.RunInv | src/context/bc_concurrency.c:53-147 | the invariant holds at every point of every run, spurious wakeups and failed starts included |
| PoolTheorems.QuietWhenIdle | src/context/bc_concurrency.c:552-560 | between calls everything handed out has finished and no worker holds work |
| PoolTheorems.DestroyDropsNothing | src/context/bc_concurrency.c:87-93 | when a stop flag goes up, in destroy or in rollback, no worker has work it would drop |
| PoolTheorems.NoLostWakeup | src/context/bc_concurrency.c:55-69 | with the mutex free, no worker sleeps while ready_flag or should_stop is set, and main does not sleep after done_flag is set |
| PoolTheorems.MutualExclusion | src/context/bc_concurrency.c:55-105 | main and the worker are never both inside the worker's critical section |
| PoolTheorems.ReadsItsOwnSlice | src/context/bc_concurrency.c:92-99 | a running worker's work pointer led to its own record, which holds the slice handed over in this call, between its dispatch and its done_flag store |
| PoolTheorems.MainTouchesOnlyItsOwnBuffers | src/dispatch/bc_concurrency_async.c:79-109 | every step of main that writes, reuses or frees a worker's record, whatever the value, is taken while that worker has no work and no pointer to it, although chunk i is dispatched before chunk i+1 is written |
| PoolTheorems.OtherStepsLeaveRecords | src/context/bc_concurrency.c:53-106 | no other step of main or of any worker changes a record |
| PoolTheorems.CallPath | src/context/bc_concurrency.c:499-560 | however a call is interleaved, when main is back either the whole call is committed or nothing is |
| PoolTheorems.Barrier | src/context/bc_concurrency.c:480-561 | a call that returns true has run each executor's slice exactly once and in order, with nothing unfinished, and has grown the dispatch buffer to fit; one that returns false has run nothing and left the buffer as it was |
| PoolTheorems.CallFailsExactly | src/context/bc_concurrency.c:499-518 | on every path of every call, the call returns false exactly when a thread it had to start, or memory that it needs (the chunks of a for, a dispatch buffer smaller than the work), was refused on the way |
| PoolTheorems.SuppliedCallSucceeds | src/context/bc_concurrency.c:499-518 | with the threads up and the staged work fitting the buffer, a call that returns returns true, whatever the schedule refuses |
| PoolTheorems.RefusedMemoryReturnsFalse | src/dispatch/bc_concurrency_async.c:69-71 | with the threads up, a call that needs memory asks for it first, and a refusal ends it at once with false, no task run and the buffer as it was |
| PoolSlots.StepAttributed | src/context/bc_concurrency.c:96-100 | every step keeps: an executor names itself exactly while it runs tasks, and its slots hold exactly the updates of what it ran |
| PoolSlots.RunAttributed | src/context/bc_concurrency.c:45-51 | in every run each executor's slots have received exactly the tasks it ran, in that order, through the lookup by tls_worker |
| PoolSlots.OnlyItsOwnThread | src/context/bc_concurrency.c:45-51 | a step changes an executor's slots only if that executor's own thread takes it, inside a task |
| PoolSlots.NamesDiffer | src/context/bc_concurrency.c:96-100 | two threads inside tasks name different executors, so no two update one slot |
| PoolLiveness.SomeStepIsPossible | src/context/bc_concurrency.c:53-106 | no deadlock: inside a call, a rollback or a destroy some thread can always move without a spurious wakeup |
| PoolLiveness.MainStepFalls | src/context/bc_concurrency.c:53-70 | every step of main lowers the measure |
| PoolLiveness.WorkerStepFalls | src/context/bc_concurrency.c:82-106 | every step of a worker lowers the measure |
| PoolLiveness.SpuriousCostsTwo | src/context/bc_concurrency.c:66-86 | a spurious wakeup raises the measure by at most two |
| PoolLiveness.PathsAreBounded | src/context/bc_concurrency.c:53-106 | the length of any run without new requests is bounded by the measure and its spurious wakeups |
| PoolLiveness.Finishes | src/context/bc_concurrency.c:310-320 | dispatch_and_wait, the parallel for, rollback and destroy's joins all finish |
| PoolLiveness.RollbackLeavesStopUp | src/context/bc_concurrency.c:125-138 | a start that fails half way leaves the stop flags of the started workers up |
| PoolLiveness.CallKeepsStopsDown | src/context/bc_concurrency.c:119-147 | that is the only way: a call that succeeds, or fails with the threads up, leaves no stop flag behind |
| PoolLiveness.DoomedForever | src/context/bc_concurrency.c:87-90 | a call that hands work to such a worker never returns, under any schedule |
| PoolLiveness.CallFinishesExactly | src/context/bc_concurrency.c:125-138 | once threads and buffers are there, a call finishes exactly when no worker that is owed a slice carries a stop flag |
| PoolLiveness.RetryNeverSucceeds | src/context/bc_concurrency.c:125-138 | no call that gives work to a worker whose stop flag is up can return true |
| PoolLiveness.CallSucceedsExactly | src/context/bc_concurrency.c:480-561 | a request can return true under some schedule exactly when no worker that it gives work to carries a stop flag |
| PoolLiveness.PartialStartIsReachable | src/context/bc_concurrency.c:123-138 | a run from create to that state, with two workers and the second thread refused |
| Split.StartNext | src/context/bc_concurrency.c:529-534 | each slice starts where the one before it ends, at `i * base + min(i, extra)` |
| Split.Balanced | src/context/bc_concurrency.c:525-530 | sizes differ by at most one with the longer slices first, slices stay in range, and none is empty when there are enough items |
| Split.FindSlice | src/context/bc_concurrency.c:529-534 | every position lies in some slice |
| Split.OneSliceOnly | src/context/bc_concurrency.c:529-534 | no position lies in two slices |
| Split.SlicesAreAll | src/context/bc_concurrency.c:525-534 | put end to end the slices are the whole sequence, nothing lost, repeated or reordered |
| Split.SlicesAreEven | src/context/bc_concurrency.c:525-534 | the slices are the cut of the staged entries into consecutive pieces whose sizes differ by at most one, the longer ones first |
| Split.AssignSlices | src/context/bc_concurrency.c:525-534 | the dispatch loop computes exactly these slices |
| Split.GrowCapacity | src/context/bc_concurrency.c:505-509 | doubling in 64-bit words ends, without wrap-around, at the capacity the pool's allocation step uses |
| Split.TotalExact | src/dispatch/bc_concurrency_async.c:39 | iteration k is inside the range exactly when k is below the computed total |
| Split.IterationFits | src/dispatch/bc_concurrency_async.c:23-25 | no visited index or partial product leaves the 64-bit range |
| Split.IterationsExact | src/dispatch/bc_concurrency_async.c:28-48 | the iterations are the indices of the stride inside the range, each exactly once |
| Split.ChunkStartExact | src/dispatch/bc_concurrency_async.c:85 | a chunk's start computed modulo 2^64 is its ideal start |
| Split.RunChunk | src/dispatch/bc_concurrency_async.c:13-26 | the chunk runner visits exactly the chunk's indices, in 64-bit words |
| Split.PlanChunks | src/dispatch/bc_concurrency_async.c:54-88 | main's chunk and every worker's chunk are non-empty and are the balanced slices of the iterations |
| Split.ChunkIsSlice | src/dispatch/bc_concurrency_async.c:77-88 | what chunk i visits is slice i of all iterations |
| Reduction.FoldSlots | tests/test_bc_concurrency_main_participation.c:228-235 | a callback that adds up slots computes the combination of all of them |
| Reduction.SlotConcat | tests/test_bc_concurrency_main_participation.c:228-235 | what a slot holds after more tasks is what it held combined with what they contribute |
| Reduction.SlotSingle | tests/test_bc_concurrency_main_participation.c:228-235 | one task leaves its own contribution in its slot |
| Reduction.SlotPermutes | tests/test_bc_concurrency_main_participation.c:253-262 | for a commutative monoid a slot depends only on which tasks ran |
| Reduction.ParallelEqualsSequential | tests/test_bc_concurrency_main_participation.c:253-262 | for a commutative monoid, accumulators combine to the sequential fold over everything they received, however it was distributed |
| Dispatch.ReductionOverAllWaves | src/context/bc_concurrency.c:443-457 | after any number of waves the folded contents of the executors' slots equal the sequential fold over everything accepted |
| Dispatch.RunToEnd | src/context/bc_concurrency.c:53-106 | under any schedule a request to the pool runs to its end by moves that obey the schedule, and succeeds when nothing it asks for is refused |
| Dispatch.Dispatcher.constructor | src/context/bc_concurrency.c:203-286 | a new context has no work, no threads and no stop flags |
| Dispatch.Dispatcher.Submit | src/context/bc_concurrency.c:459-463 | appends one entry, or leaves everything unchanged when staging fails |
| Dispatch.Dispatcher.SubmitBatch | src/context/bc_concurrency.c:465-478 | true exactly for a non-empty batch that fits; what was staged before a failure stays |
| Dispatch.Dispatcher.DispatchSlices | src/context/bc_concurrency.c:499-556 | the parallel path: each executor runs its balanced slice, in order, under any schedule; true exactly when no thread and no memory it needed was refused; stop flags stay down once the threads are up |
| Dispatch.Dispatcher.DispatchAndWait | src/context/bc_concurrency.c:480-561 | true means every staged entry ran exactly once, executor by executor in consecutive pieces that differ by at most one in size, or all in order on main, and staging is empty; false means nothing ran and staging and buffer are intact; false exactly when a thread or memory that was needed is refused, so never with the threads up and room in the buffer, and always when the larger buffer is refused; the buffer grows only when it must; no stop flag is left behind unless the threads failed to start |
| Dispatch.Dispatcher.ForChunks | src/dispatch/bc_concurrency_async.c:50-110 | the parallel path of the for visits exactly the iterations, each worker its own chunk in order and main chunk 0; true exactly when no thread and no memory it needed was refused |
| Dispatch.Dispatcher.ParallelFor | src/dispatch/bc_concurrency_async.c:28-111 | false for step zero; true without work for an empty range; otherwise true means that each index x with `start <= x < end` and `(x - start) % step == 0` was visited exactly once and nothing else, taken on in rising order, by main alone or in chunks; false means none was, and is returned exactly when a thread or the chunks were refused |
| Dispatch.LoopIs | src/dispatch/bc_concurrency_async.c:28-48 | the visits of a range, in terms of start, end and step alone: the indices of the stride inside it, once each, in rising order |
| Dispatch.Dispatcher.ForeachSlot | src/context/bc_concurrency.c:443-457 | no call for an index out of range; otherwise one call per executor, in order, with that executor's slot and its index |
| Dispatch.Dispatcher.DispatchWithRetry | src/context/bc_concurrency.c:499-518 | a refused dispatch tried again runs everything staged exactly once, unless the threads were started half way |
| Dispatch.Dispatcher.Destroy | src/context/bc_concurrency.c:308-320 | stops and joins every thread and drops no work that was handed over |
| Dispatch.Play | src/context/bc_concurrency.c:459-561 | any script of submit, submit_batch, dispatch_and_wait and for, with any schedules and refusals, runs to its end, or to the first command that would use the workers although a start of the threads failed half way |
| Dispatch.Life | src/context/bc_concurrency.c:308-561 | over a whole life, what ran plus what is staged is what was accepted, all threads exit, and with nothing staged the folded slots are the sequential fold over all of it |
| Dispatch.CutChunks | src/dispatch/bc_concurrency_async.c:77-102 | the chunks as run by main and the workers are together exactly the iterations, none empty |
| Dispatch.CutSlices | src/context/bc_concurrency.c:525-534 | the slices handed out put end to end are the staged entries |
| Dispatch.InSlicesMeans | src/context/bc_concurrency.c:525-534 | each executor adds to its history the piece with its index in the even cut of the staged entries |
| Resources.StoreKeepsExact | src/context/bc_concurrency.c:198-242 | storing a newly allocated block keeps pointers and ledger in exact agreement |
| Resources.FreeKeepsExact | src/context/bc_concurrency.c:344-360 | so does freeing a block and dropping its pointer |
| Resources.ContextMemory.CreateMemories | src/context/bc_concurrency.c:252-297 | memory contexts for all executors, or the first refusal destroys those already created |
| Resources.ContextMemory.CreateWorkers | src/context/bc_concurrency.c:231-304 | thread array, worker array and memories, or none of them |
| Resources.ContextMemory.CreateParts | src/context/bc_concurrency.c:216-304 | everything after the context block, or nothing, whichever allocation is refused |
| Resources.ContextMemory.Create | src/context/bc_concurrency.c:198-305 | succeeds exactly when every allocation is granted; a failed create leaves the ledger as it was |
| Resources.ContextMemory.GrowConfigs | src/context/bc_concurrency.c:378-391 | room for one more configuration with the committed ones kept, or nothing changed |
| Resources.ContextMemory.GrowTable | src/context/bc_concurrency.c:404-413 | a longer table with committed pointers copied and the old table freed, or nothing changed |
| Resources.ContextMemory.AttachSlot | src/context/bc_concurrency.c:415-427 | one data block, initialised, in the new entry, or the entry left empty |
| Resources.ContextMemory.RollBack | src/context/bc_concurrency.c:433-440 | frees the blocks of the executors already served and restores the committed registry |
| Resources.ContextMemory.RegisterSlot | src/context/bc_concurrency.c:374-441 | adds the slot to every executor exactly when all allocations are granted, otherwise to none; committed slots keep their blocks; one init callback per executor served, in executor order, exactly if the slot has one |
| Resources.SlotsLiveAndDistinct | src/context/bc_concurrency.c:45-51 | committed slots of all executors are live and pairwise distinct blocks |
| Resources.ContextMemory.ReleaseWorker | src/context/bc_concurrency.c:325-341 | one destroy callback for each committed slot that has a destroy function and for no other, larger slots first; then every block of the executor is free and its table and memory context are gone |
| Resources.WorkerCallbacksAre | src/context/bc_concurrency.c:328-333 | the destroy callbacks of one executor are one for each committed slot that has a destroy function, larger slots first |
| Resources.AllCallbacksAre | src/context/bc_concurrency.c:325-333 | those of all executors are one per executor and committed slot with a destroy function, executors in index order |
| Resources.ContextMemory.Destroy | src/context/bc_concurrency.c:322-361 | every block goes back exactly once and others' blocks are untouched; the destroy callback of slot s runs for executor i exactly once if s is committed and has one, otherwise never; executors in index order, larger slots first |
| Resources.Life | src/context/bc_concurrency.c:198-441 | create, any mix of accepted and refused registrations, destroy: the ledger ends as it began, accepted registrations get rising consecutive indices, and destroy calls are made for executor i and a returned index exactly if that request had a destroy function, and for no other index |
| Platform.LeadersCountCores | src/platform/bc_concurrency_platform.c:46-51 | CPUs that are first of their core are as many as the distinct core ids |
| Platform.PhysicalCoreCount | src/platform/bc_concurrency_platform.c:25-63 | the scan counts the distinct usable core ids, or falls back to the online CPU count |
| Platform.PinToPhysicalCore | src/platform/bc_concurrency_platform.c:65-108 | a CPU is found exactly when the index is below the number of distinct core ids; it is the first CPU of its core, and exactly `index` distinct cores come before it |
| Platform.PinsAreDistinctCores | src/platform/bc_concurrency_platform.c:93-104 | the pin scan succeeds exactly below the core count and different indices land on different cores |
| Platform.AcceptConfig | src/context/bc_concurrency.c:167-187 | with n the number of distinct core ids, or the online CPUs if there are none: without an explicit count, n - 1 workers for offset zero and a refusal otherwise; with one, that count, accepted exactly when the offset is below n and the 64-bit sum, or the count being zero, allows it |
| Platform.AcceptedIsIsolatedExactly | src/context/bc_concurrency.c:174-187 | an accepted configuration puts main and all workers on distinct cores exactly when `core_offset + worker_count` does not overflow |
| Platform.ExplicitCountAsDocumented | include/public/bc_concurrency.h:41-43 | N workers are accepted exactly when `core_offset + N` is below the core count, unless the sum overflows on a usable offset |
| Platform.OverflowIsAccepted | src/context/bc_concurrency.c:185-187 | two cores, offset one and 2^64 - 1 workers are accepted although they cannot be isolated |
| Platform.DefaultCountNeedsOffsetZero | src/context/bc_concurrency.c:178-187 | without an explicit worker count a configuration is accepted exactly for `core_offset` zero |

## Left out

- Weak memory: steps interleave in a sequentially consistent order. The acquire/release pairs on the
  sequence words and the mutexes are what justifies this; the C11 memory model itself is not modelled.
- Queue.MpmcQueue.Push: counters are assumed to stay below 2^63, where the signed difference is exact (`DifferenceExact`); the bound is the `requires InRange`, over tickets claimed so far, the capacity and the schedule, and the contract bounds the tickets after the call. The copy follows the retry loop instead of standing inside it.
- Queue.MpmcQueue.Pop: the same bound on the counters.
- Queue.MpmcQueue.Create: asks its caller for a request up to 2^63, since the rounding loop never ends above (`RoundUpExitsExactly`), and for sizes whose product does not wrap, since the slots do not fit the block otherwise (`SlotsFitExactly`). A capacity-one queue is created, but only two slots or more make the object `Valid`.
- A push that was past its closed test when the queue was closed may still be taken by the atomic FIFO too, as the code does (`ClosedAcceptsExactly`).
- The byte buffer of the queue is a 2-D array of slots by bytes, with the header words in an array of
  their own; that slots and headers do not overlap in the flat buffer is `SlotsDisjoint`.
- Queue destroy, the capacity getter and is_closed: one-line members.
- Dispatch.Dispatcher.DispatchAndWait: where workers would be used, assumes no stop flag left by an earlier start that failed half way; the call keeps that, and the exact condition is `CallFinishesExactly`. At most 2^63 staged entries.
- Dispatch.Dispatcher.ParallelFor: the same assumption, only where workers would be used.
- Dispatch.Dispatcher.ForeachSlot: the content of a slot is kept as the sequence of updates made to it, from which its value under any update function is a fold; one such sequence stands for all slots of an executor. The slot count that bounds the index is an argument, since the registry is in `Resources.ContextMemory`.
- Tasks do not call submit, dispatch or for; a task is the callback with its argument, or one index
  given to it, and its effect on slots is the contribution of `Reduction`.
- A signal and the unlock that follows it are one step, as are the flag accesses made together under a mutex: no other thread can tell them apart while the mutex is held.
- The wait sets hold at most one thread each, as in the code: one worker on `ready_cond`, main on `done_cond`.
- The empty lock/unlock in foreach_slot has no effect in an interleaving model.
- Resources.ContextMemory.Create: covers memory blocks and worker memory contexts. Mutexes and condition variables, among them those of the worker whose memory context failed, are not in the ledger. Allocation is a fresh block or a refusal without effect; sizes are not modelled.
- Resources.ContextMemory.RegisterSlot: the rolled-back data blocks get no destroy callback, as in the code; the callback claims cover committed slots.
- Allocator and typed-array internals (`bc_allocators_*`, `bc_concurrency_staging_*`) are not part of this model: a push appends or fails unchanged, clear empties.
- src/signal/bc_concurrency_signal.c: operating-system calls and one flag.
- sysfs reads, `sysconf`, `pthread_setaffinity_np`, signal masks, stack sizes and the pause instruction: the topology is a sequence of optional core ids, and the model says which CPU is chosen, not that the kernel honours it.
- Platform.AcceptedIsIsolatedExactly: needs at least one readable core id; without any, pinning never succeeds.
- Benchmarks, fuzz drivers, build files and cache-line layout.
