# Verified model of the RT-Thread 4.0.2 kernel core

This project models the part of the RT-Thread kernel that the firmware is built on, in the single-CPU
build of `rtconfig.h` (32 priorities, no SMP, no signals), and proves what its data structures and protocols keep.

- **Heaps.** `memheap.c` (two lists through the same headers) and `mem.c` (a tiled arena with an
  `lfree` hint). Each is modelled twice: as a value (`MemHeapModel`, `SmallMemModel`), where runs, meaning and
  statistics are proved, and as a class over a memory of cells (`MemHeapImpl`, `SmallMemImpl`), whose methods
  write headers field by field and are proved to carry out the value-level operation, to keep the links, and to
  leave the callers' data alone.
- **Scheduler and clock.** The ready table with its 32-bit index, preemption, rotation, the scheduler
  lock, the thread calls that feed it, and time slices.
- **IPC.** Suspend lists, semaphores, mutexes with priority inheritance, event sets, mailboxes, message
  queues. A region with interrupts disabled is one step; a call that sleeps ends its step, and the part after
  the wake-up is a step of its own. Message queues keep their two critical sections and the unlocked copy apart.
- **Memory pools, lists and kernel services.** `mempool.c`, the intrusive lists of `rtservice.h`, and from
  `kservice.c` the memory routines, the bounded formatter, aligned allocation and `__rt_ffs`.

## How to read it

| file | what it holds |
|---|---|
| `Blocks.dfy` | memory cells, 32-bit rounding, and sequences of blocks that tile an interval |
| `MemHeapModel.dfy`, `MemHeap.dfy`, `MemHeapClass.dfy` | memheap: values and runs, headers in memory, the object |
| `SmallMemModel.dfy`, `SmallMem.dfy`, `SmallMemClass.dfy` | the same three layers for the small-memory heap |
| `RtList.dfy`, `Chains.dfy` | intrusive lists on heap nodes, sequences without repetition, chains of `next` words |
| `Scheduler.dfy`, `SchedulerClass.dfy` | find-first-set, the scheduler as functions with its runs, the object |
| `SuspendList.dfy`, `WaitGate.dfy` | suspend lists, timeouts, and the wait-and-retry protocol |
| `Semaphore.dfy`, `Mutex.dfy`, `Event.dfy`, `Mailbox.dfy` | one model module and one object module each |
| `MessageQueue.dfy`, `MessageQueueClass.dfy` | message queues: steps and runs, linked nodes |
| `MemPool.dfy`, `MemRoutines.dfy`, `Formatter.dfy`, `AlignedAlloc.dfy` | memory pools and kernel services |

Functions carry the operations, and the object methods are proved to carry out the functions. What a call gives in each
of its cases is a lemma about the function: `...Outcome` for the heaps and the IPC objects, `ScheduleEffect` and `...Meaning`
for the scheduler, one lemma for each part of a directive in the formatter. Runs and conservation are stated over those steps.

Conventions. Addresses are byte addresses; a memory is a map from addresses to cells, one cell for each header
field, and headers and user data share it. Machine words are integers; where the width matters the wrap is
written out (rounding, the sums rt_memheap_realloc compares, ticks, the 16-bit semaphore value and lock count, the 8-bit `hold`, stored sizes).
A word of event flags is the set of its bits. `RT_NULL` is 0. Each heap operation runs under a lock of the
heap, so it is one step; a realloc that moves is a malloc, a copy and a free, each a step. Thread numbers,
priorities, timeouts and ticks are parameters. The fields named `now` stamp arrivals so that order can be stated.
History fields (`granted`, `depth`, `messages`, `woken...`) record what happened and steer nothing.

## Where the code does not do what one would expect

Each is a lemma with the exact condition, a concrete case, or both.

- `RT_ALIGN` wraps for the seven sizes above 0xFFFFFFF8: a malloc of such a size succeeds with a minimal
  block (`MallocCovers`, `AllocCovers`), and `rt_realloc` of such a size frees the block (`ReallocFailure`).
- `rt_malloc` refuses an exact fit in the last block (`MallocSucceeds`), and `rt_memheap_alloc` a request for all
  free bytes (`AllocSucceeds`). With an 8-byte arena the loop of `rt_malloc` does not end (`EightByteArenaLoops`).
- An in-place shrink does not lower `lfree` (`CutHint`, `ShrinkLosesHint`).
- `rt_memheap_realloc` of 0xFFFFFFF1 to 0xFFFFFFF8 bytes with a free block behind takes the in-place branch, because the sum
  it tests wraps, and builds the new header over the caller's block (`ReallocMeaning`, `OverrunMeaning`, `Overrun`).
- memheap blocks are aligned to 4, and stay aligned to 8 only while no request rounds to 8 bytes or less
  (`StepEightAligned`, `NotEightAligned`).
- `rt_thread_yield` is documented to let another thread run; it does so only with the YIELD flag set (`YieldMoves`).
- The lock count is 16 bits and signed, while the comment beside it speaks of 65535 levels (`ExitUndoesEnter`).
- The semaphore value wraps at 2^16 (`UnitsOut`, `ReleaseLosesUnits`), the mutex `hold` at 2^8 (`TakeAgain`); a FIFO mutex can hand over
  to a thread less urgent than its waiters (`ReleaseHandsOver`); a priority list loses its order when a waiter's
  priority changes (`SetPriorityOrdered`).
- `rt_mp_init` of a pool without blocks writes in front of the pool (`LastLinkInside`).
- The size `rt_malloc_align` asks for can wrap, or be rounded to zero by `rt_malloc` (`AlignSizeCovers`,
  `AlignSizeRoundsAway`).
- `%o` prints hexadecimal digits (`OctalOnlyBelowEight`) and a precision of 0 hides every number
  (`ZeroPrecisionShowsNothing`).

## Model

| member | source | states |
|---|---|---|
| MemHeapImpl.MemHeap.constructor | rt-thread/src/memheap.c:50-118 | a fresh heap in memory: the two linked lists are laid out in its headers and stand for one free block up to the used tail; no cell outside the pool and the list header is written |
| MemHeapImpl.MemHeap.Search | rt-thread/src/memheap.c:169-180 | the loop over next_free stops at the first listed block that fits |
| MemHeapImpl.MemHeap.Alloc | rt-thread/src/memheap.c:138-281 | the pointer writes carry out the abstract allocation (split or whole take) and keep both lists; the data bytes of every live block and all memory outside the pool stay as they were |
| MemHeapImpl.MemHeap.Merge | rt-thread/src/memheap.c:541-578 | left and right merge together: one splice of the block list, the right neighbour leaves the free list, each merge adds one header to available_size |
| MemHeapImpl.MemHeap.Free | rt-thread/src/memheap.c:495-595 | as for Alloc, for rt_memheap_free with RT_NULL included |
| MemHeapImpl.MemHeap.Grow | rt-thread/src/memheap.c:328-402 | in-place growth, short of the sizes whose test wraps: the free block behind is unlinked from both lists and rebuilt behind the longer block |
| MemHeapImpl.MemHeap.Overrun | rt-thread/src/memheap.c:350-401 | the same branch when the 32-bit test wraps: the new header is built 8 bytes in front of the data, so the block says it ends there and the caller's first words are links; nothing else is written |
| MemHeapImpl.MemHeap.ShrinkTo | rt-thread/src/memheap.c:433-485 | in-place shrink, with a free block behind absorbed and its bytes counted once |
| MemHeapImpl.MemHeap.MoveTo | rt-thread/src/memheap.c:408-416 | allocate, copy, free: the old bytes are in the new block, and no other live block changed |
| MemHeapImpl.MemHeap.Enlarge | rt-thread/src/memheap.c:301-417 | the growing half: chooses by the 32-bit test between growth, overrun and move as the model does |
| MemHeapImpl.MemHeap.Reduce | rt-thread/src/memheap.c:419-491 | the other half: the same block, or cut; its first bytes stay |
| MemHeapImpl.MemHeap.Realloc | rt-thread/src/memheap.c:284-492 | the object stays valid exactly if the growth test does not wrap, and then the first min(old, new) bytes are at the returned pointer; on every path every other live block and all memory outside the pool keep their contents; a failed non-zero realloc keeps the old block too |
| MemHeapModel.AllocMeaning | rt-thread/src/memheap.c:138-281 | an allocation either adds exactly one live block of at least the rounded size and keeps the invariant, or changes nothing |
| MemHeapModel.AllocSucceeds | rt-thread/src/memheap.c:155-183 | when a listed block fits, the request fails exactly if it equals all the free bytes there are (the strict comparison with available_size) |
| MemHeapModel.AllocCovers | rt-thread/src/memheap.c:148-150 | the block handed out covers the request, except for the seven sizes whose rounding wraps at 2^32 |
| MemHeapModel.WholeHeapRefused | rt-thread/src/memheap.c:155-155 | a concrete heap of one 16-byte block refuses 16 bytes |
| MemHeapModel.TinyPool | rt-thread/src/memheap.c:50-118 | in a pool of 48 to 63 bytes every request is refused |
| MemHeapModel.FreeMeaning | rt-thread/src/memheap.c:495-595 | exactly the freed block stops being live, the free bytes grow by its data and one header for each block merged away, and the invariant holds |
| MemHeapModel.FreeUndoesAlloc | rt-thread/src/memheap.c:138-595 | free after alloc gives back the same blocks, the same available_size and the same set of free blocks |
| MemHeapModel.GivenWasFree | rt-thread/src/memheap.c:138-281 | no block that was live is handed out |
| MemHeapModel.LiveDisjoint | rt-thread/src/memheap.c:50-595 | live blocks never overlap and stay inside the pool |
| MemHeapModel.CutMeaning | rt-thread/src/memheap.c:350-485 | cutting a block short, alone or together with the free block behind it, keeps the invariant and the byte count |
| MemHeapModel.ReallocMeaning | rt-thread/src/memheap.c:284-492 | realloc keeps the invariant exactly unless the rounded size is above 0xFFFFFFF0 and the block behind is free; otherwise it returns the one block that replaces the old one, and a failure with a non-zero size leaves the heap unchanged |
| MemHeapModel.ReallocOutcome | rt-thread/src/memheap.c:284-492 | for every size short of the wrap: RT_NULL pointer, an allocation; the block is long enough by at most a header and the minimum, nothing changes; longer, it is cut to the rounded size; enough room with the free block behind, it grows to the rounded size; otherwise the pointer is what the allocation gives, on failure nothing changes and on success the new block replaces the old one |
| MemHeapModel.AllocExact | rt-thread/src/memheap.c:186-270 | the first listed block that is large enough goes out: cut to the rounded size with the rest listed first if the rest holds a header and the minimum, whole otherwise |
| MemHeapModel.FreeListOrder | rt-thread/src/memheap.c:541-590 | the freed block is listed first unless it joined the free block in front, and a free block behind it leaves the list |
| MemHeapModel.CutListOrder | rt-thread/src/memheap.c:372-485 | after a resize in place the rest is listed first, and a free block behind leaves the list |
| MemHeapModel.OverrunMeaning | rt-thread/src/memheap.c:350-401 | when the growth test wraps, the block is cut to 16 bytes and handed back as if it had grown, and its old bytes are counted as free |
| MemHeapModel.OverrunReached | rt-thread/src/memheap.c:350-401 | a concrete heap, one allocation old, on which that happens for all eight sizes |
| MemHeapModel.SumFits | rt-thread/src/memheap.c:350-420 | no other sum the allocator compares can wrap |
| MemHeapModel.StepInv | rt-thread/src/memheap.c:50-595 | every operation keeps the whole invariant, and max_used_size takes in the new use; a resize is a step if its growth test does not wrap |
| MemHeapModel.RunSafe | rt-thread/src/memheap.c:50-595 | every state of every run of such steps: blocks tile the pool, no two free blocks are adjacent, the free list is exactly the free blocks, available_size is their data bytes |
| MemHeapModel.MaxUsedIsPeak | rt-thread/src/memheap.c:231-242 | from initialisation on max_used_size is the maximum of pool_size - available_size over the run |
| MemHeapModel.StepAligned | rt-thread/src/memheap.c:148-150 | all headers stay on multiples of 4 |
| MemHeapModel.StepEightAligned | rt-thread/src/memheap.c:148-150 | headers on multiples of 8 stay there exactly unless the step puts a header behind a request that rounds to 8 bytes or less |
| MemHeapModel.NotEightAligned | rt-thread/src/memheap.c:148-150 | such a step: a one-byte request leaves a header at offset 36 |
| MemHeapLayout.NextVisitsAll | rt-thread/src/memheap.c:50-595 | in memory, next leads through the blocks in address order, to the tail and back to the start |
| MemHeapLayout.NextFreeVisitsAll | rt-thread/src/memheap.c:50-595 | in memory, next_free leads through exactly the listed blocks and back to the list header |
| Words.AlignUpCovers | rt-thread/include/rtdef.h:290-290 | RT_ALIGN on 32 bits covers its argument exactly up to 0xFFFFFFF8 |
| SmallMemImpl.SmallMem.constructor | rt-thread/src/mem.c:204-253 | a fresh arena in memory: one free block and the end sentinel |
| SmallMemImpl.SmallMem.Search | rt-thread/src/mem.c:305-311 | the loop finds the first block from lfree on that is free, fits and lies below the bound |
| SmallMemImpl.SmallMem.AdvanceHint | rt-thread/src/mem.c:380-387 | lfree moves to the next free block or to heap_end |
| SmallMemImpl.SmallMem.Malloc | rt-thread/src/mem.c:272-410 | the header writes carry out the abstract malloc, keep the chain, and touch no live block's data |
| SmallMemImpl.SmallMem.PlugHoles | rt-thread/src/mem.c:156-194 | forward then backward merge: one splice of the chain, with lfree following a block that was merged away |
| SmallMemImpl.SmallMem.Free | rt-thread/src/mem.c:546-608 | as for Malloc, for rt_free with RT_NULL and illegal pointers included |
| SmallMemImpl.SmallMem.Shrink | rt-thread/src/mem.c:471-496 | the in-place shrink of rt_realloc |
| SmallMemImpl.SmallMem.MoveTo | rt-thread/src/mem.c:500-509 | malloc, copy, free: the bytes arrive, other live blocks keep theirs |
| SmallMemImpl.SmallMem.Realloc | rt-thread/src/mem.c:421-510 | carries out SmallMemModel.Realloc, whose result ReallocOutcome gives for every size; on every path the first min(old, new) bytes are at the returned pointer and other live blocks keep theirs |
| SmallMemModel.MallocMeaning | rt-thread/src/mem.c:272-410 | exactly one more live block of at least the working size, or no change |
| SmallMemModel.MallocFirstFit | rt-thread/src/mem.c:305-311 | the block taken is the lowest one at or after lfree that is free, fits and passes the loop bound; RT_NULL exactly when there is none |
| SmallMemModel.MallocSucceeds | rt-thread/src/mem.c:305-311 | with lfree lowest, a request some block could hold is refused exactly when only the last block holds it, to the byte |
| SmallMemModel.WholeHeapRefused | rt-thread/src/mem.c:305-311 | a fresh heap refuses a request for all of it |
| SmallMemModel.MallocCovers | rt-thread/src/mem.c:289-300 | the block covers the request, except for the seven sizes whose rounding wraps |
| SmallMemModel.MallocLowest | rt-thread/src/mem.c:380-387 | rt_malloc keeps lfree on the lowest free block |
| SmallMemModel.FreeMeaning | rt-thread/src/mem.c:546-608 | exactly the freed block stops being live, the invariant holds, and lfree stays lowest if it was |
| SmallMemModel.FreeUndoesMalloc | rt-thread/src/mem.c:272-608 | free after malloc gives back the same blocks and used_mem, and the same lfree if it was lowest |
| SmallMemModel.CutMeaning | rt-thread/src/mem.c:471-496 | the in-place shrink keeps the invariant |
| SmallMemModel.CutHint | rt-thread/src/mem.c:471-496 | after an in-place shrink lfree is still lowest exactly if it was below the block or the rest joined a free block |
| SmallMemModel.ShrinkLosesHint | rt-thread/src/mem.c:471-496 | a concrete run after which lfree is above a free block |
| SmallMemModel.ReallocMeaning | rt-thread/src/mem.c:421-510 | realloc on every path, sizes that round to zero and illegal pointers included, keeps the invariant, and the live set changes by the one block at most; which path is taken is ReallocOutcome |
| SmallMemModel.ReallocOutcome | rt-thread/src/mem.c:421-510 | for every size that does not round to zero: above the arena, RT_NULL; RT_NULL pointer, a malloc; illegal pointer, returned as it is; the same size, nothing changes; smaller by more than a header and the minimum, the block is cut to exactly that size; otherwise the pointer is what the malloc gives, RT_NULL exactly if no block at or after lfree fits, on failure nothing changes and on success the new block replaces the old one |
| SmallMemModel.MallocExact | rt-thread/src/mem.c:313-378 | the block handed out is cut to the working size when the rest holds a header and the minimum, and is whole otherwise |
| SmallMemModel.MallocHintOutcome | rt-thread/src/mem.c:380-387 | lfree stays unless the block at lfree was handed out; then it is the next free block, or heap_end without one |
| SmallMemModel.FreeHintOutcome | rt-thread/src/mem.c:156-194 | lfree after rt_free is the smaller of what it was and the block that was freed, or the free block in front that it joined |
| SmallMemModel.ReallocFailure | rt-thread/src/mem.c:430-446 | a failed non-zero realloc leaves the heap unchanged exactly for sizes up to 0xFFFFFFF8; above, it frees the block |
| SmallMemModel.LiveDisjoint | rt-thread/src/mem.c:272-608 | live blocks never overlap and stay inside the arena |
| SmallMemModel.GivenWasFree | rt-thread/src/mem.c:272-410 | no block that was live is handed out |
| SmallMemModel.Extents | rt-thread/src/mem.c:350-368 | used_mem plus the free extents is mem_size_aligned plus one header |
| SmallMemModel.StepInv | rt-thread/src/mem.c:156-608 | every operation keeps the invariant, and lfree lowest unless it was an in-place shrink |
| SmallMemModel.RunSafe | rt-thread/src/mem.c:156-608 | every state of every run is well formed, lfree is lowest in runs without in-place shrink, max_mem is the true maximum |
| SmallMemModel.RunFromInit | rt-thread/src/mem.c:204-608 | from initialisation on max_mem is the peak of used_mem and the extents always add up |
| SmallMemModel.StepAligned | rt-thread/src/mem.c:289-391 | all headers stay on multiples of 8 |
| SmallMemModel.SumsFit | rt-thread/src/mem.c:289-474 | no sum in a test of rt_malloc or rt_realloc wraps |
| SmallMemLayout.NextVisitsAll | rt-thread/src/mem.c:156-608 | in memory, next leads through the blocks in address order to the end sentinel |
| SmallMemLayout.GuardStops | rt-thread/src/mem.c:305-307 | with at least 16 bytes the unsigned loop guard is the plain comparison and fails at the sentinel |
| SmallMemLayout.EightByteArenaLoops | rt-thread/src/mem.c:305-307 | with an arena of 8 bytes the guard wraps and the loop never leaves the sentinel |
| RtList.Node.constructor | rt-thread/include/rtservice.h:47-50 | a fresh node is a list of its own |
| RtList.InsertAfter | rt-thread/include/rtservice.h:58-65 | insertion behind node k of the circle is insertion at k of the sequence of nodes; next and prev stay inverse |
| RtList.InsertBefore | rt-thread/include/rtservice.h:73-80 | insertion before a node, or before the head for the tail end |
| RtList.Remove | rt-thread/include/rtservice.h:86-92 | deletion from the sequence; a self-linked node stays as it is |
| RtList.IsEmpty | rt-thread/include/rtservice.h:98-101 | true exactly for the empty sequence |
| RtList.Len | rt-thread/include/rtservice.h:107-118 | the length of the sequence, modulo 2^32 |
| Sequences.WithoutInsert | rt-thread/include/rtservice.h:58-92 | removing an inserted node gives the old sequence back |
| RtList.FindPosition | rt-thread/src/ipc.c:98-109 | the search loop stops at the first thread of lower urgency |
| RtList.Suspend | rt-thread/src/ipc.c:80-123 | the node is linked at the end of a FIFO list, and in front of the first less urgent thread of a priority list |
| RtSlist.Tail | rt-thread/include/rtservice.h:242-247 | the last node |
| RtSlist.Append | rt-thread/include/rtservice.h:194-204 | appends to the sequence |
| RtSlist.Insert | rt-thread/include/rtservice.h:206-210 | prepends to the sequence |
| RtSlist.Len | rt-thread/include/rtservice.h:212-223 | the length, modulo 2^32 |
| RtSlist.Remove | rt-thread/include/rtservice.h:225-235 | removes the node if it is there and changes nothing otherwise |
| FindFirstSet.LowestSet | rt-thread/src/kservice.c:1286-1330 | __rt_ffs minus one names a bit that is set |
| FindFirstSet.LowestLeast | rt-thread/src/kservice.c:1286-1330 | and no lower bit is set |
| FindFirstSet.BitSet | rt-thread/src/scheduler.c:732-827 | setting or clearing the mask of one priority changes that bit of the group only |
| SchedulerImpl.Scheduler.InsertThread | rt-thread/src/scheduler.c:708-742 | rt_schedule_insert_thread: the current thread only becomes RUNNING; another becomes READY, last in its own list, with its bit set; no other list, bit or thread changes and the table stays right |
| SchedulerImpl.Scheduler.RemoveThread | rt-thread/src/scheduler.c:805-835 | rt_schedule_remove_thread: the thread is in no list, the others keep their places, and every bit still says whether its list has threads |
| SchedulerImpl.Scheduler.GetHighestPriorityThread | rt-thread/src/scheduler.c:162-184 | the head of the list of the lowest bit |
| SchedulerImpl.Scheduler.Schedule | rt-thread/src/scheduler.c:418-538 | carries out SchedulerModel.Schedule, whose whole effect is ScheduleEffect, ScheduleIdle and ScheduleLocked: with the lock open and a runnable thread the current thread ends RUNNING with no more urgent thread ready |
| SchedulerImpl.Scheduler.EnterCritical | rt-thread/src/scheduler.c:878-894 | while the count is not zero a schedule changes nothing; leaving again gives back the state there was, or schedules it if the lock was open |
| SchedulerImpl.Scheduler.ExitCritical | rt-thread/src/scheduler.c:940-966 | one less, with a schedule at the outermost level |
| SchedulerImpl.Scheduler.SuspendThread | rt-thread/src/thread.c:715-754 | a READY or RUNNING thread leaves the ready table; any other state is an error without effect |
| SchedulerImpl.Scheduler.ResumeThread | rt-thread/src/thread.c:764-798 | a SUSPENDed thread becomes ready, or RUNNING if it is the current one; any other state is an error |
| SchedulerImpl.Scheduler.Timeout | rt-thread/src/thread.c:807-829 | resume and schedule |
| SchedulerImpl.Scheduler.ChangePriority | rt-thread/src/thread.c:631-668 | a READY thread moves to the tail of its new list, any other only changes its fields |
| SchedulerImpl.Scheduler.Startup | rt-thread/src/thread.c:289-319 | a new thread becomes ready at its initial priority, then a schedule |
| SchedulerImpl.Scheduler.ExitThread | rt-thread/src/thread.c:80-115 | the running thread closes, then a schedule |
| SchedulerImpl.Scheduler.TickIncrease | rt-thread/src/clock.c:72-100 | the slice counts down, and at zero is refilled with the YIELD flag set and a schedule |
| SchedulerModel.RemoveAbsent | rt-thread/src/scheduler.c:527-527 | removing the running thread changes neither the lists nor any bit of the group |
| SchedulerModel.InsertMeaning | rt-thread/src/scheduler.c:708-742 | what an insertion does to table, lists and bits |
| SchedulerModel.RemoveMeaning | rt-thread/src/scheduler.c:805-835 | what a removal does to them |
| SchedulerModel.RemoveUndoesInsert | rt-thread/src/scheduler.c:708-835 | removing an inserted thread gives back the same lists and the same bits |
| SchedulerModel.ScheduleSettles | rt-thread/src/scheduler.c:418-538 | rt_schedule keeps the invariant and the runnable threads, does nothing under the lock, and otherwise meets the simple specification; what it changes is ScheduleEffect |
| SchedulerModel.ScheduleEffect | rt-thread/src/scheduler.c:418-538 | with the lock open: the current thread stays if it is RUNNING and more urgent than the highest ready priority, or equally urgent without the YIELD flag; otherwise the head of that list runs and leaves it, a runner that gives way is appended to the list of its own priority, its YIELD flag goes, and nothing else changes; every thread keeps its priority, mask and slice |
| SchedulerModel.ScheduleIdle | rt-thread/src/scheduler.c:432-432 | with all lists empty a schedule changes nothing |
| SchedulerModel.ScheduleLocked | rt-thread/src/scheduler.c:428-428 | with the lock taken a schedule changes nothing |
| SchedulerModel.SuspendMeaning | rt-thread/src/thread.c:715-754 | a READY or RUNNING thread becomes SUSPEND and is in no list; for any other nothing changes |
| SchedulerModel.ResumeMeaning | rt-thread/src/thread.c:764-798 | a SUSPENDed thread becomes READY at the end of its list, or RUNNING if it is the current one; for any other nothing changes |
| SchedulerModel.PriorityMeaning | rt-thread/src/thread.c:631-668 | priority and mask are the new ones; a READY thread goes from its old list to the end of the new one, all other lists and threads stay; any other thread moves in no list |
| SchedulerModel.StartedMeaning | rt-thread/src/thread.c:289-319 | the thread is READY at its initial priority, last in that list; all other lists stay |
| SchedulerModel.ClosedMeaning | rt-thread/src/thread.c:80-115 | the thread is CLOSE and in no list; all others keep their places |
| SchedulerModel.TickMeaning | rt-thread/src/clock.c:72-100 | a tick counts down; from one it refills the slice, sets the YIELD flag and schedules; from zero it wraps |
| SchedulerModel.RunSettles | rt-thread/src/scheduler.c:162-966 | in every state of every run the group agrees with the lists, the current thread is in none of them, and a schedule with the lock open settles |
| SchedulerModel.ExitSettles | rt-thread/src/scheduler.c:940-966 | the outermost rt_exit_critical settles; an inner one does not switch |
| SchedulerModel.ExitUndoesEnter | rt-thread/src/scheduler.c:878-966 | under the lock an exit undoes an enter exactly while the count is positive, which it stays up to 32767 |
| SchedulerModel.EnterMeaning | rt-thread/src/scheduler.c:878-966 | an enter locks exactly unless the count was -1, and the exit that follows restores or schedules |
| SchedulerModel.YieldMoves | rt-thread/src/thread.c:473-478 | rt_thread_yield hands over exactly when the YIELD flag is set and an equal thread is ready |
| SchedulerModel.YieldKeepsRunning | rt-thread/src/thread.c:473-478 | a concrete state in which it returns to its caller although an equal thread waits |
| SchedulerModel.Rotated | rt-thread/src/scheduler.c:437-475 | a rotation is head to processor, runner to tail, and nothing else |
| SchedulerModel.TickRotates | rt-thread/src/clock.c:83-96 | the last tick of a slice rotates the list by exactly one |
| SchedulerModel.RoundRobin | rt-thread/src/clock.c:83-96 | the i-th waiting peer runs after exactly the rest of the current slice and the slices of the peers before it, with the list turned by i + 1 |
| SchedulerImpl.TickRoundsUp | rt-thread/src/clock.c:112-128 | the tick count is the time rounded up |
| SuspendLists.EnqueueOrdered | rt-thread/src/ipc.c:80-123 | a newcomer keeps the list in order of arrival, or of priority with ties in order of arrival |
| SuspendLists.EnqueuePlace | rt-thread/src/ipc.c:80-123 | the newcomer stands behind exactly those that come before it in order, and the others keep their places |
| SuspendLists.LeaveKeeps | rt-thread/src/thread.c:807-829 | a timeout keeps the order and takes out exactly that thread |
| SuspendLists.LeaveMembers | rt-thread/src/thread.c:807-829 | exactly the other threads are still in the list |
| SuspendLists.HeadFirst | rt-thread/src/ipc.c:134-147 | the thread resumed first is the one first in order |
| SuspendLists.SetPriorityOrdered | rt-thread/src/thread.c:631-668 | changing a suspended thread's priority keeps the order exactly if it still fits between its neighbours |
| SuspendLists.PriorityInversionInList | rt-thread/src/thread.c:655-667 | a concrete list whose order is lost |
| SuspendLists.ResumeAll | rt-thread/src/ipc.c:157-185 | all threads are resumed, in order, and the list is empty |
| SuspendLists.TimeLeftExact | rt-thread/src/ipc.c:1525-1532 | the recomputed timeout is what is left exactly if the wait was at most 2^31 ticks too long |
| SuspendListRuns.RunOrdered | rt-thread/src/ipc.c:80-147 | over every run of arrivals, wake-ups and timeouts the list stays in order |
| SemaphoreImpl.Semaphore.Take | rt-thread/src/ipc.c:324-409 | one section: a unit, an error, or a place in the list |
| SemaphoreImpl.Semaphore.Release | rt-thread/src/ipc.c:433-471 | hand-over to the first waiter, or one more unit modulo 2^16 |
| SemaphoreImpl.Semaphore.Expire | rt-thread/src/thread.c:807-829 | a waiter that times out leaves without a unit |
| SemaphoreImpl.Semaphore.Reset | rt-thread/src/ipc.c:483-515 | all waiters fail in order and the value is set |
| SemaphoreModel.StepInv | rt-thread/src/ipc.c:324-515 | waiters exist only at value 0, the list stays in order, and units are conserved |
| SemaphoreModel.TakeOutcome | rt-thread/src/ipc.c:324-409 | a positive value: Taken and one less; no unit and timeout 0: Refused without change; otherwise Asleep, in the list behind those that come before in order |
| SemaphoreModel.ReleaseOutcome | rt-thread/src/ipc.c:433-471 | with waiters the first leaves the list and the value stays 0; without, the value goes up by one, from 0xFFFF to 0 |
| SemaphoreModel.ExpireOutcome | rt-thread/src/thread.c:807-829 | a timeout takes exactly that thread out of the list and nothing else |
| SemaphoreModel.RunConserves | rt-thread/src/ipc.c:324-471 | every reset-free run conserves value plus grants minus releases, counting what wrapped |
| SemaphoreModel.UnitsOut | rt-thread/src/ipc.c:199-471 | grants minus releases never exceed the initial value, and initial value plus releases is value plus grants exactly if every release found a waiter or a value below 0xFFFF |
| SemaphoreModel.ReleaseKeepsUnits | rt-thread/src/ipc.c:454-461 | a single release keeps the units exactly under that guard |
| SemaphoreModel.FewReleases | rt-thread/src/ipc.c:324-471 | a value and a number of releases that add up to less than 0x10000 lose nothing |
| SemaphoreModel.ReleaseLosesUnits | rt-thread/src/ipc.c:454-461 | a release at value 0xFFFF loses all units |
| SemaphoreModel.ReleaseServesFirst | rt-thread/src/ipc.c:454-461 | a release wakes the first in order and keeps the others |
| MutexImpl.MutexObject.Take | rt-thread/src/ipc.c:654-779 | one section of rt_mutex_take: recursion, taking it free, refusal, or waiting after raising the owner; carries out MutexModel.Take, and TakeOutcome says which case gives what |
| MutexImpl.MutexObject.Release | rt-thread/src/ipc.c:790-881 | rt_mutex_release: not the owner, a nested release, or letting go with hand-over |
| MutexImpl.MutexObject.Expire | rt-thread/src/thread.c:807-829 | a waiter that times out leaves; the owner keeps its raised priority |
| MutexModel.TakeAgain | rt-thread/src/ipc.c:681-685 | a recursive take keeps the protocol exactly while hold is below 255 |
| MutexModel.TakeOutcome | rt-thread/src/ipc.c:654-779 | the owner: hold goes up; a free mutex: owned, hold 1, the original priority remembered; owned by another: Refused without change at timeout 0, otherwise Asleep, in the list behind those that come before in order, the owner at the smaller of both priorities, nobody else changed |
| MutexModel.ReleaseOutcome | rt-thread/src/ipc.c:790-881 | not the owner: an error without change; nested: hold goes down; the last one: the own priority comes back, and the first waiter owns the mutex with hold 1 and leaves the list, or nobody does |
| MutexModel.ExpireOutcome | rt-thread/src/thread.c:807-829 | a timeout takes exactly that thread out of the list; the priority it lent stays |
| MutexModel.ReleaseHandsOver | rt-thread/src/ipc.c:831-870 | a hand-over restores the old owner's priority; the new owner is urgent enough exactly if its priority is at most that of all who still wait |
| MutexModel.PriorityHandOver | rt-thread/src/ipc.c:842-861 | in priority order it always is |
| MutexModel.FifoHandOverInverts | rt-thread/src/ipc.c:842-861 | a concrete FIFO mutex on which it is not |
| MutexModel.RunObeys | rt-thread/src/ipc.c:654-881 | every state of every run on a priority mutex, with timeouts, obeys the protocol |
| MutexModel.ProtocolMeaning | rt-thread/src/ipc.c:654-881 | no owner, value 1 and hold 0 go together; the depth of the owner is hold and that of everybody else 0; others run at their own priority; the owner is at least as urgent as every waiter |
| MutexModel.HoldIsNet | rt-thread/src/ipc.c:654-881 | over every run hold is the owner's takes, hand-overs to it included, minus its releases; everybody else has as many of each |
| EventImpl.EventObject.Send | rt-thread/src/ipc.c:1029-1111 | the loop over the list is the walk of the model, and an empty set is an error; carries out EventModel.Send, whose set and woken threads SendOutcome gives |
| EventImpl.EventObject.Recv | rt-thread/src/ipc.c:1127-1237 | one section of rt_event_recv: bits at once, an error, or asleep |
| EventImpl.EventObject.Reset | rt-thread/src/ipc.c:1249-1277 | all waiters fail, in order, and the set is empty |
| EventModel.DeliveryIsReceive | rt-thread/src/ipc.c:1063-1096 | waking a thread reports and clears what an immediate receive would |
| EventModel.WalkIsReceives | rt-thread/src/ipc.c:1054-1101 | a send wakes the threads, with the sets, and leaves the bits, that immediate receives in list order would |
| EventModel.WalkServes | rt-thread/src/ipc.c:1054-1101 | nobody who stays in the list is satisfied by the bits that are left |
| EventModel.WalkShrinks | rt-thread/src/ipc.c:1090-1092 | bits only go away during the walk |
| EventModel.WalkKeeps | rt-thread/src/ipc.c:1054-1101 | the threads that stay keep their order |
| EventModel.SendOutcome | rt-thread/src/ipc.c:1029-1111 | the set after a send is what is left of the old and new bits after immediate receives in list order; exactly the threads so served leave the list, with those sets; a bit is gone exactly if a woken thread with CLEAR received it; with nobody waiting the set is the union |
| EventModel.RecvOutcome | rt-thread/src/ipc.c:1127-1237 | an empty set: an error; satisfied: the bits, cleared if CLEAR asks for it; otherwise Refused without change at timeout 0, or Asleep with its request noted, in the list behind those that come before in order |
| EventModel.SendThenRecv | rt-thread/src/ipc.c:1029-1176 | a receive that polls for what a send left gets it; bits sent while nobody waits are kept for the next receive |
| EventModel.ReceivesClear | rt-thread/src/ipc.c:1090-1092 | a bit goes away exactly if a served thread with CLEAR asked for it |
| EventModel.ExpireOutcome | rt-thread/src/thread.c:807-829 | a timeout takes exactly that thread out of the list and leaves the set |
| EventModel.RunServes | rt-thread/src/ipc.c:1029-1277 | in every state of every run no suspended thread could be served from the set |
| WaitGate.TryInv | rt-thread/src/ipc.c:1473-1532 | one pass of a retry loop, a theft included, loses no wake-up; its outcome in each case is TryMeaning |
| WaitGate.TryMeaning | rt-thread/src/ipc.c:1473-1532 | a unit: Got, one less; none and timeout 0: Refused; otherwise Asleep, in the place its order gives it; the thread is no longer on its way |
| WaitGate.GiveMeaning | rt-thread/src/ipc.c:1544-1556 | one more unit, and the first sleeper is resumed |
| WaitGate.ExpireMeaning | rt-thread/src/thread.c:807-829 | a timeout takes exactly that thread out of the list |
| WaitGate.GiveInv | rt-thread/src/ipc.c:1544-1547 | a unit that comes back loses none either |
| WaitGate.NobodyStranded | rt-thread/src/ipc.c:1473-1561 | once every resumed thread has tried again nobody sleeps beside a free unit |
| MailboxImpl.Mailbox.constructor | rt-thread/src/ipc.c:1294-1322 | an empty ring of the 16-bit size |
| MailboxImpl.Mailbox.Put | rt-thread/src/ipc.c:1535-1542 | writing at in_offset appends to the sequence read from out_offset, for every size |
| MailboxImpl.Mailbox.Get | rt-thread/src/ipc.c:1683-1691 | reading at out_offset takes the first element off |
| MailboxImpl.Mailbox.Send | rt-thread/src/ipc.c:1442-1561 | one section of rt_mb_send_wait: append and wake a receiver, refusal, or asleep, as MailboxModel.SendOutcome says for each case |
| MailboxImpl.Mailbox.Recv | rt-thread/src/ipc.c:1590-1714 | one section of rt_mb_recv: first mail and wake a sender, refusal, or asleep, as MailboxModel.RecvOutcome says for each case |
| MailboxImpl.Mailbox.Reset | rt-thread/src/ipc.c:1726-1758 | the waiting receivers and then the senders fail, in order, and the ring is empty |
| MailboxModel.SendValid | rt-thread/src/ipc.c:1442-1561 | a send succeeds at once exactly if there is room |
| MailboxModel.RecvValid | rt-thread/src/ipc.c:1590-1714 | a receive succeeds at once exactly if there is a mail |
| MailboxModel.SendOutcome | rt-thread/src/ipc.c:1442-1561 | with room the mail is appended and the first waiting receiver resumed; full and timeout 0: Refused without change; otherwise Asleep, in its place among the senders |
| MailboxModel.RecvOutcome | rt-thread/src/ipc.c:1590-1714 | with a mail the first comes out and the first waiting sender is resumed; empty and timeout 0: Refused without change; otherwise Asleep, in its place among the receivers |
| MailboxModel.ResetOutcome | rt-thread/src/ipc.c:1726-1758 | empty, all room free, nobody waits |
| MailboxModel.RunWakes | rt-thread/src/ipc.c:1442-1758 | every interleaving with theft, timeouts and resets is bounded and loses no wake-up |
| MailboxModel.NoLostWakeup | rt-thread/src/ipc.c:1442-1758 | while a receiver sleeps the mails are at most the receivers resumed and not yet back; the same for senders and free slots |
| MailboxModel.RunFifo | rt-thread/src/ipc.c:1442-1714 | without resets, what came out followed by what is inside is what went in |
| MessageQueueImpl.MessageQueue.constructor | rt-thread/src/ipc.c:1781-1831 | an empty queue with all nodes on the free list, at their strides from back to front, inside the pool and apart; sizes stored in 16 bits |
| MessageQueueImpl.MessageQueue.SendBegin | rt-thread/src/ipc.c:1975-2080 | first section of a send: a node leaves the free list, refusal, or asleep, as MessageQueueModel.SendBeginOutcome says for each case; too long a message is an error |
| MessageQueueImpl.MessageQueue.SendCopy | rt-thread/src/ipc.c:2085-2088 | the unlocked copy into the node |
| MessageQueueImpl.MessageQueue.LinkTail | rt-thread/src/ipc.c:2092-2103 | the links after appending |
| MessageQueueImpl.MessageQueue.LinkHead | rt-thread/src/ipc.c:2197-2203 | the links after prepending |
| MessageQueueImpl.MessageQueue.SendEnd | rt-thread/src/ipc.c:2090-2125 | second section of a send or urgent send, with the wake-up |
| MessageQueueImpl.MessageQueue.RecvBegin | rt-thread/src/ipc.c:2240-2349 | first section of a receive: the head leaves the queue and tail becomes RT_NULL with it, refusal, or asleep, as MessageQueueModel.RecvBeginOutcome says for each case |
| MessageQueueImpl.MessageQueue.RecvCopy | rt-thread/src/ipc.c:2354-2355 | the unlocked copy yields the message, or as much as fits |
| MessageQueueImpl.MessageQueue.RecvEnd | rt-thread/src/ipc.c:2357-2384 | second section of a receive: the node is free again, with the wake-up |
| MessageQueueImpl.MessageQueue.FreeQueue | rt-thread/src/ipc.c:2416-2431 | the reset loop moves the queued nodes to the free list |
| MessageQueueImpl.MessageQueue.Reset | rt-thread/src/ipc.c:2397-2445 | the waiting receivers and then the senders fail, in order, the queue is empty, nodes in flight stay in flight |
| MessageQueueModel.StepValid | rt-thread/src/ipc.c:1975-2445 | every section keeps partition, payloads and gates |
| MessageQueueModel.SendBeginOutcome | rt-thread/src/ipc.c:1975-2080 | with a free node it is taken for this message; none and timeout 0: Refused without change; otherwise Asleep, in its place among the senders |
| MessageQueueModel.RecvBeginOutcome | rt-thread/src/ipc.c:2240-2349 | with a message its node is taken from the head; none and timeout 0: Refused without change; otherwise Asleep, in its place among the receivers |
| MessageQueueModel.EndOutcome | rt-thread/src/ipc.c:2090-2384 | the second sections end the flight and resume the first waiting receiver, or sender |
| MessageQueueModel.ResetOutcome | rt-thread/src/ipc.c:2397-2445 | the queued nodes are free, last queued first, nobody waits, nodes in flight and their buffers stay |
| MessageQueueModel.RunPartition | rt-thread/src/ipc.c:1975-2445 | in every interleaving queue, free list and nodes in flight partition the pool, entry is the queue length, and no wake-up is lost |
| MessageQueueModel.RunFifo | rt-thread/src/ipc.c:1975-2384 | in every run without urgent sends and resets, over every interleaving of the unlocked copies, the k-th receive to take a node gives its caller the k-th message linked, and the queue stands for the linked messages not taken yet |
| MessageQueueModel.RunServes | rt-thread/src/ipc.c:1975-2445 | the same with urgent messages put in line behind those already taken, and with resets, which drop the line behind them |
| MessageQueueModel.ReceiverGetsMessage | rt-thread/src/ipc.c:2354-2355 | a late copy still yields the message that was at the head when the receive began, or as much as fits |
| MessageQueueModel.FlightUndisturbed | rt-thread/src/ipc.c:2085-2088 | no step of another thread touches a node in flight |
| MessageQueueModel.NoLostWakeup | rt-thread/src/ipc.c:1975-2445 | while a receiver sleeps the messages are at most the receivers on their way; the same for senders and free nodes; the counts add up to the pool |
| MemPoolImpl.MemPool.constructor | rt-thread/src/mempool.c:77-124 | a pool of at least one block: the free chain visits exactly the block_total_count addresses one stride apart and ends in RT_NULL; the blocks lie inside the area and do not overlap |
| MemPoolImpl.MemPool.Alloc | rt-thread/src/mempool.c:303-391 | one section of rt_mp_alloc: only the header word of the block handed out changes, to the pool pointer |
| MemPoolImpl.MemPool.Free | rt-thread/src/mempool.c:399-449 | the header word names the pool and becomes the free link; the last sleeper is resumed |
| MemPoolImpl.LastLinkInside | rt-thread/src/mempool.c:110-119 | the final write of rt_mp_init stays in the pool exactly if there is at least one block |
| MemPoolModel.AllocMeaning | rt-thread/src/mempool.c:303-391 | the block was free, is live now, and nothing else changed |
| MemPoolModel.AllocOutcome | rt-thread/src/mempool.c:303-391 | with a free block the first goes out; none and timeout 0: Refused without change; otherwise Asleep, in front of all who sleep |
| MemPoolModel.FreeMeaning | rt-thread/src/mempool.c:399-449 | exactly the freed block stops being live |
| MemPoolModel.FreeOutcome | rt-thread/src/mempool.c:399-449 | the block is first in the free list, and the thread in front of the sleepers is resumed |
| MemPoolModel.FreeUndoesAlloc | rt-thread/src/mempool.c:303-449 | free after alloc gives the same free list back |
| MemPoolModel.LastComesFirst | rt-thread/src/mempool.c:337-338 | waiters are served last in, first out |
| MemPoolModel.RunPartition | rt-thread/src/mempool.c:303-449 | in every run free and live blocks partition the pool and no wake-up is lost |
| MemPoolModel.NoLostWakeup | rt-thread/src/mempool.c:303-449 | while a thread sleeps the free blocks are at most the threads resumed and not yet back |
| MemRoutines.MemSet | rt-thread/src/kservice.c:126-196 | the word-wide fill equals the byte fill for every alignment and count |
| MemRoutines.MemCpy | rt-thread/src/kservice.c:210-280 | the word-wide copy equals the simultaneous one for disjoint areas and for a target at or below the source |
| MemRoutines.MemMove | rt-thread/src/kservice.c:293-312 | equals the simultaneous copy under any overlap |
| MemRoutines.ForwardRightIff | rt-thread/src/kservice.c:271-272 | the byte loop of rt_memcpy into its own source is right exactly if the source already repeats with that distance |
| FormatImpl.VsnPrintf | rt-thread/src/kservice.c:777-1040 | for every size at least 1 the buffer holds the first min(n, size - 1) characters of the unbounded text and a NUL; n does not depend on size; nothing else is written |
| FormatImpl.ParseDirective | rt-thread/src/kservice.c:820-886 | flags, width, precision and qualifier as specified over the format and the arguments |
| FormatImpl.Writer.PrintNumber | rt-thread/src/kservice.c:618-775 | the padding loops produce sign, fill, zeros and digits as laid out in the specification |
| FormatImpl.Writer.PrintDirective | rt-thread/src/kservice.c:888-1025 | each conversion prints what the specification says and uses up its argument |
| FormatImpl.SkipAtoi | rt-thread/src/kservice.c:588-595 | the number read from the digits |
| FormatText.NumberWidth | rt-thread/src/kservice.c:685-773 | a number fills its width exactly, or is longer; with precision 0 the room of the digits is missing |
| FormatText.RadixSpells | rt-thread/src/kservice.c:568-585 | the digits spell the number |
| FormatText.PlainDecimal | rt-thread/src/kservice.c:618-775 | %d prints a sign if negative, then digits that spell the magnitude, zero included |
| FormatText.UnsignedConversions | rt-thread/src/kservice.c:968-1025 | %u, %x and %X print the 32-bit value in decimal, small and capital hexadecimal, with those digits only and no leading zero |
| FormatText.SignedConversions | rt-thread/src/kservice.c:978-1025 | %d and %i print the 32-bit value as a signed decimal |
| FormatText.OctalIsHexadecimal | rt-thread/src/kservice.c:568-585 | %o prints what %x prints |
| FormatText.TextConversions | rt-thread/src/kservice.c:890-965 | %c prints one character, %s a text or (NULL), %% a percent sign |
| FormatText.PointerConversion | rt-thread/src/kservice.c:945-960 | %p prints what %08x prints, eight digits |
| FormatText.ArgumentsInOrder | rt-thread/src/kservice.c:820-1025 | two conversions print what each would print alone with its own argument |
| FormatText.DirectiveRead | rt-thread/src/kservice.c:820-886 | flags, width, precision, qualifier and letter written in a row are read back as they are |
| FormatText.FlagsMeaning | rt-thread/src/kservice.c:820-833 | each flag is set exactly if its character is among those passed over |
| FormatText.NumberMeaning | rt-thread/src/kservice.c:588-595 | the number is the decimal value of the digits up to the first other character |
| FormatText.WidthMeaning | rt-thread/src/kservice.c:835-848 | the width is the number in the format, or the next argument, where a minus sign asks for the left side; -1 without either |
| FormatText.PrecisionMeaning | rt-thread/src/kservice.c:851-864 | the precision is the number behind the point or the next argument, 0 if that is negative or missing; -1 without a point |
| FormatText.CutMeaning | rt-thread/src/kservice.c:1002-1019 | the one value of the 16- or 32-bit range that agrees with the argument in those bits |
| FormatText.WidthOnlyFills | rt-thread/src/kservice.c:685-773 | a width only fills the text printed without it: spaces in front, zeros behind the sign, or spaces behind with the left flag |
| FormatText.PrecisionAlone | rt-thread/src/kservice.c:750-765 | a precision puts zeros between sign and digits, hides the digits when it is 0, and cuts a text |
| FormatText.SignAlone | rt-thread/src/kservice.c:651-665 | a plus or space flag shows in front of a signed number that is not negative, and nowhere else |
| FormatText.QualifierAlone | rt-thread/src/kservice.c:1002-1019 | a qualifier prints the cut argument as the conversion without it would |
| FormatText.NumberPlaced | rt-thread/src/kservice.c:685-773 | where sign, fill and digits of a number stand |
| FormatText.StringPlaced | rt-thread/src/kservice.c:913-943 | a text is cut by a positive precision and filled with spaces on the side the flag asks for |
| FormatText.OctalOnlyBelowEight | rt-thread/src/kservice.c:568-585 | %o prints octal digits exactly below 8 |
| FormatText.ZeroPrecisionShowsNothing | rt-thread/src/kservice.c:759-765 | for every number, base, width and flags a precision no longer than the digits changes nothing exactly if it is not 0; with 0 only sign and fill are printed |
| FormatText.DigitsShown | rt-thread/src/kservice.c:685-773 | with any other precision the digits stand at the end, in front of the fill on the right |
| FormatText.PlainFormat | rt-thread/src/kservice.c:810-818 | a format without directives prints itself |
| AlignedAlloc.MallocAlign | rt-thread/src/kservice.c:1229-1266 | the pointer is a multiple of the alignment, the hidden word and the bytes lie in one fresh block, the word holds that block's address, and other blocks keep their data |
| AlignedAlloc.FreeAlign | rt-thread/src/kservice.c:1275-1281 | frees exactly the block whose address is hidden in front of the data |
| AlignedAlloc.AlignSizeCovers | rt-thread/src/kservice.c:1240-1246 | the block handed out has room for the request and a word exactly if neither rounding nor sum nor the rounding in rt_malloc wraps, that is up to a sum of 0xFFFFFFF8 |
| AlignedAlloc.AlignSizeRoundsAway | rt-thread/src/kservice.c:1240-1246 | a sum of 0xFFFFFFFC does not wrap and is rounded to zero all the same |
| AlignedAlloc.AlignPtrBounds | rt-thread/src/kservice.c:1247-1260 | the aligned pointer leaves room for a word in front and loses at most one alignment |

## Left out

- Context switches, stack checks, hooks, debug output, the object registry, create/delete/detach of objects, and the assertion handler; an asserted condition is a precondition.
- `RT_USING_SMP` and `RT_USING_SIGNALS` code, which this build does not configure; timers (timer.c) appear only as timeout steps.
- Drivers, board code, the GUI and the applications.
- `rt_calloc`, `rt_malloc_sethook`, memory tracing, the thread name in a heap header and the string functions of kservice.c, which would add only easy members.
- memheap pools of 48 to 63 bytes: the first block would be below the minimum, so only `TinyPool` speaks of them; smaller ones wrap at once.
- Small-memory arenas below 16 bytes: only `GuardStops` and `EightByteArenaLoops` speak of them.
- MemHeapModel.AllocSucceeds: the unlocked test of available_size before the lock is taken is part of the same step.
- MutexModel.RunObeys: one mutex; priorities change through it alone. The code does not deliver the property for a thread that holds several mutexes.
- SchedulerModel.RoundRobin: no timer fires and no thread changes state during the ticks counted.
- Scheduler and IPC objects are separate models: an IPC step says which thread it suspends or resumes, and the ready table of the scheduler has its own steps for that.
- A resumed thread that is closed before it tries again takes its wake-up with it; detaching threads is not a step of the IPC models.
- FormatImpl.VsnPrintf: the buffer is as large as `size` says, so the pointer wrap of `rt_vsprintf` does not occur; `skip_atoi` does not overflow; a missing argument reads as 0; the return value is below 2^31.
- FormatText: `#` is parsed and ignored, as `RT_PRINTF_SPECIAL` is not configured.
- MemRoutines.MemCpy: counts below 2^31, as the length is kept in an int.
- AlignedAlloc.MallocAlign: sizes with which neither the roundings nor the sum wraps; `AlignSizeCovers` says exactly when the block is large enough.
- MemHeapModel.RunSafe: a resize whose growth test wraps is not a step, as the heap is not well formed after it; `ReallocMeaning` has the exact condition.
- FindFirstSet: the table version of `__rt_ffs`; the build may use an instruction for it.
- Writes of one critical section may be in another order in the model, which nobody can observe.
