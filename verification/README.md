# A verified model of the RT-Thread 4.0.1 kernel

The robot firmware of this repository runs on the RT-Thread kernel under `rt-thread/src`. This project
models the uniprocessor kernel as `application/roc_car/rtconfig.h` builds it (32-bit, no SMP, no signals,
no software timers) and proves what its parts promise to each other and to the threads that use them:

- the three allocators: the boundary-tag heap (`memheap.c`), the small first-fit heap (`mem.c`) and the
  slab allocator with its page allocator (`slab.c`);
- the scheduler with its ready bitmap, the thread states, and on top of them semaphores, priority-inheriting
  mutexes, event sets, mailboxes and message queues (`scheduler.c`, `thread.c`, `ipc.c`, `__rt_ffs`);
- the timers: a skip list ordered by a wrapping 32-bit clock, and the loop that fires them (`timer.c`);
- the memory primitives with their word loops (`kservice.c`).

A section that runs with interrupts disabled, or under the heap semaphore, is one atomic step. A call that gives
up the processor, or that drops its lock on the way, is several steps, and anything may come in between. Four thread
calls and the start and stop of a timer are one step in the runs although they have gaps when interrupts are enabled;
what may happen in those gaps is proved beside them, with the exact condition under which the call still ends well. Each
part comes twice. A module of *values* says what a step does to an abstract state (a row of blocks, a queue of
threads, a line of messages) and proves the laws of whole runs, whatever the order of the steps. A module with
a *class* holds the program's own fields (links, masks, counters, offsets), rewritten in place by methods with
the program's branches and loops; each method ensures that the abstract state changes as the function of the
first module says.

| part | values and laws | in-place code |
|---|---|---|
| lists | `Rings`, `WaitQueue`, `Blocks`, `Payloads` | used by all |
| boundary-tag heap | `MemHeapLayout`, `MemHeapLaws`, `MemHeapRuns` | `MemHeap` |
| small heap | `SmallHeapLayout`, `SmallHeapLaws`, `SmallHeapExact`, `SmallHeapRuns` | `SmallHeap` |
| slab allocator | `SlabPages`, `SlabClasses`, `SlabZones`, `SlabRuns`, `SlabStats` | `SlabPageList`, `SlabZoneTable` |
| threads and scheduler | `ReadyBits`, `Threads`, `ThreadLaws`, `ThreadEffects`, `TimeSlices` | `Scheduler`, `ClockTick` |
| blocking calls | `Waits`, `Callers`, `Semaphores`, `Mutexes`, `Events`, `Mailboxes`, `MessageQueues` | `IpcLists`, `SemaphoreObject`, `MutexObject`, `EventObject`, `MailboxObject`, `MessageQueueObject` |
| timers | `TimerModel`, `TimerRuns` | `TimerList` |
| memory primitives | `Payloads` | `MemOps` |

Addresses are byte offsets from the start of a pool or page numbers; a field of a header in memory is a map from
header addresses to values. Machine arithmetic that can wrap is written out with its width. Times, the contents of
messages, the actions of timer callbacks and the order of calls are parameters: the run laws hold for all of them.
A switch of context is a change of the current thread, and a thread that has blocked goes on as a later step of its
own.

## Model

| member | source | states |
|---|---|---|
| `Rings.RingInsert` | rt-thread/include/rtservice.h:58-65 | the four link writes keep the circular list and put the new node right after node k |
| `Rings.RingRemove` | rt-thread/src/memheap.c:216-219 | the two neighbour writes by which the heaps unlink a node take out exactly that node |
| `Rings.RingDetach` | rt-thread/include/rtservice.h:86-92 | with its last line too, rt_list_remove leaves the rest as one circular list and the node as a list of its own |
| `MemHeapLayout.RequestCovers` | rt-thread/src/memheap.c:147-150 | a rounded request covers what was asked for exactly below the top three sizes, and by less than a word or at the minimum |
| `MemHeapLaws.CarveLaw` | rt-thread/src/memheap.c:187-258 | serving a request, split or whole, keeps tiling, coalescing, free list and counters, and makes exactly one block live |
| `MemHeapLaws.AllocLaw` | rt-thread/src/memheap.c:138-281 | an allocation changes nothing, or makes one new block live whose size covers the request with bounded waste |
| `MemHeapLaws.AllocRefuses` | rt-thread/src/memheap.c:155-183 | a request that some free block could serve is refused exactly if it asks for all the free bytes there are |
| `MemHeapLaws.AllocExact` | rt-thread/src/memheap.c:155-258 | exactly which requests fail, that the first block on the free list that is large enough serves, and what it is cut down to |
| `MemHeapLaws.FreeLaw` | rt-thread/src/memheap.c:495-595 | freeing, with any of the four kinds of merging, keeps the invariant and takes exactly the block out of the live ones |
| `MemHeapLaws.FreeUndoesAlloc` | rt-thread/src/memheap.c:495-595 | freeing what was just allocated restores the row of blocks and the free byte count |
| `MemHeapLaws.LastFreedFirst` | rt-thread/src/memheap.c:579-587 | a block just freed serves the next request that fits, unless it has joined one on its left, which keeps its place on the free list |
| `MemHeapLaws.ShiftLaw` | rt-thread/src/memheap.c:334-402 | moving the header between a block and its free right neighbour keeps the invariant and resizes exactly that block |
| `MemHeapLaws.CutOffLaw` | rt-thread/src/memheap.c:420-492 | giving back the end of a block keeps the invariant and resizes exactly that block |
| `MemHeapLaws.ReallocLaw` | rt-thread/src/memheap.c:284-492 | for sizes that do not overgrow by 32-bit wrap (`ReallocSound` covers those): reallocation replaces exactly the caller's block by nothing, by one large enough, or, when memory is short, not at all |
| `MemHeapLaws.ReallocExact` | rt-thread/src/memheap.c:284-492 | under the same condition: exactly when a reallocation fails, when the block stays where it is, when it grows into its neighbour, is cut or left as it is, and into which block it moves otherwise |
| `MemHeapLaws.ReallocSound` | rt-thread/src/memheap.c:297-353 | reallocation keeps the heap sound exactly if the right neighbour is used or the request plus the minimum does not wrap |
| `MemHeapRuns.RunLaw` | rt-thread/src/memheap.c:138-595 | every run keeps the invariant, and max_used_size is the larger of its old value and the high-water mark of the run |
| `MemHeapRuns.RunFromInit` | rt-thread/src/memheap.c:50-121 | from initialisation on, max_used_size is exactly the high-water mark |
| `MemHeapRuns.ReallocIsRun` | rt-thread/src/memheap.c:284-492 | a reallocation is a run of at most two of the elementary changes, so the run laws cover it |
| `MemHeap.MemHeap.constructor` | rt-thread/src/memheap.c:50-121 | the headers written at start are those of one free block and the tail |
| `MemHeap.MemHeap.Alloc` | rt-thread/src/memheap.c:138-281 | the pointer code does to blocks, free list and counters what the layout function says, and no live payload byte changes |
| `MemHeap.MemHeap.Free` | rt-thread/src/memheap.c:495-595 | likewise, with all payload bytes unchanged |
| `MemHeap.MemHeap.Realloc` | rt-thread/src/memheap.c:284-492 | for such sizes, likewise; the first min(old, new) bytes reappear in the result, and all other live payloads stay |
| `SmallHeapLaws.CarveLaw` | rt-thread/src/mem.c:311-387 | serving a request keeps the invariant and lfree's place, and makes exactly one block live |
| `SmallHeapLaws.MallocLaw` | rt-thread/src/mem.c:272-410 | an allocation changes nothing, or makes one new aligned block live; lfree stays the lowest free block if it was |
| `SmallHeapLaws.LiveApart` | rt-thread/src/mem.c:272-410 | two live blocks never overlap, lie inside the heap and are aligned |
| `SmallHeapLaws.MallocRefuses` | rt-thread/src/mem.c:305-311 | an allocation fails exactly if, from lfree on, only an exactly fitting last block could serve it |
| `SmallHeapLaws.FirstFitOfAll` | rt-thread/src/mem.c:305-311 | the same over the whole heap as long as lfree is the lowest free block |
| `SmallHeapExact.MallocExact` | rt-thread/src/mem.c:305-387 | an allocation fails exactly if no block fits; else the first one that fits, from lfree on, serves it, is cut exactly if the rest can be a block, and lfree moves, if at all, to the next free block |
| `SmallHeapExact.MallocAnyExact` | rt-thread/src/mem.c:277-311 | the sizes rt_malloc itself refuses are zero, those larger than the heap, and those no block fits; the three topmost are served like the least request |
| `SmallHeapLaws.FreeLaw` | rt-thread/src/mem.c:546-609 | freeing keeps the invariant, takes exactly the block out of the live ones, and lfree stays the lowest free block if it was |
| `SmallHeapExact.FreeLfreeExact` | rt-thread/src/mem.c:596-606 | lfree stays if it lies below the freed block, and else moves to the header of the block that one has become part of |
| `SmallHeapLaws.ShrinkLaw` | rt-thread/src/mem.c:471-498 | cutting a block down keeps the invariant; lfree still points to a free header or to the end |
| `SmallHeapLaws.ShrinkLowest` | rt-thread/src/mem.c:471-498 | cutting keeps lfree the lowest free block exactly if it lay below the cut or was the neighbour joined with the rest |
| `SmallHeapExact.ShrinkLfreeExact` | rt-thread/src/mem.c:471-498 | lfree follows a cut exactly if it was the right neighbour |
| `SmallHeapLaws.ReallocLaw` | rt-thread/src/mem.c:421-510 | which of four things happens to a block, where the result lies, and that all other live blocks stay |
| `SmallHeapExact.ReallocExact` | rt-thread/src/mem.c:421-510 | exactly when a reallocation fails, when the block stays, when it is cut in place, and into which block it moves otherwise |
| `SmallHeapExact.ReallocOfNone` | rt-thread/src/mem.c:431-446 | rt_realloc of no block is rt_malloc, but refuses the sizes that round to zero |
| `SmallHeapRuns.RunLaw` | rt-thread/src/mem.c:156-609 | every run keeps the invariant and exact used_mem; max_mem is its high-water mark; without cuts lfree stays the lowest free block |
| `SmallHeapRuns.FirstFitInRuns` | rt-thread/src/mem.c:305-407 | in runs of rt_malloc and rt_free an allocation fails exactly if every free block is too small, but for an exactly fitting last one |
| `SmallHeapRuns.ReallocIsRun` | rt-thread/src/mem.c:421-510 | a reallocation is a run of at most two elementary changes |
| `SmallHeapRuns.SearchEnds` | rt-thread/src/mem.c:305-307 | the search stops at the sentinel for every request exactly if the heap holds at least 12 bytes, or none |
| `SmallHeapRuns.HeapStretchIs` | rt-thread/src/mem.c:204-228 | the heap starts on an aligned stretch within the memory given exactly if rounding the first address up does not wrap, and refuses no stretch with room for more than both headers |
| `SmallHeap.SmallHeap.constructor` | rt-thread/src/mem.c:204-257 | on an aligned stretch with room for 12 bytes, the two headers written at start are those of one free block and the sentinel |
| `SmallHeap.SmallHeap.PlugHoles` | rt-thread/src/mem.c:156-194 | the in-place joins and the moves of lfree are those of the row of blocks |
| `SmallHeap.SmallHeap.Malloc` | rt-thread/src/mem.c:272-410 | the search loop, the split and the advance of lfree do what the layout function says; live payloads stay |
| `SmallHeap.SmallHeap.Free` | rt-thread/src/mem.c:546-609 | likewise, with all bytes unchanged |
| `SmallHeap.SmallHeap.Realloc` | rt-thread/src/mem.c:421-510 | likewise; the first min(old, new) payload bytes reappear in the result, and all other live payloads stay |
| `SlabPages.TakeLaw` | rt-thread/src/slab.c:236-270 | rt_page_alloc takes the lowest n consecutive free pages and nothing else; it fails only if there are none |
| `SlabPages.FreeLaw` | rt-thread/src/slab.c:272-322 | rt_page_free keeps the list ordered, disjoint and fully coalesced and adds exactly its pages |
| `SlabPages.FreeUndoesTake` | rt-thread/src/slab.c:236-322 | giving back what was just taken restores the list |
| `SlabPages.Canonical` | rt-thread/src/slab.c:236-322 | a sound list is determined by the set of its pages |
| `SlabPages.RunLaw` | rt-thread/src/slab.c:236-322 | no run of page calls loses or doubles a page |
| `SlabPages.BackToInit` | rt-thread/src/slab.c:327-334 | when all is given back the list is the one run it started as |
| `SlabPageList.PageList.constructor` | rt-thread/src/slab.c:327-334 | the initial list is one run |
| `SlabPageList.PageList.PageAlloc` | rt-thread/src/slab.c:236-270 | the loop over links takes what the function on runs takes |
| `SlabPageList.PageList.PageFree` | rt-thread/src/slab.c:272-322 | the loop over links joins or inserts as the function on runs does |
| `SlabClasses.ClassLaw` | rt-thread/src/slab.c:401-459 | a size's class has its chunk size, which covers it and wastes less than 8 bytes or less than an eighth |
| `SlabClasses.SameClass` | rt-thread/src/slab.c:401-459 | two sizes share a class exactly if they round to one chunk size, and larger sizes never get a smaller one |
| `SlabClasses.PowerTest` | rt-thread/src/slab.c:635-635 | the bit test singles out the powers of two among all words but zero |
| `SlabClasses.ChooseZoneSize` | rt-thread/src/slab.c:375-377 | the loop finds the first of the three zone sizes that is large enough for the heap |
| `SlabClasses.CountLaw` | rt-thread/src/slab.c:628-646 | every zone has room for at least three chunks, all behind its header and inside it |
| `SlabClasses.PowerAligned` | rt-thread/src/slab.c:583-648 | chunks of a power-of-two size are aligned to it exactly if their zone is |
| `SlabClasses.PageAligned` | rt-thread/src/slab.c:583-648 | so they are for every such size up to a page |
| `SlabClasses.PowerNotAligned` | rt-thread/src/slab.c:583-648 | and are not for 8192-byte chunks of a zone on an odd page |
| `SlabZones.ServeLaw` | rt-thread/src/slab.c:539-568 | an allocation from a listed zone hands out a chunk of its class that nobody has, of the first zone listed, and nothing else changes |
| `SlabZones.RenewLaw` | rt-thread/src/slab.c:590-652 | so does one from the first spare zone |
| `SlabZones.FoundLaw` | rt-thread/src/slab.c:602-652 | so does one from a block of fresh pages, whose pages now lead to the zone |
| `SlabZones.GiveLaw` | rt-thread/src/slab.c:826-903 | rt_free takes exactly its chunk back; the zone is given up exactly if that was its last chunk in use and another zone of its class has room, and released exactly if two are spare already; nothing else changes |
| `SlabZones.GrabLaw` | rt-thread/src/slab.c:602-607 | taking pages outside the lock keeps every page in one place and touches no zone |
| `SlabZones.MarkLaw` | rt-thread/src/slab.c:497-504 | marking a large block puts it into its caller's hands and disturbs no zone and no other mark |
| `SlabZones.UnmarkLaw` | rt-thread/src/slab.c:797-820 | a large block's entry tells its length until it is freed; then it is on its way back, and nothing else changes |
| `SlabZones.ReturnLaw` | rt-thread/src/slab.c:890-899 | giving pages back outside the lock adds exactly those pages to the free ones and touches no zone |
| `SlabRuns.RunLaw` | rt-thread/src/slab.c:478-904 | in every interleaving: exact z_nfree, exact zone_array, live chunks apart, and each leads back to its zone |
| `SlabRuns.ChunksApart` | rt-thread/src/slab.c:539-648 | two different chunks in callers' hands share no byte |
| `SlabRuns.ZoneFound` | rt-thread/src/slab.c:826-828 | rt_free finds the zone of every chunk through memusage |
| `SlabRuns.FreeCount` | rt-thread/src/slab.c:544-577 | z_nfree is exactly the number of chunks not in callers' hands |
| `SlabRuns.EveryPage` | rt-thread/src/slab.c:236-322 | every page is free, or in one zone, one large block or one block on its way |
| `SlabStats.StepUse` | rt-thread/src/slab.c:513-836 | what each critical section adds to used_mem or takes from it is the change of the bytes in callers' hands |
| `SlabStats.StatsLaw` | rt-thread/src/slab.c:513-836 | in every interleaving used_mem is exactly the number of bytes in callers' hands and max_mem the high-water mark |
| `SlabStats.StatsFromInit` | rt-thread/src/slab.c:63-63 | so it is from the zeros at start on |
| `SlabZoneTable.ZoneTable.Serve` | rt-thread/src/slab.c:539-577 | the in-place lists and headers change as the function says |
| `SlabZoneTable.ZoneTable.Renew` | rt-thread/src/slab.c:590-652 | likewise for a spare zone |
| `SlabZoneTable.ZoneTable.Found` | rt-thread/src/slab.c:602-652 | likewise for fresh pages, with the loop that marks them |
| `SlabZoneTable.ZoneTable.FindLink` | rt-thread/src/slab.c:862-865 | the loop that looks for the link to a zone ends, and finds it |
| `SlabZoneTable.ZoneTable.Give` | rt-thread/src/slab.c:826-903 | the in-place lists and headers change as the function says |
| `ReadyBits.Ffs` | rt-thread/src/kservice.c:1281-1296 | the table search finds the lowest set bit of every 32-bit word, and zero only for zero |
| `ReadyBits.MarkLaw` | rt-thread/src/scheduler.c:677-681 | marking a priority, one- or two-level, marks exactly that one |
| `ReadyBits.UnmarkLaw` | rt-thread/src/scheduler.c:764-775 | unmarking it unmarks exactly that one |
| `ReadyBits.HighestLaw` | rt-thread/src/scheduler.c:170-192 | the priority found is marked and no marked one is more urgent, in both table forms |
| `WaitQueue.EnqueueLaw` | rt-thread/src/ipc.c:92-117 | a waiter goes behind all at least as urgent and before all less urgent ones |
| `WaitQueue.HeadIsMostUrgent` | rt-thread/src/ipc.c:133-148 | so the first waiter is the most urgent one |
| `WaitQueue.Find` | rt-thread/src/ipc.c:86-119 | the loop finds that place for both flags |
| `ThreadLaws.CallInv` | rt-thread/src/thread.c:286-769 | every kernel call, taken as one step, keeps thread states, list membership and the current thread in agreement |
| `ThreadLaws.Membership` | rt-thread/src/scheduler.c:652-779 | a thread is READY exactly if it is on its priority's list, on one list at most and once, and a running one on none |
| `ThreadEffects.SuspendLaw` | rt-thread/src/thread.c:655-694 | rt_thread_suspend takes exactly a ready or running thread off, stops its timer, and moves nobody else |
| `ThreadEffects.ResumeLaw` | rt-thread/src/thread.c:704-738 | rt_thread_resume makes exactly a suspended thread ready, behind all others of its priority, and moves nobody else |
| `ThreadEffects.TimeoutLaw` | rt-thread/src/thread.c:747-769 | a timeout makes its thread ready in the same way, with an error |
| `ThreadEffects.SleepLaw` | rt-thread/src/thread.c:485-515 | the running thread is suspended with its timer started, and nobody else moves |
| `ThreadEffects.StartupLaw` | rt-thread/src/thread.c:286-318 | a new thread is made ready at the priority it was created with |
| `ThreadEffects.PriorityEffect` | rt-thread/src/thread.c:570-610 | a ready thread goes behind all others of its new priority, any other stays where it is |
| `ThreadEffects.CloseLaw` | rt-thread/src/thread.c:428-459 | a deleted thread leaves every list and heads the defunct ones, and nobody else moves |
| `ThreadEffects.ExitLaw` | rt-thread/src/thread.c:80-115 | a thread that exits without clean-up is closed and on no list, and nobody else moves |
| `ThreadEffects.SwitchLaw` | rt-thread/src/scheduler.c:399-499 | rt_schedule does nothing, or switches to the first of the most urgent ready threads and puts a running thread that gives way behind all of its priority; nobody else moves |
| `ThreadLaws.ScheduleLaw` | rt-thread/src/scheduler.c:399-499 | after an unlocked rt_schedule nobody ready is more urgent than the running thread; and when it switches |
| `ThreadLaws.AlwaysSomeoneRuns` | rt-thread/src/scheduler.c:399-499 | with an idle thread that never blocks, in every reachable state rt_schedule finds a most urgent thread to run |
| `ThreadLaws.YieldLaw` | rt-thread/src/thread.c:470-475 | a yield puts the running thread behind the others of its priority |
| `ThreadLaws.RoundRobin` | rt-thread/src/thread.c:470-475 | after j yields the turn has moved on by j places |
| `ThreadLaws.EachRunsOnce` | rt-thread/src/thread.c:470-475 | in n yields each of the n threads that share the top priority runs exactly once |
| `TimeSlices.OneSlice` | rt-thread/src/clock.c:83-94 | a thread runs for exactly its remaining ticks, or 2^32 for none, and yields with a full slice for its next turn |
| `TimeSlices.RunsItsSlice` | rt-thread/src/clock.c:83-94 | threads that share the top priority run in the order of their line, each for exactly its slice, and line up again with full slices |
| `ClockTick.Clock.constructor` | rt-thread/src/thread.c:160-161 | a thread starts with a full slice |
| `ClockTick.Clock.Slice` | rt-thread/src/clock.c:72-94 | the thread's half of the clock tick as the function says, with the wrapping count and the yield |
| `ThreadLaws.InsertExact` | rt-thread/src/scheduler.c:652-686 | inserting a thread keeps the lists sound exactly if it is on no list and has no timer running |
| `ThreadLaws.ResumeInterrupted` | rt-thread/src/thread.c:704-738 | whatever calls come between the two sections of rt_thread_resume, it ends well exactly if the thread is then on no list with its timer stopped |
| `ThreadLaws.ResumeGap` | rt-thread/src/thread.c:704-738 | a second resume between the two critical sections of the first one puts the thread on its list twice |
| `ThreadLaws.StartupGap` | rt-thread/src/thread.c:293-310 | no call between the unprotected writes of rt_thread_startup and the resume it ends with can break that resume |
| `ThreadLaws.SuspendGap` | rt-thread/src/thread.c:665-694 | the section of rt_thread_suspend keeps lists and states in agreement whatever the state has become since it was tested |
| `ThreadLaws.DeleteExact` | rt-thread/src/thread.c:443-456 | the end of rt_thread_delete is right exactly if the thread is on no list by then |
| `ThreadLaws.DeleteInterrupted` | rt-thread/src/thread.c:437-456 | whatever calls come after its first section, rt_thread_delete ends well exactly if none has put the thread on a list |
| `ThreadLaws.DeleteHitByTimer` | rt-thread/src/thread.c:437-456 | a timeout of the thread in that gap makes the call link a linked node, unless the thread is switched to at once |
| `ThreadLaws.NestIs` | rt-thread/src/scheduler.c:813-890 | the lock count is the depth of nesting up to 32768 levels, but for the wrapped value at that depth |
| `ThreadLaws.LockDepth` | rt-thread/src/scheduler.c:813-825 | the scheduler stays locked through all levels exactly up to depth 32768 |
| `Scheduler.Scheduler.constructor` | rt-thread/src/scheduler.c:199-275 | at start all lists are empty, no bit is set and the first thread runs |
| `Scheduler.Scheduler.InsertThread` | rt-thread/src/scheduler.c:652-686 | list, bit masks and state change as the function says |
| `Scheduler.Scheduler.RemoveThread` | rt-thread/src/scheduler.c:749-779 | likewise, the bits being cleared only when the list is empty |
| `Scheduler.Scheduler.Schedule` | rt-thread/src/scheduler.c:399-499 | picking by bit masks is picking the first of the most urgent ready list |
| `Scheduler.Scheduler.Block` | rt-thread/src/ipc.c:79-122 | suspending onto a list puts the current thread where the flag says and takes it off the ready list |
| `Scheduler.Scheduler.Suspend` | rt-thread/src/thread.c:655-694 | as the function on threads says |
| `Scheduler.Scheduler.Resume` | rt-thread/src/thread.c:704-738 | as the function on threads says, when nothing comes between its two sections |
| `Scheduler.Scheduler.Sleep` | rt-thread/src/thread.c:485-515 | as the function on threads says |
| `Scheduler.Scheduler.Startup` | rt-thread/src/thread.c:286-318 | as the function on threads says, when nothing comes in between |
| `Scheduler.Scheduler.TimerFires` | rt-thread/src/thread.c:747-769 | as the function on threads says: the thread leaves its list with a timeout error |
| `Scheduler.Scheduler.ChangePriority` | rt-thread/src/thread.c:570-610 | as the function on threads says, for ready and for other threads |
| `Scheduler.Scheduler.Exit` | rt-thread/src/thread.c:80-115 | as the function on threads says |
| `Scheduler.Scheduler.Close` | rt-thread/src/thread.c:428-459 | as the function on threads says, for a thread of any state, when nothing comes between its parts |
| `Scheduler.Scheduler.EnterCritical` | rt-thread/src/scheduler.c:813-825 | one more level in signed 16-bit arithmetic |
| `Scheduler.Scheduler.ExitCritical` | rt-thread/src/scheduler.c:868-890 | one level less, and at none or fewer the count is cleared and rt_schedule runs |
| `Waits.WakeLaw` | rt-thread/src/ipc.c:133-148 | the first waiter becomes ready; nobody else and no other list is touched |
| `Waits.WakeIs` | rt-thread/src/ipc.c:133-148 | the one woken is ready with its timer stopped and its error code as it was, and heads no list any more |
| `Waits.WakeAllLaw` | rt-thread/src/ipc.c:156-186 | the loop makes every waiter ready with an error, its timer stopped, and moves nobody else |
| `Waits.CallInOrder` | rt-thread/src/ipc.c:79-122 | a priority-ordered list stays ordered through every call that does not reprioritise a waiter |
| `Waits.BlockedIs` | rt-thread/src/ipc.c:79-122 | a thread that blocks is suspended on the list, where its flag says, with its timer started exactly if it waits for a limited time, and nobody else moves |
| `Callers.WaitIs` | rt-thread/src/ipc.c:366-388 | so is the caller of a repeated wait, with its error code reset |
| `IpcLists.ListResume` | rt-thread/src/ipc.c:133-148 | over masks and lists, resumes the first waiter as the function says |
| `IpcLists.ListResumeAll` | rt-thread/src/ipc.c:156-186 | the loop resumes all waiters as the function says |
| `IpcLists.WaitOn` | rt-thread/src/ipc.c:366-388 | resetting the error, suspending and arming the timer, as the function says |
| `Callers.AccountCall` | rt-thread/src/ipc.c:363-404 | whatever other threads and interrupts do while a caller waits or has been resumed, its error code is success exactly if it was given what it waits for |
| `Callers.GoesOn` | rt-thread/src/scheduler.c:399-414 | a thread that has blocked gives up the processor exactly if the scheduler is unlocked and another thread is ready |
| `Callers.AccountReturn` | rt-thread/src/ipc.c:391-402 | returning keeps the account exactly if the thread has left the list, and then its error code tells whether it was served; on the list it reports success |
| `Callers.BlockedTwice` | rt-thread/src/ipc.c:79-122 | blocking on the list it is on already, a thread is linked into it twice |
| `Callers.LeftIs` | rt-thread/src/ipc.c:1522-1529 | the time left of a repeated wait is right exactly unless the wait outlived it by more than half the clock's range |
| `Semaphores.TakeInv` | rt-thread/src/ipc.c:321-395 | in any context, and completely: a positive value is taken from and nobody moves; with none and no time the call is refused; with time the thread is put on the list, its timer started exactly if the time is limited |
| `Semaphores.ReturnInv` | rt-thread/src/ipc.c:394-402 | a thread that had blocked and left the list returns success exactly if it was granted the semaphore; one still on the list breaks the account |
| `Semaphores.SuccessWithoutUnit` | rt-thread/src/ipc.c:366-402 | a take that blocks returns success without a unit exactly if the scheduler is locked or no other thread is ready |
| `Semaphores.ReleaseInv` | rt-thread/src/ipc.c:430-468 | a release makes the first waiter ready, served and without an error, and leaves the value and everybody else; without waiters it adds one in sixteen bits; it keeps the account exactly if somebody waits or the value is not at its top |
| `Semaphores.ResetInv` | rt-thread/src/ipc.c:480-509 | a reset makes all waiters ready with an error and sets the value asked for, in sixteen bits |
| `Semaphores.RunLaw` | rt-thread/src/ipc.c:321-509 | over the steps of any run: the value at the last reset plus the releases since is the value plus the units handed out, by takes that succeed at once and to threads resumed; modulo 2^16 always and exactly while no release overflows; a positive value means no waiter |
| `Semaphores.ResumedByOutsider` | rt-thread/src/thread.c:704-738 | resuming a thread from outside keeps the semaphore's invariant exactly if it was not waiting for it; otherwise the waiter gets success and no unit |
| `SemaphoreObject.Semaphore.Take` | rt-thread/src/ipc.c:321-395 | as the function says, over the scheduler's masks and lists |
| `SemaphoreObject.Semaphore.Return` | rt-thread/src/ipc.c:394-402 | the error code is what the function says, and the semaphore stays in order exactly if the thread has left the list |
| `SemaphoreObject.Semaphore.Release` | rt-thread/src/ipc.c:430-468 | as the function says, followed by rt_schedule exactly if a thread was resumed |
| `SemaphoreObject.Semaphore.Reset` | rt-thread/src/ipc.c:480-509 | as the function says |
| `SemaphoreObject.Semaphore.ScheduledInv` | rt-thread/src/scheduler.c:399-499 | the rt_schedule these calls end with changes the threads as the scheduler does and nothing of the semaphore |
| `Mutexes.FreeIs` | rt-thread/src/ipc.c:678-868 | below 256 nested takes: value 1, no owner and hold 0 are one and the same, and imply no waiters |
| `Mutexes.TakeInv` | rt-thread/src/ipc.c:651-776 | taking keeps the invariant, the inheritance and the order of waiters |
| `Mutexes.TakeLaw` | rt-thread/src/ipc.c:651-749 | a take by the owner counts; one of a free mutex makes the thread its owner with its priority on record; any other is refused, or makes the owner at least as urgent and puts the thread on the list; nobody else changes |
| `Mutexes.ReturnInv` | rt-thread/src/ipc.c:751-771 | a thread that had blocked and left the list returns success exactly if it was made the owner; one still on the list breaks the account |
| `Mutexes.SuccessWithoutOwning` | rt-thread/src/ipc.c:711-771 | a take that blocks returns success while another thread owns the mutex exactly if the scheduler is locked or no other thread is ready |
| `Mutexes.ResumedByOutsider` | rt-thread/src/thread.c:704-738 | resuming a thread from outside keeps the mutex's invariant exactly if it was not waiting for it; otherwise the waiter gets success and is not the owner |
| `Mutexes.FullReleaseLaw` | rt-thread/src/ipc.c:825-868 | a full release restores the priority of acquisition, and makes the first waiter ready and owner with its priority on record, or frees the mutex; nobody else changes |
| `Mutexes.InnerReleaseLaw` | rt-thread/src/ipc.c:814-828 | any other release changes the hold count only, or is refused, with an error code, to a thread that is not the owner |
| `Mutexes.FullReleaseExact` | rt-thread/src/ipc.c:825-828 | the hold count reaches zero exactly at every 256th level of nesting |
| `Mutexes.HandOver` | rt-thread/src/ipc.c:838-858 | the new owner is at least as urgent as every waiter exactly if the first waiter was; always with ordered waiters |
| `Mutexes.FifoHandOverFails` | rt-thread/src/ipc.c:838-858 | with the FIFO flag and a more urgent second waiter it is not |
| `Mutexes.OutsideChange` | rt-thread/src/thread.c:570-610 | an outside priority change of the owner keeps the inheritance exactly if no waiter is more urgent than the new priority |
| `Mutexes.KeepsRecord` | rt-thread/src/ipc.c:689-698 | the recorded priority of acquisition changes with the owner only |
| `Mutexes.InheritanceHolds` | rt-thread/src/ipc.c:651-878 | in every reachable state of a priority mutex, without outside priority changes, the owner is at least as urgent as every waiter and the waiters are in order |
| `MutexObject.MutexObject.Take` | rt-thread/src/ipc.c:651-776 | as the function says |
| `MutexObject.MutexObject.Return` | rt-thread/src/ipc.c:751-771 | the error code is what the function says, and the mutex stays in order exactly if the thread has left the list |
| `MutexObject.MutexObject.Release` | rt-thread/src/ipc.c:787-878 | as the function says, followed by rt_schedule exactly if the mutex was handed over |
| `MutexObject.MutexObject.ScheduledInv` | rt-thread/src/scheduler.c:399-499 | as for the semaphore |
| `Events.WalkLaw` | rt-thread/src/ipc.c:1051-1098 | the walk over the waiters, which clears bits as it goes, leaves no waiter that the remaining events satisfy |
| `Events.SendLaw` | rt-thread/src/ipc.c:1026-1108 | the set after a send is the old one joined with the new events, less exactly what the resumed waiters took out; each of them gets all it asked for that is there at its turn, in the order of the list, and becomes ready; nobody satisfied stays, and nobody else changes |
| `Events.RecvInv` | rt-thread/src/ipc.c:1140-1196 | receiving succeeds exactly if the condition holds, gives what was asked for and is there, and takes what was asked for out of the set exactly if told to; else it is refused, or the thread is put on the list with its request |
| `Events.ResetInv` | rt-thread/src/ipc.c:1246-1274 | a reset makes all waiters ready with an error and empties the set |
| `Events.JoinedIs` | rt-thread/src/ipc.c:1047-1047 | joining gives the least set that holds both |
| `Events.CommonIs` | rt-thread/src/ipc.c:1161-1173 | the common events are the largest set that lies in both |
| `Events.ClearedIs` | rt-thread/src/ipc.c:1087-1089 | clearing takes out all of the second set and nothing else |
| `Events.AskKeptRun` | rt-thread/src/ipc.c:1026-1234 | what a waiter asked for stays what it asked for until a send serves it, and what it was given stays until it returns |
| `Events.DeliveredAsAsked` | rt-thread/src/ipc.c:1026-1234 | a thread that waits, is served by some send and returns: whatever happens before and after, it returns what was there, at its turn, of the request it had made |
| `Events.ReturnInv` | rt-thread/src/ipc.c:1214-1233 | a thread that had blocked and left the list returns the events delivered to it; one still on the list returns all it asked for, which are not there |
| `Events.SuccessWithoutEvent` | rt-thread/src/ipc.c:1188-1233 | a receive that blocks returns events that are not there exactly if the scheduler is locked or no other thread is ready |
| `Events.ResumedByOutsider` | rt-thread/src/thread.c:704-738 | resuming a thread from outside keeps the event set's invariant exactly if it was not waiting; otherwise the waiter gets all events it asked for |
| `Events.NobodyWaitsInVain` | rt-thread/src/ipc.c:1026-1234 | in every reachable state no waiter's condition is satisfied by the current events |
| `EventObject.EventObject.Send` | rt-thread/src/ipc.c:1026-1108 | the loop over the suspend list does what the recursive walk does |
| `EventObject.EventObject.Recv` | rt-thread/src/ipc.c:1124-1234 | as the function says |
| `EventObject.EventObject.Return` | rt-thread/src/ipc.c:1214-1233 | error code and events are what the function says, and the event set stays in order exactly if the thread has left the list |
| `EventObject.EventObject.Reset` | rt-thread/src/ipc.c:1246-1274 | as the function says |
| `EventObject.EventObject.ScheduledInv` | rt-thread/src/scheduler.c:399-499 | as for the semaphore |
| `Mailboxes.PutRing` | rt-thread/src/ipc.c:1532-1539 | the offsets of the ring append one mail |
| `Mailboxes.GetRing` | rt-thread/src/ipc.c:1680-1688 | and take the oldest one |
| `Mailboxes.SendInv` | rt-thread/src/ipc.c:1439-1558 | in any context, and completely: with a free place the mail joins the line and the first waiting receiver is made ready; with none and no time the call is refused; with time its thread is put on the list with its mail; only a running thread may wait |
| `Mailboxes.SendAgainInv` | rt-thread/src/ipc.c:1512-1530 | a sender that runs again does the same with the mail it has kept and the time that is left, unless it returns with its error |
| `Mailboxes.RecvInv` | rt-thread/src/ipc.c:1587-1711 | in any context, and completely: the first mail of the line is taken and the first waiting sender made ready, or the call is refused, or its thread is put on the list |
| `Mailboxes.RecvAgainInv` | rt-thread/src/ipc.c:1660-1678 | so does a receiver that runs again, with the time that is left |
| `Mailboxes.ResetInv` | rt-thread/src/ipc.c:1723-1755 | a reset makes all receivers and senders ready with an error, and throws away the mails |
| `Mailboxes.SentBeforeSwitch` | rt-thread/src/ipc.c:1627-1658 | a mail sent by an interrupt after the receiver has put itself on the list, and before it gives up the processor, wakes it |
| `Mailboxes.ResumedInv` | rt-thread/src/thread.c:704-738 | rt_thread_resume of a waiting sender or receiver does no harm: it looks again |
| `Mailboxes.StepInv` | rt-thread/src/ipc.c:1439-1755 | every critical section of every call, from threads and interrupts, and every call of others, keeps the invariant |
| `Mailboxes.RunLaw` | rt-thread/src/ipc.c:1439-1755 | in every reachable state, with interrupts sending and receiving at any moment, nobody waits for a mail or place that no resumed thread is there for |
| `Mailboxes.StepPlays` | rt-thread/src/ipc.c:1439-1755 | each step is one of a first-in, first-out queue: what joins the line is the mail the call was made with, also if the sender had to wait, and what is handed out is the first of the line |
| `Mailboxes.RunPlays` | rt-thread/src/ipc.c:1439-1755 | so is every run: mails are handed out in the order in which they were sent, none lost or doubled |
| `Mailboxes.SendAgainExact` | rt-thread/src/ipc.c:1512-1558 | a sender that goes on after blocking keeps the mailbox in order exactly if it has left the list |
| `Mailboxes.RecvAgainExact` | rt-thread/src/ipc.c:1660-1711 | likewise a receiver |
| `Mailboxes.SendUnderLock` | rt-thread/src/ipc.c:1483-1530 | a send that blocks goes on at once, still listed, exactly if the scheduler is locked or no other thread is ready, and then breaks the mailbox |
| `Mailboxes.RecvUnderLock` | rt-thread/src/ipc.c:1631-1678 | likewise a receive |
| `Mailboxes.DeleteResumed` | rt-thread/src/thread.c:428-459 | deleting a resumed receiver that has not run keeps that promise exactly if nobody waits or the mails left are meant for others |
| `Mailboxes.DeleteResumedSender` | rt-thread/src/thread.c:428-459 | likewise a resumed sender and the free places |
| `MailboxObject.MailboxObject.Send` | rt-thread/src/ipc.c:1439-1558 | as the function says, over the array of mails, in any context if it need not wait |
| `MailboxObject.MailboxObject.SendAgain` | rt-thread/src/ipc.c:1512-1558 | as the function says, over the array of mails, for a thread that was resumed |
| `MailboxObject.MailboxObject.Recv` | rt-thread/src/ipc.c:1587-1711 | as the function says, over the array of mails, in any context if it need not wait |
| `MailboxObject.MailboxObject.RecvAgain` | rt-thread/src/ipc.c:1660-1711 | as the function says, over the array of mails, for a thread that was resumed |
| `MailboxObject.MailboxObject.Reset` | rt-thread/src/ipc.c:1723-1755 | as the function says, with both loops over the waiters |
| `MailboxObject.MailboxObject.ScheduledInv` | rt-thread/src/scheduler.c:399-499 | as for the semaphore |
| `MessageQueues.SendBeginInv` | rt-thread/src/ipc.c:1972-1995 | the first section of a send is refused exactly if the message is too long, or if messages in line and under way fill the pool; else it holds a buffer for its message, and the line stays |
| `MessageQueues.SendCopyInv` | rt-thread/src/ipc.c:1997-2000 | the copy puts the message into the sender's own buffer and disturbs no other |
| `MessageQueues.SendEndInv` | rt-thread/src/ipc.c:2002-2036 | the second one is where the message joins the line, at its end or, urgent, at its head, and the first waiting receiver is made ready |
| `MessageQueues.RecvBeginInv` | rt-thread/src/ipc.c:2158-2248 | in any context, and completely: the receiver takes the first message of the line, for the room it has; or is refused; or is put on the list with its room and its time |
| `MessageQueues.RecvAgainInv` | rt-thread/src/ipc.c:2215-2248 | a receiver that runs again does the same with the room it had and the time that is left, unless it returns with its error |
| `MessageQueues.RecvEndInv` | rt-thread/src/ipc.c:2250-2259 | the receiver gets the bytes of its message, as far as its room and the buffer go, and the buffer is free again |
| `MessageQueues.ResetInv` | rt-thread/src/ipc.c:2277-2323 | a reset makes all receivers ready with an error, and frees the buffers of the line |
| `MessageQueues.ResumedInv` | rt-thread/src/thread.c:704-738 | rt_thread_resume of a waiting receiver does no harm: it looks again |
| `MessageQueues.EveryBuffer` | rt-thread/src/ipc.c:1961-2265 | free, queued and held buffers are the whole pool |
| `MessageQueues.StepInv` | rt-thread/src/ipc.c:1961-2323 | however the sections and copies of all calls interleave, each step keeps the invariant |
| `MessageQueues.StepPlays` | rt-thread/src/ipc.c:1961-2323 | and each step is one of an atomic bounded queue: what is linked is the message its call was made with, and what is taken is the first of the line |
| `MessageQueues.RunLaw` | rt-thread/src/ipc.c:1961-2323 | in every reachable state the pool is parted, entry is the length of the line, and no receiver waits in vain |
| `MessageQueues.RecvAgainExact` | rt-thread/src/ipc.c:2215-2248 | a receiver that goes on after blocking keeps the queue in order exactly if it has left the list |
| `MessageQueues.RecvUnderLock` | rt-thread/src/ipc.c:2172-2233 | a receive that blocks goes on at once, still listed, exactly if the scheduler is locked or no other thread is ready, and then breaks the queue |
| `MessageQueues.RunPlays` | rt-thread/src/ipc.c:1961-2323 | every run is a run of the atomic queue, and the program keeps of each call under way what it was made with |
| `MessageQueues.FifoLaw` | rt-thread/src/ipc.c:1961-2323 | without urgent messages and resets, what was in line and linked is what was taken, in order, and what is in line |
| `MessageQueues.HandsOut` | rt-thread/src/ipc.c:2235-2259 | what a receiver hands out in the end is the message it took from the head of the line, as far as the room goes that it called with, whatever happens in between |
| `MessageQueues.HandsOutAsAsked` | rt-thread/src/ipc.c:2158-2259 | also a receiver that has to wait: whatever happens until it runs again, it then takes the first message for the room given in its call and hands out min(size, msg_size) bytes of it, or waits on for what is left of its time |
| `MessageQueues.DeleteResumed` | rt-thread/src/thread.c:428-459 | deleting a resumed receiver that has not run keeps the promise exactly if nobody waits or the messages left are meant for others |
| `MessageQueueObject.MessageQueueObject.SendBegin` | rt-thread/src/ipc.c:1972-1995 | as the function says, over the linked buffers |
| `MessageQueueObject.MessageQueueObject.SendCopy` | rt-thread/src/ipc.c:1997-2000 | the copy changes the sender's own buffer only |
| `MessageQueueObject.MessageQueueObject.SendEnd` | rt-thread/src/ipc.c:2002-2036 | as the function says, with head and tail links |
| `MessageQueueObject.MessageQueueObject.RecvBegin` | rt-thread/src/ipc.c:2158-2248 | as the function says, in any context if it need not wait |
| `MessageQueueObject.MessageQueueObject.RecvAgain` | rt-thread/src/ipc.c:2215-2248 | as the function says |
| `MessageQueueObject.MessageQueueObject.RecvEnd` | rt-thread/src/ipc.c:2250-2259 | as the function says |
| `MessageQueueObject.MessageQueueObject.Reset` | rt-thread/src/ipc.c:2277-2323 | the loop frees all queued buffers one by one |
| `MessageQueueObject.MessageQueueObject.ScheduledInv` | rt-thread/src/scheduler.c:399-499 | as for the semaphore |
| `TimerModel.SubOrder` | rt-thread/src/timer.c:359-366 | wrapping subtraction orders timeouts that lie less than half the range ahead |
| `TimerModel.StartInv` | rt-thread/src/timer.c:296-412 | starting keeps the list sorted by time left with start order among equals, across the wrap of the clock |
| `TimerModel.StartParts` | rt-thread/src/timer.c:296-412 | the three parts of rt_timer_start, uninterrupted, are the whole call |
| `TimerModel.StartEndExact` | rt-thread/src/timer.c:326-396 | its last part keeps the list in order exactly if the timer is not listed and its timeout is not past |
| `TimerList.SparserKeepsOrder` | rt-thread/src/timer.c:342-391 | every sparser level lists its timers in the order of the densest one |
| `TimerList.TimerList.constructor` | rt-thread/src/timer.c:679-688 | all levels are empty circular lists |
| `TimerList.TimerList.StartBegin` | rt-thread/src/timer.c:308-315 | the first section takes the timer off all levels and clears its flag |
| `TimerList.TimerList.StartTime` | rt-thread/src/timer.c:323-324 | the statement after it sets the timeout |
| `TimerList.TimerList.StartEnd` | rt-thread/src/timer.c:326-396 | the second section: the descent over any number of levels inserts where the sorted list says, on as many levels as the counter's bits say |
| `TimerList.TimerList.Start` | rt-thread/src/timer.c:296-412 | the three parts one after the other |
| `TimerList.TimerList.Stop` | rt-thread/src/timer.c:422-447 | as the function says, with the error return, when nothing comes before the write of the flag |
| `TimerList.TimerList.Check` | rt-thread/src/timer.c:494-553 | the firing loop ends and fires exactly the due timers, whatever their functions do to timers |
| `TimerList.TimerList.Tick` | rt-thread/src/clock.c:97-98 | the timers' half of the clock tick, with its check |
| `TimerRuns.CheckQuiet` | rt-thread/src/timer.c:494-553 | after a check no listed timer is due |
| `TimerRuns.CheckSpared` | rt-thread/src/timer.c:494-553 | in one check a timer nobody else touches fires once if it is due and not at all otherwise |
| `TimerRuns.ActLaw` | rt-thread/src/timer.c:296-485 | what each timer call does, completely: which timer is listed, where, with which time left and which flag, and that all others stay |
| `TimerRuns.ActsInTurn` | rt-thread/src/timer.c:525-525 | the calls a timeout function makes take effect one after the other |
| `TimerRuns.FireLaw` | rt-thread/src/timer.c:507-549 | after a firing the timer is listed exactly if its function left it listed, or left it periodic and active; it is flagged exactly in the second case, and then has its whole period to go; all others are as the function left them |
| `TimerRuns.StoppedByItself` | rt-thread/src/timer.c:532-543 | a timer stopped by its own function, periodic or not, ends neither listed nor flagged |
| `TimerRuns.SelfStopped` | rt-thread/src/timer.c:532-543 | and fires no more in that check, nor in any run that leaves it alone |
| `TimerRuns.FiringOrder` | rt-thread/src/timer.c:507-549 | timers whose functions leave timers alone fire in the order of the list, and exactly those with no tick left |
| `TimerRuns.FiringLaw` | rt-thread/src/timer.c:494-553 | a timer left alone fires in exactly its d-th check and, if periodic, in every p-th after that, across the wrap of the clock |
| `TimerRuns.StartFires` | rt-thread/src/timer.c:296-412 | so a timer started with n ticks, uninterrupted, fires in exactly the n-th check |
| `TimerRuns.SetThenStart` | rt-thread/src/timer.c:467-485 | set to n ticks and to one shot or periodic, then started, a timer fires as set, whatever it was set to before |
| `TimerRuns.StopSilences` | rt-thread/src/timer.c:422-447 | a timer that is stopped does not fire in any run that leaves it alone |
| `TimerRuns.StartGap` | rt-thread/src/timer.c:296-412 | whatever interrupts do before the last part of rt_timer_start, it ends well exactly if the timer is not listed by then and its timeout not past |
| `TimerRuns.StartInterrupted` | rt-thread/src/timer.c:296-412 | ticks in that gap do no harm exactly if they are fewer than the timer was set to; then it fires as if there had been no interruption |
| `TimerRuns.StartedTwice` | rt-thread/src/timer.c:296-412 | if an interrupt starts the same timer in the gap it ends listed twice |
| `TimerRuns.StopGap` | rt-thread/src/timer.c:422-447 | rt_timer_stop takes effect unless the timer is started before the flag is written; then it ends listed, unflagged and cannot be stopped |
| `TimerRuns.DueAgain` | rt-thread/src/timer.c:532-538 | a periodic timer that has fired is due again at once exactly if its period is zero |
| `TimerRuns.ZeroPeriodNeverEnds` | rt-thread/src/timer.c:507-549 | such a timer leaves the loop the state it found |
| `TimerRuns.ZeroTicksLate` | rt-thread/src/timer.c:296-412 | a timer set to zero ticks between checks is overdue in the next one |
| `TimerRuns.ActFlags` | rt-thread/src/timer.c:296-485 | every timer call from outside keeps the flags telling exactly which timers are listed |
| `TimerRuns.FireFlags` | rt-thread/src/timer.c:533-543 | after a firing the flags tell what is listed, exactly unless a one-shot timer was started by its own function |
| `TimerRuns.RestartLosesFlag` | rt-thread/src/timer.c:539-543 | a one-shot timer that restarts itself ends listed, unflagged, and rt_timer_stop leaves it listed |
| `TimerRuns.UnflaggedCannotStop` | rt-thread/src/timer.c:422-447 | rt_timer_stop takes a listed timer off exactly if its flag is set |
| `MemOps.Memset` | rt-thread/src/kservice.c:126-197 | the word loops fill exactly the bytes asked for |
| `MemOps.Memcpy` | rt-thread/src/kservice.c:210-280 | the word loops copy exactly, for blocks that do not overlap or overlap with the destination below the source |
| `MemOps.Memmove` | rt-thread/src/kservice.c:293-312 | copying is exact for every overlap |

## Findings

Properties that the code does not have, each with the condition under which it does:

- `rt_memheap_realloc` with a size whose rounded value plus 12 passes 2^32, on a block with a free right neighbour,
  takes the neighbour for large enough and destroys the row of headers (`MemHeapLaws.ReallocSound`).
- `rt_memheap_alloc` refuses a request for exactly all free bytes (`MemHeapLaws.AllocRefuses`), and the three topmost
  sizes round to the minimum (`MemHeapLayout.RequestCovers`).
- `rt_malloc` of the small heap never finds an exactly fitting block at the end (`SmallHeapLaws.MallocRefuses`) and serves
  the three topmost sizes with the minimum (`SmallHeapExact.MallocAnyExact`), its
  search never ends on a heap of 4 or 8 bytes (`SmallHeapRuns.SearchEnds`), a first address in the topmost three bytes is
  rounded to zero (`SmallHeapRuns.HeapStretchIs`), and `rt_realloc` can leave free blocks below
  `lfree` (`SmallHeapLaws.ShrinkLowest`).
- The slab allocator's promise of power-of-two alignment fails for chunks larger than a page
  (`SlabClasses.PowerAligned`, `SlabClasses.PowerNotAligned`).
- A one-shot timer that starts itself again cannot be stopped (`TimerRuns.RestartLosesFlag`, `TimerRuns.FireFlags`); a
  periodic timer with period zero makes the check loop for ever (`TimerRuns.DueAgain`, `TimerRuns.ZeroPeriodNeverEnds`);
  a zero-tick timer fires one tick late (`TimerRuns.ZeroTicksLate`).
- A semaphore value wraps at 2^16 (`Semaphores.ReleaseInv`), a mutex's hold count at 2^8 (`Mutexes.FullReleaseExact`),
  and the scheduler lock at 2^15: the comment in `rt_enter_critical` speaks of the unsigned 16-bit maximum, but the
  counter is signed (`ThreadLaws.LockDepth`).
- `rt_thread_resume` works in two critical sections; a second resume in between puts the thread on its ready list twice
  (`ThreadLaws.ResumeGap`, `ThreadLaws.ResumeInterrupted`).
- `rt_thread_delete` takes the thread off its list long before it links it to the defunct ones; if its timer fires, or an
  interrupt resumes it, in between, a linked node is linked again (`ThreadLaws.DeleteInterrupted`,
  `ThreadLaws.DeleteHitByTimer`).
- `rt_timer_start` computes the timeout and `rt_timer_stop` clears the flag with interrupts enabled: the timer is listed
  twice, or late, or listed and unstoppable, if it is started or time passes in between (`TimerRuns.StartGap`,
  `TimerRuns.StartInterrupted`, `TimerRuns.StartedTwice`, `TimerRuns.StopGap`).
- A blocking call made with the scheduler locked, or with no other thread ready, does not block: a semaphore, a mutex or
  an event set reports success without a unit, ownership or event, and a mailbox or a queue puts the thread on its list
  twice or leaves it there (`Callers.GoesOn`, `Semaphores.SuccessWithoutUnit`, `Mutexes.SuccessWithoutOwning`,
  `Events.SuccessWithoutEvent`, `Mailboxes.SendUnderLock`, `Mailboxes.RecvUnderLock`, `MessageQueues.RecvUnderLock`).
- `rt_thread_resume` of a thread that waits for a semaphore, a mutex or an event set makes it return success without any
  of them (`ResumedByOutsider` in `Semaphores`, `Mutexes` and `Events`); mailboxes and queues look again and are safe
  (`Mailboxes.ResumedInv`, `MessageQueues.ResumedInv`).
- A thread created with a time slice of zero ticks yields after 2^32 ticks (`TimeSlices.OneSlice`).
- A FIFO mutex hands over without inheritance (`Mutexes.FifoHandOverFails`, `Mutexes.HandOver`), and an outside priority
  change of the owner undoes it (`Mutexes.OutsideChange`).
- Deleting a thread that was resumed for a mail, a place or a message and has not run loses the wakeup
  (`Mailboxes.DeleteResumed`, `Mailboxes.DeleteResumedSender`, `MessageQueues.DeleteResumed`).
- The time left of a repeated wait is wrong after a wait of more than half the clock's range (`Callers.LeftIs`).

## Left out

- Drivers, board support, the application's own tasks, build scripts and configuration files.
- SMP code paths, signals and the retry of `rt_mutex_take` after an interrupted wait, and software timers: not built in
  this configuration.
- Context switches, stacks, hooks, object names and the object registry, memory tracing and debug assertions; `used` and
  the magic numbers of headers are one flag.
- The heap semaphore and the memheap lock: a heap call is one step. For the slab allocator, which drops the lock in the
  middle of calls, the steps are the parts under the lock.
- Headers are maps keyed by address, so that a header overwritten by a payload, or by another header, shows as lost
  payload bytes or as a broken invariant, not as the bytes of a header.
- MemHeap.MemHeap.Realloc: requires that the request does not overgrow; what happens otherwise is `ReallocSound`.
- SmallHeap.SmallHeap.constructor: takes an aligned stretch with room for at least 12 bytes. Which stretch is used is
  `HeapStretchIs`; heaps of 0, 4 or 8 bytes, which the program accepts, are left to `SearchEnds`.
- SlabZoneTable.ZoneTable.Serve: `used_mem` and `max_mem` are counted in `SlabStats`, not in the class.
- SlabZoneTable.ZoneTable.Give: the links of a zone's free chunk list are a sequence of chunk numbers in its header, and
  `rt_realloc` of the slab allocator, a sequence of the calls modelled, is not a member of its own.
- SlabClasses.PowerAligned: the masks with powers of two in `zoneindex` and in the offset of a zone are written as division
  and multiplication.
- TimerRuns.FiringLaw: timers are set to at least one tick; `ZeroTicksLate` and `DueAgain` say what zero does.
- TimerList.TimerList.Tick: the time slice of the running thread is counted by `ClockTick.Clock.Slice`, as a step of
  its own.
- TimerList.TimerList.StartEnd: takes a timeout that is not past; what happens otherwise is `StartEndExact`.
- Scheduler.Scheduler.Resume: one step, as are `Startup` and `Close`; their gaps are `ResumeInterrupted`, `StartupGap` and
  `DeleteInterrupted`. `rt_thread_detach`, which has the shape of `rt_thread_delete`, is not modelled on its own.
- TimeSlices.RunsItsSlice: ticks at which nothing else happens; a thread preempted within its slice keeps what is left.
- Mutexes.InheritanceHolds: without nested mutexes and outside priority changes, as the code promises no more.
- Mailboxes.RunLaw: assumes that no thread resumed by the other side is deleted before it runs, and that a thread which has
  blocked goes on only after it was resumed, as do the runs of the other objects; `DeleteResumed` and the lemmas about
  locked schedulers say what happens otherwise.
- Semaphores.RunLaw: assumes that nobody resumes a waiting thread by `rt_thread_resume`, as do the runs of mutexes and
  event sets; `ResumedByOutsider` says what happens otherwise.
- Initialisation, detaching and deletion of kernel objects beyond what the constructors say, memory pools, the idle
  thread's clean-up of deleted threads, and the table of all threads.
- `rt_mb_send` and `rt_sem_trytake` are their timed forms with no time to wait; sizes of mailboxes and queues are assumed
  to fit their 16-bit fields.
- `rt_vsnprintf`, the string functions, `rt_malloc_align` and `rt_tick_from_millisecond`.
