# HyperHLE, verified models

HyperHLE is a high-level emulator for iPhone OS apps. This project models its deterministic core in
Dafny 4.11 and proves what each part is for: the load order of dylibs, the cooperative thread
scheduler, the dynamic linker that rewrites machine code, line breaking and glyph names, the calling
convention, the initial stack, the guest filesystem tree, ADTS framing, the guest heap, and the
corruption engine.

`dafny verify dfyconfig.toml` checks everything.

## How it is organised

| Files | What they model |
|---|---|
| `LoadOrder.dfy` | `generate_binary_load_order`: Kahn's algorithm for every iteration order of the HashMap |
| `ThreadState.dfy`, `Environment.dfy` | threads, mutexes, semaphores and condition variables as a state, and the methods of `Environment` that update it in place, each tied to its function on states |
| `SchedulerPass.dfy`, `SchedulerChoice.dfy`, `SchedulerSteps.dfy`, `SemaphoreLaws.dfy`, `MutexLaws.dfy`, `WaiterLaws.dfy`, `ConditionLaws.dfy`, `ConditionOutcomes.dfy`, `ConditionQueues.dfy`, `JoinLaws.dfy`, `SchedulingLaws.dfy` | what every scheduling pass, every step and every run keeps |
| `GuestMemory.dfy`, `BitFields.dfy`, `ArmCode.dfy` | guest memory as bytes; or-ing bit fields; the A32 instructions found in stubs |
| `SymbolStubs.dfy`, `LazyLinker.dfy`, `StringPatch.dfy` | the linker as self-modifying code, and the patch of a Thumb branch |
| `LineBreaking.dfy`, `PostTable.dfy` | `break_lines`, and the two walkers of the `post` table |
| `CallingConvention.dfy`, `StackImage.dfy` | arguments over registers and stack; the stack of the main thread |
| `FsTree.dfy`, `FsEnumerate.dfy`, `FsRename.dfy`, `Fs.dfy` | the tree, the two-stack enumeration, renaming, and the class that holds the tree |
| `Adts.dfy` | the ADTS frame writer and parser |
| `ChunkMaps.dfy`, `ChunkShapes.dfy`, `Reservations.dfy`, `Allocator.dfy`, `Heap.dfy` | the allocator's chunk maps, how it cuts and merges them, what reservations lose, the allocator, and `alloc`, `free`, `memmove` and `realloc` |
| `Generator.dfy`, `Corruptor.dfy` | the SplitMix64 generator as bit-vectors, and the corruption engine |

Methods that change state are proved against functions on states or values; the lemmas are about those
functions. Parameters stand for what the code cannot determine itself: clock readings, the iteration
order of a HashMap, the allocator's choice of a trampoline address, the width of a text, whitespace, UTF-8
decoding, the resolution of path strings, the host's answer to a rename, what a host function does.

## What the code does not keep

Where a promise fails, lemmas give the exact condition and, unless that names one, an input that fails it.

* `generate_binary_load_order` names a binary in its error that may only lead to a cycle. Whatever the
  iteration order, the named binary is on a cycle exactly if no binary off the cycles depends on one that is
  on a cycle (`LoadOrder.ReportsAreOnCycles`); `LoadOrder.ReportedBinaryMayBeOffCycle` is a call of the sort
  that names another one.
* A thread can believe it holds a mutex that another one holds: exactly after an unlock of a NORMAL mutex
  by a thread that does not own it (`MutexLaws.StepKeepsExclusion`, `MutexLaws.TwoHoldersOfNormalMutex`).
* A semaphore initialised at an address where threads still wait for a destroyed one starts out of balance,
  and only then (`SemaphoreLaws.FreshSemaphoreIsBalanced`, `SemaphoreLaws.StaleWaiterUnbalances`). The
  value at an address turns negative exactly with a post at 0x7FFFFFFF or when a semaphore is made there with
  an initial value of 2^31 or more, which is stored as a negative number (`SemaphoreLaws.StepKeepsSign`,
  `SemaphoreLaws.SignOverRun`, `SemaphoreLaws.PostWrapsAround`, `SemaphoreLaws.NegativeFromTheStart`).
* Initialising a condition variable again while threads wait on it forgets them, and nothing else does
  (`ConditionLaws.StepKeepsConsistent`); the next visit to a forgotten waiter panics
  (`ConditionLaws.ReinitialisingForgetsWaiter`).
* The passes that `src/environment.rs:2699-2721` lets through before the deadlock panic, so that "conditions
  with timeouts" get another chance, are futile. They come only after a pass that found no timer, and then no
  pass at any time can find anybody (`SchedulerPass.DeadlockMeansStuck`, `SchedulerPass.GraceIsFutile`).
* A mutex can be destroyed under a thread that waits for it, whereupon the scheduler panics. The count that
  guards against it becomes wrong exactly when a waiter of a condition variable times out onto the mutex,
  uncounted, or takes the mutex while it counts other waiters (`WaiterLaws.StepKeepsCount`,
  `WaiterLaws.CountProtectsWaiters`, `WaiterLaws.MainTimesOut`, `WaiterLaws.DestroyedUnderWaiter`).
* A wait on a condition variable says truly whether it timed out as long as the variable is neither destroyed
  nor initialised again before the wait returns (`ConditionOutcomes.WaitReturns`). Both are possible once the
  waiter has timed out: then it panics, or reports success (`ConditionOutcomes.DestroyedBeforeReturn`,
  `ConditionOutcomes.RenewedBeforeReturn`).
* Linking a stub makes it jump to the function exactly if its pointer slot is mapped (or the function is at
  address 0) and, for a 4-byte stub, the distance to the lazy pointers sets no bit of the opcode it is or-ed
  into, as 0x200000 does (`SymbolStubs.LinkJumpsExactly`, `SymbolStubs.RestoredInstruction`,
  `SymbolStubs.WritebackOffset`). The slot of a 4-byte stub is the lazy pointer only if that distance is below
  0x1000 (`SymbolStubs.SlotIsLazyPointer`); at 0x1000 the stub still jumps, but linking overwrites another stub
  (`SymbolStubs.WideOffsetOverwritesStub`). Host function number 0x7FFFFD of a longer stub is mistaken for a
  request to link (`LazyLinker.TooManyFunctionsCollide`).
* `argv` is not NULL-terminated unless the environment is empty, and r2 and r3 of `main` skip the first
  entry of their lists, against the comments in `src/stack.rs:133-149` (`StackImage.ArgvTermination`,
  `StackImage.MainSeesShiftedLists`).
* Moving a directory into itself would panic if the host allowed it (`GuestFs.Fs.Rename`).
* Growing a block in place makes later blocks unaligned exactly if the new size is no multiple of 16 and the
  block does not take the whole chunk behind it (`ChunkMaps.GrowKeepsSixteen`); on a new heap, the third
  of three calls returns an odd address (`ChunkMaps.GrowingByOneMisalignsTheNextBlock`, `GuestHeap.MisalignedBlock`).
* Reservations lose up to 15 bytes on either side, and nothing else ever loses a byte
  (`Reservations.HistoriesAccount`).
* A `realloc` that runs out of memory copies the block to address 0, frees it and returns 0. That overwrites
  other live blocks unless they held the same bytes already (`GuestHeap.FailedMoveAndOtherBlocks`,
  `GuestHeap.FailedReallocOverwritesBlock`), and it breaks "unused memory is zero" unless the block held zeros
  there (`GuestHeap.FailedMoveAndZeroing`, `GuestHeap.FailedReallocDirtiesUnused`).
* A `realloc` of an address that is no block frees the new block again if it lies at that very address:
  never if no best fit for the size starts there, always if only that one does (`GuestHeap.Heap.Realloc`,
  `GuestHeap.ReallocatingFreeMemory`). Without zeroing on free, a block grown in place shows old bytes, a
  block that moves does not (`GuestHeap.Heap.Realloc`).
* A glyph without a name is found under the empty name, although it has none, and under no other
  (`PostTable.LookupsAgreeUnlessNameIsEmpty`, `PostTable.NamelessGlyphIsFound`).
* The corruption engine counts writes into the null segment, which change nothing, as corrupted bytes: all
  counted writes of a burst reach memory exactly if none of its picks is below the size of the null segment
  (`Corruption.CountedWritesReachMemory`). From the seed 0xFFFFFFFFFFFFFFFE, the first byte counted on any
  heap is such a one (`Corruption.BurstIntoNullSegment`).

## Model

| member | source | states |
|---|---|---|
| LoadOrder.GenerateBinaryLoadOrder | src/environment.rs:194-273 | succeeds exactly when the dependency relation has no cycle, with a permutation of the binaries in which every dependency comes first, so that a library of which a binary lists `/usr/lib/` and the name precedes that binary; otherwise the error names the first binary, in the iteration order of the HashMap, that leads to a cycle |
| LoadOrder.IndexNames | src/environment.rs:195-199 | each name stands for its last occurrence |
| LoadOrder.NamedByIndex | src/environment.rs:195-199 | the index of a name is that of the last binary so called, and there is one exactly if some binary is |
| LoadOrder.StripsToName | src/environment.rs:212 | a path stands for a name exactly if it is `/usr/lib/` and the name, or the name itself, which then does not start so |
| LoadOrder.DependenciesAreListed | src/environment.rs:207-219 | a binary depends on another exactly if one of its name lists a path that stands for the name of the other, both being the last so called |
| LoadOrder.LibraryComesFirst | src/environment.rs:207-273 | with distinct names: in every load order a library precedes whatever lists `/usr/lib/` and its name |
| LoadOrder.CountDependenciesOf | src/environment.rs:207-227 | records exactly the edges of one dependency list, repetitions and self-dependencies included |
| LoadOrder.CountDependency | src/environment.rs:213-226 | one dependency adds one edge, or none if it is not packaged |
| LoadOrder.CountDependencies | src/environment.rs:200-228 | dependents and in-degrees are those of the whole edge list |
| LoadOrder.CollectLeaves | src/environment.rs:230-234 | the queue starts with exactly the binaries without dependencies, each once, for every iteration order |
| LoadOrder.ReleaseDependents | src/environment.rs:245-254 | releasing a node keeps the in-degrees exact and queues exactly those that reach 0 |
| LoadOrder.FindUnsorted | src/environment.rs:257-262 | finds the first binary in iteration order that leads to a cycle, and none only if all are sorted |
| LoadOrder.UnsortedLeadsToCycle | src/environment.rs:236-262 | when the queue is empty, a binary is left unsorted exactly if its dependencies lead to a cycle |
| LoadOrder.EdgesAreDependencies | src/environment.rs:207-227 | the recorded edges are the dependency relation: prefix stripped, unknown names ignored |
| LoadOrder.FinishingNode | src/environment.rs:245-254 | in-degree counting is a conservation law: finishing a node takes off one per recorded dependent |
| LoadOrder.LoadOrderMeansAcyclic | src/environment.rs:194-273 | a load order rules out every cycle |
| LoadOrder.ListedLeadsNowhere | src/environment.rs:236-254 | no sorted binary leads to a cycle |
| LoadOrder.StuckMeansCycle | src/environment.rs:257-262 | nodes left with positive in-degree lead into a genuine cycle |
| LoadOrder.DistinctNamesCoverAll | src/environment.rs:195-199 | with distinct names a load order lists all indices |
| LoadOrder.ReportsAreOnCycles | src/environment.rs:257-262 | every binary that can be named is on a cycle exactly if no binary off the cycles depends on one that is on a cycle |
| LoadOrder.ReportedBinaryMayBeOffCycle | src/environment.rs:257-262 | a call of the sort whose error names a binary that lies on no cycle |
| ThreadState.VisitKeepsShape | src/environment.rs:2524-2689 | looking at a candidate leaves the current thread, the CPU and the number of threads alone |
| SchedulerChoice.VisitDecides | src/environment.rs:2531-2688 | for every kind of block, exactly when a candidate is chosen and exactly when looking at it panics |
| SchedulerChoice.SleeperRunsWhenDue | src/environment.rs:2532-2543 | an active sleeping thread is chosen exactly if its time is not after the clock reading, and otherwise asks to be woken then |
| SchedulerChoice.PassChoosesFirst | src/environment.rs:2523-2689 | a pass runs the first candidate in cyclic order that can run when it is looked at, and none exactly if none can |
| SchedulerChoice.ScheduleChooses | src/environment.rs:2516-2722 | over all passes: the thread that is scheduled can run at the reading of the pass that chose it, in the state which the passes before left |
| SchedulerChoice.SleeperIsLeftAlone | src/environment.rs:2516-2722 | a thread whose sleep ends after every clock reading is not scheduled and sleeps on |
| ThreadEnvironment.Environment.YieldThread | src/environment.rs:2455-2509 | only the current thread changes, in its block; the executor takes over, and saved contexts stay saved |
| ThreadEnvironment.Environment.SemDecrement | src/environment.rs:1384-1436 | `TRUE` exactly if there was a unit: one less, waiters and other semaphores as before; blocked exactly if there was none and the caller may wait: the waiting set gains it, and nobody else changes; otherwise nothing changes; the books stay balanced |
| ThreadEnvironment.Environment.SemIncrement | src/environment.rs:1438-1456 | one unit more, except at the largest value, where it wraps to the smallest; no thread and no other semaphore changes; the books count one post |
| ThreadEnvironment.Environment.SuspendThread | src/environment.rs:1311-1331 | one suspension more for the named thread, with its own reason to block kept underneath; no other thread changes; the caller stops exactly if it suspends itself for the first time |
| ThreadEnvironment.Environment.ResumeThread | src/environment.rs:1333-1362 | one suspension less; cannot panic on an existing thread with a positive count; changes no other thread |
| ThreadEnvironment.Environment.LockMutex | src/environment/mutex.rs:158-206 | a positive outcome means the caller owns the mutex that many times; it blocks exactly if another thread owns it; only that mutex changes, and exclusion holds with the caller as a holder exactly if the mutex was free |
| ThreadEnvironment.Environment.UnlockMutex | src/environment/mutex.rs:210-275 | 0 means the mutex was locked and is free, a positive value that the caller still owns it that often, an error that nothing changed and the caller did not own it; exclusion is kept exactly unless this unlocks another thread's NORMAL mutex |
| ThreadEnvironment.Environment.UnblockHoldingMutex | src/environment/mutex.rs:126-154 | succeeds exactly if the mutex exists; then the thread is ready and owns it once, and no other thread or mutex changes |
| ThreadEnvironment.Environment.LookAtCondition | src/environment.rs:2586-2662 | a waiter that becomes ready owns the condition's mutex, which was free; one passed over leaves all mutexes alone and at most waits for that locked mutex; all queues stay consistent |
| ThreadEnvironment.Environment.LookAtJoinee | src/environment.rs:2663-2679 | a joiner is ready exactly once the joined thread has ended, with that thread's value stored if it asked for it |
| ThreadEnvironment.Environment.LookAt | src/environment.rs:2531-2688 | a chosen thread is ready and took exactly what it waited for; a passed-over one took nothing; which threads are chosen, and which make it panic, by what they wait for: a sleeping one exactly once its time has come |
| ThreadEnvironment.Environment.ScanThreads | src/environment.rs:2523-2689 | one pass: it chooses the first thread in cyclic order that can run at its clock reading, and none exactly if none can; the chosen thread owns what it waited for; a pass without a choice asks to be woken at exactly the earliest time that ends a sleep or a wait |
| ThreadEnvironment.Environment.ScheduleNextThread | src/environment.rs:2516-2722 | passes until one finds a thread, the first that can run at the clock reading of that pass, with the grace it was given; gives up only when no visit at any time could choose any thread |
| ThreadEnvironment.Environment.SwitchThread | src/environment.rs:1761-1779 | as long as contexts are saved it succeeds for every other active thread, keeps them saved, and every thread still sees its own registers; nothing but contexts moves |
| ThreadEnvironment.Environment.constructor | src/environment.rs:776-803 | the state every run starts from is sound, with contexts saved, consistent queues and no holder of any mutex |
| ThreadEnvironment.PostThenWait | src/environment.rs:1384-1456 | waiting right after a post restores the semaphore exactly if the post did not wrap around |
| ThreadEnvironment.LockThenUnlock | src/environment/mutex.rs:158-275 | unlocking right after a successful lock restores the environment |
| ThreadEnvironment.SuspendThenResume | src/environment.rs:1311-1362 | resuming a thread right after suspending it restores the state; a thread that suspended itself has only given up the CPU |
| SchedulerPass.ScanTrace | src/environment.rs:2523-2689 | a pass visits candidates in cyclic order; those passed over keep their block or time out onto their mutex |
| SchedulerPass.ScheduledThreadOwnsItsMutex | src/environment.rs:2544-2551 | a thread scheduled from a mutex or condition block owns that mutex, which was free before; other mutexes are unchanged |
| SchedulerPass.ChosenFrame | src/environment.rs:2531-2688 | choosing a thread changes only its block, the object it waited for and the join result |
| SchedulerPass.AwakensAtEarliest | src/environment.rs:2531-2698 | a pass without a choice wakes at the earliest time that ends a thread's sleep or wait, and at none exactly if there is none |
| SchedulerPass.StuckIsPassedOver | src/environment.rs:2531-2688 | a thread is passed over at every time, with nothing changed and no time to wake at, exactly if it has ended, is suspended, or waits without a deadline for a locked mutex, an empty semaphore, a signal or a live thread |
| SchedulerPass.StuckForEver | src/environment.rs:2523-2698 | when all threads are so, every pass at any time finds nobody and changes nothing |
| SchedulerPass.DeadlockMeansStuck | src/environment.rs:2699-2721 | the deadlock panic comes only when all threads are so |
| SchedulerPass.GraceIsFutile | src/environment.rs:2699-2721 | after the first pass that finds neither a thread nor a timer, the outcome is settled: the panic comes exactly when the grace is used up |
| SchedulerPass.ChoiceKeepsGrace | src/environment.rs:2708-2720 | a call that chooses a thread has used up no grace |
| SchedulerSteps.ActBlocks | src/environment.rs:1296-1480 | every action changes the blocks of the current thread and of the thread it names, and no others |
| SchedulerSteps.ScheduleStep | src/environment.rs:2516-2689 | a scheduling step runs a chosen thread or leaves everybody blocked |
| SchedulerSteps.StepKeepsSound | src/environment.rs:1311-1362 | in every step: the running thread is not blocked, and suspensions never nest and have positive counts |
| SchedulerSteps.InitialStateIsSound | src/environment.rs:776-803 | so it is in the state the environment starts in |
| SemaphoreLaws.SemaphoreConservation | src/environment.rs:1384-1456 | over every run without destruction: value = initial + posts - acquisitions (as 32-bit), and the waiting set is exactly the threads blocked on it, suspended ones included |
| SemaphoreLaws.StepKeepsBalance | src/environment.rs:2552-2585 | each step keeps the books: a woken waiter costs one unit |
| SemaphoreLaws.ValueIsDifference | src/environment.rs:1384-1456 | within 32 bits the value is the plain difference, and not negative, exactly while that difference is below 2^31 |
| SemaphoreLaws.NeverOverdrawn | src/environment.rs:1384-1456 | in each step acquisitions stay within initial value plus posts |
| SemaphoreLaws.StepKeepsValue | src/environment.rs:1384-1456 | from any 32-bit value, a step keeps the value the plain difference exactly when it is no post at 0x7FFFFFFF, and then does not take it below 0 or further down |
| SemaphoreLaws.ValueOverRun | src/environment.rs:1384-1456 | over every run without such a post, for every initial value as stored in 32 bits: value = initial + posts - acquisitions, negative only if the initial value is |
| SemaphoreLaws.StepKeepsSign | src/libc/semaphore.rs:47-66 | a step makes the value at an address negative exactly if it is a post at 0x7FFFFFFF or makes the semaphore with 2^31 or more |
| SemaphoreLaws.SignOverRun | src/environment.rs:1384-1456 | over every run, destruction and new semaphores included: never negative exactly without those steps |
| SemaphoreLaws.FreshSemaphoreValue | src/libc/semaphore.rs:47-66 | the `u32` argument as stored: negative exactly from 2^31 on |
| SemaphoreLaws.ValueNeverNegative | src/environment.rs:1384-1456 | over every run whose initial value and posts stay below 2^31 together: the same |
| SemaphoreLaws.PostWrapsAround | src/environment.rs:1438-1456 | two calls after start-up that leave a negative value |
| SemaphoreLaws.NegativeFromTheStart | src/libc/semaphore.rs:47-66 | one call after start-up that makes a negative value |
| SemaphoreLaws.FreshSemaphoreIsBalanced | src/libc/semaphore.rs:47-66 | a new semaphore starts balanced exactly when no thread is still blocked on an earlier one at its address |
| SemaphoreLaws.MainWaitsIsReachable | src/environment.rs:1384-1436 | a run from start-up to a state in which the main thread waits on a semaphore |
| SemaphoreLaws.StaleWaiterUnbalances | src/libc/semaphore.rs:47-79 | from there, destroying the semaphore and making it anew loses its waiter |
| MutexLaws.StepKeepsExclusion | src/environment/mutex.rs:126-275 | a step keeps "every holder is the owner" exactly when it is no unlock by a thread that does not own the mutex |
| MutexLaws.MutualExclusion | src/environment/mutex.rs:126-275 | in every run without such unlocks, whoever was granted a mutex and has not given it up owns it |
| MutexLaws.NoTwoHolders | src/environment/mutex.rs:126-275 | so no two threads hold one mutex |
| MutexLaws.InitiallyExclusive | src/environment.rs:776-803 | nobody holds anything at start-up |
| MutexLaws.MainHoldsIsReachable | src/environment/mutex.rs:158-206 | a run from start-up to a state in which the main thread holds a NORMAL mutex while another runs |
| MutexLaws.TwoHoldersOfNormalMutex | src/environment/mutex.rs:234-251 | from there, two calls after which two threads hold that mutex |
| WaiterLaws.StepKeepsCount | src/environment/mutex.rs:126-206 | a step keeps the count of a mutex's waiters exact exactly if no waiter of a condition variable times out onto the mutex or takes it while it counts others |
| WaiterLaws.CountOverRun | src/environment/mutex.rs:126-206 | over every run without such steps, a mutex counts exactly the threads blocked on it, suspended ones included |
| WaiterLaws.InitiallyCounted | src/environment.rs:776-803 | so it is at start-up |
| WaiterLaws.CountProtectsWaiters | src/environment/mutex.rs:85-98 | while the count is exact, a mutex is destroyed only without waiters, and looking at a waiter never panics |
| WaiterLaws.MainTimesOut | src/environment.rs:2606-2645 | from a reachable state, a waiter times out onto a locked mutex uncounted |
| WaiterLaws.DestroyedUnderWaiter | src/environment/mutex.rs:85-98 | from there the mutex is destroyed although that thread waits for it, and the next scheduling step panics |
| ConditionLaws.StepKeepsConsistent | src/libc/pthread/cond.rs:62-295 | a step keeps queues and waits consistent exactly when it does not re-initialise a variable with waiters |
| ConditionLaws.InitiallyConsistent | src/environment.rs:776-803 | queues and waits are consistent at start-up |
| ConditionLaws.MainWaitsIsReachable | src/libc/pthread/cond.rs:62-295 | a run from start-up to a state in which the main thread waits on a condition variable while another runs |
| ConditionLaws.ReinitialisingForgetsWaiter | src/libc/pthread/cond.rs:62-295 | from there, initialising the variable again forgets the waiter, and the next scheduling step panics |
| ConditionLaws.QueuesStayConsistent | src/environment.rs:2586-2662 | over every run: the queues hold exactly the threads waiting on the variable, each once |
| ConditionLaws.TimeoutOutcome | src/environment.rs:2606-2645 | a timed-out waiter leaves both queues, and blocks on the mutex if that is held, or else owns it |
| ConditionLaws.TimedOutThreadIsInNeitherQueue | src/environment.rs:2614-2625 | as long as it has not returned from the wait |
| ConditionLaws.VisitConditionPanicsOnlyWithoutMutex | src/environment.rs:2586-2662 | with consistent queues the arm panics only if the mutex no longer exists |
| ConditionOutcomes.PassRecords | src/environment.rs:2586-2625 | a pass records as timed out exactly the waiters it comes to whose deadline has come and which cannot have their mutex after a signal |
| ConditionOutcomes.WaitReturns | src/libc/pthread/cond.rs:172-184 | over every run in which the variable is not renewed: the wait returns `ETIMEDOUT` exactly if a pass timed it out, and 0 otherwise |
| ConditionOutcomes.PlainWaitNeverTimesOut | src/libc/pthread/cond.rs:227-235 | over every such run a wait without a deadline never times out, as its assertion demands |
| ConditionOutcomes.DestroyedBeforeReturn | src/libc/pthread/cond.rs:282-292 | the variable is destroyed before a timed-out wait returns, which then panics |
| ConditionOutcomes.RenewedBeforeReturn | src/libc/pthread/cond.rs:62-100 | the variable is initialised again before a timed-out wait returns, which then reports success |
| ConditionQueues.SignalInOrder | src/libc/pthread/cond.rs:238-280 | a signal hands on the thread that has waited longest without one, a broadcast all, in order |
| ConditionQueues.DestroyNeedsNoWaiters | src/libc/pthread/cond.rs:282-293 | destroying succeeds exactly if nobody waits |
| ConditionQueues.FinishEndsWait | src/libc/pthread/cond.rs:172-184 | how a wait ends, and with which value |
| ConditionQueues.HowWaitBegins | src/libc/pthread/cond.rs:136-170 | exactly when a wait fails without any change, panics, or blocks |
| ConditionQueues.WaitQueuesLast | src/libc/pthread/cond.rs:136-170 | a wait gives the mutex up by one lock and queues up behind all other waiters |
| ConditionQueues.StepKeepsOrder | src/environment.rs:2586-2662 | whatever happens: as long as a thread waits, one behind it stays behind it unless it times out |
| ConditionQueues.NoOvertaking | src/environment.rs:2586-2662 | over every run: while a thread waits, one that began to wait on the same variable later is not woken, it can only time out |
| JoinLaws.JoinYieldsExitValue | src/environment.rs:2663-2679 | over every run: whoever joins a thread finds the value with which that thread had exited, however long ago |
| JoinLaws.JoinWaits | src/environment.rs:2663-2679 | a joining thread does not run before the other one has ended |
| JoinLaws.ScheduleKeepsEnded | src/environment.rs:2516-2689 | scheduling leaves ended threads and their values alone |
| SchedulingLaws.BoundedWaiting | src/environment.rs:2516-2531 | among a fixed set of threads, one that stays ready runs within its cyclic distance plus one decisions |
| SchedulingLaws.DistanceBound | src/environment.rs:2525 | that distance is below the number of threads |
| SchedulingLaws.DecisionsAreSchedules | src/environment.rs:2516-2531 | each scheduling step counts as one decision |
| SchedulingLaws.StepApproaches | src/environment.rs:2516-2531 | each decision brings the scan closer to the ready thread or runs it |
| SchedulingLaws.SuspendedUntilResumed | src/environment.rs:1311-1362 | a suspended thread does not run until resumptions have caught up |
| SchedulingLaws.SuspendResumeRoundTrip | src/environment.rs:1311-1362 | balanced suspensions and resumptions restore the original block |
| SchedulingLaws.SwitchKeepsViews | src/environment.rs:1761-1779 | a switch succeeds and every thread still sees its own registers; exactly the current one lacks a saved context |
| SchedulingLaws.InitialContextsSaved | src/environment.rs:776-803 | so it is at start-up |
| SchedulingLaws.StepKeepsViews | src/environment.rs:1761-1779 | each step changes at most the running thread's registers |
| SchedulingLaws.ScheduleSucceeds | src/environment.rs:2516-2689 | with saved contexts no scheduling step fails in the switch |
| SchedulingLaws.RegistersSurviveRuns | src/environment.rs:1761-1779 | over every run a thread's registers survive until it runs again |
| GuestMemory.StoredBytes | src/mem.rs:784-797 | which bytes a store changes, and to what |
| GuestMemory.ByteAfterWrite | src/mem.rs:784-797 | every byte after a word write; the null segment swallows writes |
| GuestMemory.WordWritten | src/mem.rs:772-797 | a word outside the null segment reads back as written |
| GuestMemory.UnwrittenIsZero | src/mem.rs:772-797 | memory that was never written is zero, and so is the null segment, whatever is written to it |
| GuestMemory.StoredWords | src/mem.rs:784-797 | consecutive words are held and nothing else changes |
| GuestMemory.LittleEndianRoundTrip | src/mem.rs:772-797 | little-endian encoding and decoding undo each other |
| ArmCode.EncodeSvcIsOr | src/dyld.rs:200-203 | the sum used for SVC encoding is the bitwise OR of the source |
| ArmCode.SvcRoundTrip | src/dyld.rs:200-203 | a word decodes to an SVC exactly if it is that SVC's encoding |
| SymbolStubs.SetUpLazyLinking | src/dyld.rs:711-783 | the loop rewrites exactly the stubs that match the expected code |
| SymbolStubs.MatchesPattern | src/dyld.rs:747-760 | compares a stub with its expected instructions |
| SymbolStubs.LinkByRestoringStub | src/dyld.rs:1492-1547 | restores the stub and re-points its symbol pointer |
| SymbolStubs.SetUpEntry | src/dyld.rs:738-781 | each stub ends up as if it alone had been rewritten |
| SymbolStubs.StubsWithCodeAreReplaced | src/dyld.rs:738-781 | word by word: a stub that has the pattern becomes the trap with its last word kept, and every other stub stays as it is |
| SymbolStubs.SetUpFrame | src/dyld.rs:738-781 | nothing outside the section changes |
| SymbolStubs.TrapStubTraps | src/dyld.rs:762-779 | a rewritten stub traps with its SVC and returns to LR |
| SymbolStubs.LinkedStubJumps | src/dyld.rs:1492-1547 | under A32 semantics a linked stub branches to its target |
| SymbolStubs.LinkedStubCallsTarget | src/dyld.rs:711-783 | after set-up and linking, executing the stub reaches exactly the linked function, for stubs of 4, 12 and 16 bytes whose opcode and slot allow it |
| SymbolStubs.LinkingRestores | src/dyld.rs:1492-1547 | the restored words are the original ones |
| SymbolStubs.LinkingFrame | src/dyld.rs:1492-1547 | linking touches only the stub and its slot |
| SymbolStubs.OtherStubsKeepMeaning | src/dyld.rs:1492-1547 | every other stub still traps, or still jumps to its own target |
| SymbolStubs.SlotValue | src/dyld.rs:1528-1544 | the slot the source computes, for every offset: of a 4-byte stub's offset only the low 12 bits count |
| SymbolStubs.LinkJumpsExactly | src/dyld.rs:1505-1547 | linking works exactly if the restored word is still the load and the slot is mapped (or the function is at address 0) |
| SymbolStubs.RestoredInstruction | src/dyld.rs:1512-1515 | for every offset: the restored word is the load exactly if the offset sets no bit of the opcode |
| SymbolStubs.WritebackOffset | src/dyld.rs:1512-1515 | with an offset of 0x200000 the restored word is no load of a literal |
| SymbolStubs.SlotIsLazyPointer | src/dyld.rs:1530-1544 | the slot of a 4-byte stub is the lazy pointer exactly if the offset is below 0x1000 |
| SymbolStubs.WideOffsetOverwritesStub | src/dyld.rs:1530-1545 | with an offset of 0x1000 linking a stub overwrites the one two further on |
| LazyLinker.Dyld.NewGuestFunction | src/dyld.rs:1755-1778 | code at a new address that calls exactly the given function and returns to its caller; nothing else changes |
| LazyLinker.Dyld.NewCachedGuestFunction | src/dyld.rs:1720-1792 | the one address of a symbol: the remembered one, with nothing changed, or that of new code which calls the function and is remembered from now on |
| LazyLinker.Dyld.CreateProcAddressNoInval | src/dyld.rs:1720-1753 | no address, and nothing changed, exactly if the host has no such function; otherwise the remembered one, whose code calls the function that the name stands for |
| LazyLinker.Dyld.DoLazyLink | src/dyld.rs:1550-1696 | the stub provides the service of the name that stands at its place in its section's symbols from now on: it jumps to the name's trampoline, else to the first binary that exports it, else calls the host's function, which is returned for a first call exactly then; `__cxa_throw` is always intercepted |
| LazyLinker.Dyld.Link | src/dyld.rs:1573-1695 | the linking once the stub is found |
| LazyLinker.StubIsLocated | src/dyld.rs:1550-1570 | the stub at the start of a section plus a multiple of the entry size has the symbol of that number, unless an earlier binary's section contains the address; the offset is the distance to the same binary's lazy pointers |
| LazyLinker.FirstExporterWins | src/dyld.rs:1615-1632 | of several binaries that export a name the first counts |
| LazyLinker.OwnedStubServesItsName | src/dyld.rs:1550-1696 | after linking, and stated for section, number and name: a trampoline of that name, else the first exporter, else the host |
| LazyLinker.ThrowIsIntercepted | src/dyld.rs:1592-1613 | linking a stub of `__cxa_throw` leaves a trampoline for it, whoever exports it |
| LazyLinker.WhatNamesStandFor | src/dyld.rs:1720-1753 | what each requested name stands for, and the name it is remembered under |
| LazyLinker.ProcAddressIsStable | src/dyld.rs:1720-1753 | asking again gives the same address and changes nothing |
| LazyLinker.LinkProvides | src/dyld.rs:1550-1696 | right after linking, executing the stub does what its symbol stands for |
| LazyLinker.StubServesItsSymbol | src/dyld.rs:1550-1696 | and so it does after every further history; a host call is recorded under that symbol |
| LazyLinker.StepKeepsInvariant | src/dyld.rs:1550-1792 | every link or lookup keeps each written call site and redirected stub, and only adds functions and trampolines |
| LazyLinker.RunKeepsInvariant | src/dyld.rs:1550-1792 | over every history |
| LazyLinker.LastStepOfRun | src/dyld.rs:1550-1792 | a history is its steps, one after the other |
| LazyLinker.LinkedFunctionKeepsBeingCalled | src/dyld.rs:1444-1481 | a linked site keeps dispatching to its function and returning to LR; the return flag is set exactly for 4-byte stubs |
| LazyLinker.RedirectedStubKeepsTarget | src/dyld.rs:1550-1637 | a redirected stub keeps its target |
| LazyLinker.TrampolineKeepsAddress | src/dyld.rs:1720-1792 | a symbol's cached address never changes and calls the function the symbol stands for |
| LazyLinker.LinkedSitesDoNotTrapAgain | src/dyld.rs:1639-1696 | a linked site is not linked a second time |
| LazyLinker.TooManyFunctionsCollide | src/dyld.rs:1639-1670 | dispatch finds function i exactly when i is below 0x7FFFFD; the next number means "link lazily" |
| LazyLinker.WhereCallsReturn | src/environment.rs:2198-2218 | SVC numbers from 0x800000 on return to the caller at once, smaller ones to the next instruction |
| StringPatch.FindEmptyBlock | src/dyld.rs:316-343 | finds the first `bne` after the first `cmp r0, r1`, within 128 halfwords, exactly if there is one |
| StringPatch.FindSite | src/dyld.rs:347-356 | finds the first `cmp r0, #0`, `bne`, `b` exactly if there is one |
| StringPatch.PatchStringSConstructNull | src/dyld.rs:298-376 | the memory after the patch, in every case |
| StringPatch.BranchReaches | src/dyld.rs:357-361 | the 11-bit encoding reaches a target exactly for even distances from -2048 to 2046 |
| StringPatch.PatternInNumbers | src/dyld.rs:330-356 | the instructions that are looked for, as numbers, and where |
| StringPatch.HalfwordsFollow | src/dyld.rs:311-318 | halfwords two bytes apart, low byte first; the null segment reads as zero and swallows writes |
| StringPatch.PatchRedirectsOneBranch | src/dyld.rs:298-376 | nothing or exactly one halfword changes: a branch at the site, whose decoded target is the empty-string block |
| StringPatch.PatchIsIdempotent | src/dyld.rs:298-376 | patching once more changes nothing |
| LineBreaking.BreakLines | src/font.rs:349-468 | terminates, and breaks every line of the text, however lines are told apart, into good pieces, through the recursion into character mode; the visible characters of the text come out once and in order |
| LineBreaking.BreakLine | src/font.rs:362-465 | the pieces of a line are consecutive spans that tile it, between wrap points unless a word is too wide, each as long as it can be |
| LineBreaking.BreakWord | src/font.rs:428-442 | the pieces of a word that is too wide, as long as they can be |
| LineBreaking.LinesMakeText | src/font.rs:357 | the lines, each with its `\n` or `\r\n`, which the last one may lack, make up the text again |
| LineBreaking.LinesAreUnique | src/font.rs:357 | and no other lines do |
| LineBreaking.NoSpaceAtBreaks | src/font.rs:448-456 | in word mode no piece that ends at a break ends in whitespace |
| LineBreaking.FindWrapPoints | src/font.rs:365-395 | exactly the wrap points of the mode, in order, ending with the line |
| LineBreaking.BinarySearch | src/font.rs:411-420 | the search among sorted widths |
| LineBreaking.SearchWrapPoint | src/font.rs:411-445 | with a monotone width, settles on the last wrap point that fits, or reports that none does |
| LineBreaking.TrimDropsSpaces | src/font.rs:400-408 | only whitespace is trimmed |
| LineBreaking.WidthsSorted | src/font.rs:400-420 | trimmed prefixes have ascending widths, so the search is sound |
| LineBreaking.TextIsConserved | src/font.rs:349-468 | every visible character comes out once and in order; in character mode the text itself |
| LineBreaking.WholeTextIsConserved | src/font.rs:349-468 | over the whole text, line ends included: the pieces hold its visible characters, each once and in order |
| LineBreaking.UnwrappedLines | src/font.rs:357-361 | without wrapping the pieces are the lines, measured |
| LineBreaking.EveryPieceFits | src/font.rs:349-468 | with a prefix-monotone width each piece fits or is one character: as it is in character mode, without trailing whitespace in word mode |
| LineBreaking.WordsStayWhole | src/font.rs:365-445 | if every word fits, no piece starts or ends within a word |
| LineBreaking.LinesAreFilled | src/font.rs:411-445 | then no later word would have fitted on the line, too |
| PostTable.ParseExtraNames | src/font.rs:1249-1261 | the extra names, undecodable ones empty |
| PostTable.GlyphIdFromPostTable | src/font.rs:1220-1287 | for every name: the first glyph whose name it is, no name counting as the empty one, and none exactly if there is no such glyph |
| PostTable.GlyphNameFromPostTable | src/font.rs:1289-1352 | the name of the glyph, in formats 1.0 and 2.0, for every byte string |
| PostTable.StoredNamesAreRead | src/font.rs:1249-1261 | walking the string table recovers the stored names |
| PostTable.Version2NamesAreRead | src/font.rs:1236-1275 | of any version 2 table, from its indices and names: the name of each glyph, standard or own, and none beyond |
| PostTable.Version1NamesAreRead | src/font.rs:1223-1234 | a version 1 table gives the standard names |
| PostTable.OtherTablesNameNothing | src/font.rs:1223-1247 | tables of other versions, and those that end before their last index, name nothing |
| PostTable.LookupsAgreeUnlessNameIsEmpty | src/font.rs:1263-1281 | the lookup by name finds the first glyph that has the name exactly if the glyph it finds has a name at all, so for every name but the empty one |
| PostTable.NamelessGlyphIsFound | src/font.rs:1263-1281 | a table whose nameless glyph the lookup of the empty name returns |
| CallingConvention.WriteNextArg | src/abi.rs:416-440 | writes an argument's words, split over registers and stack |
| CallingConvention.ReadNextArg | src/abi.rs:370-393 | reads them |
| CallingConvention.ExtendStackForArgs | src/abi.rs:399-409 | moves the stack pointer by the words beyond the fourth |
| CallingConvention.CallFromGuest | src/abi.rs:126-145 | reads the arguments, calls, and passes the result back; everything else is as the function left it, whatever it did to registers and memory |
| CallingConvention.CallFromHost | src/abi.rs:239-270 | the function is called with exactly the arguments, its result comes back and SP is restored, whatever it did; other registers from r4 on, and memory outside the return buffer, are as it left them |
| CallingConvention.WrittenWordsAreRead | src/abi.rs:370-440 | words written are read back unchanged across the split |
| CallingConvention.WriteFrame | src/abi.rs:416-440 | writing touches argument registers and their stack slots only |
| CallingConvention.ArgsAreRead | src/abi.rs:370-393 | argument by argument |
| CallingConvention.VariadicArgsAreRead | src/abi.rs:457-468 | a `VaList` reads on past the fixed arguments |
| CallingConvention.ArgumentsArrive | src/abi.rs:246-258 | all arguments arrive; with a hidden return pointer the one uncounted word lands in the first word of the return buffer, whose other words are untouched |
| CallingConvention.ArgumentPlaces | src/abi.rs:399-440 | register or stack address of every argument word, with and without a hidden pointer, and where the stack pointer is |
| CallingConvention.FlattenedWord | src/abi.rs:239-262 | the words of each argument follow those of the arguments before |
| CallingConvention.LongRoundTrip | src/abi.rs:565-578 | 64-bit values survive their two words, the low one first |
| StackImage.PushString | src/stack.rs:59-73 | a string in front of what was pushed before, and its address |
| StackImage.PushStrings | src/stack.rs:76-87 | the string area and the pointers into it |
| StackImage.PushWords | src/stack.rs:99-101 | words read forwards although pushed backwards |
| StackImage.SerialiseStack | src/stack.rs:74-101 | the whole image, reversed |
| StackImage.CopyReversed | src/stack.rs:111-113 | the image in memory, forwards |
| StackImage.WriteStack | src/stack.rs:74-113 | the stack in memory, and where it starts |
| StackImage.SetArguments | src/stack.rs:137-149 | the registers that hand `main` its arguments |
| StackImage.PrepStackForStart | src/stack.rs:39-149 | the stack as the program reads it, word by word and string by string, as low as it has to be and no lower; SP and the argument registers; nothing else changes |
| StackImage.StackIsFaithful | src/stack.rs:39-132 | SP is aligned, the words are argc and the pointers, every pointer yields its string (as a C string exactly if it has no NUL), nothing outside [SP, 2^32) is written |
| StackImage.StackIsLaidOut | src/stack.rs:39-132 | for all strings: argc, pointers to each argument in order, to the environment, a zero, pointers to the other strings, a zero; each pointer at its string and its zero byte; aligned, with less than four bytes to spare |
| StackImage.ArgvTermination | src/stack.rs:75-83 | argv is followed by a zero exactly when the environment is empty |
| StackImage.MainSeesShiftedLists | src/stack.rs:133-149 | the lists `main` finds through r1, r2 and r3 |
| FsTree.TreeIsItsEntries | src/fs.rs:72-81 | a tree is determined by the entries at its paths |
| FsTree.DescendantsExist | src/fs.rs:1120-1133 | the descendants are the nonempty paths that resolve |
| GuestFs.Fs.LookupNode | src/fs.rs:1120-1133 | the loop follows the path |
| GuestFs.Fs.LookupParentNode | src/fs.rs:1145-1162 | the parent, existing target or not |
| GuestFs.Fs.EnumerateRecursive | src/fs.rs:1303-1333 | every descendant exactly once, parents first and what a directory holds together, in any iteration order; terminates with both stacks empty; fails exactly on what is no directory |
| FsEnumerate.YieldDirectory | src/fs.rs:1316-1321 | entering a directory lists exactly its path |
| FsEnumerate.YieldFile | src/fs.rs:1316-1323 | a file lists exactly its path |
| FsEnumerate.LeaveDirectory | src/fs.rs:1325-1329 | leaving an exhausted directory lists nothing |
| FsEnumerate.WalkEnds | src/fs.rs:1325-1332 | at the end the list is the set of descendants |
| FsEnumerate.ListInside | src/fs.rs:1316-1324 | listing a child keeps what each directory holds together |
| FsRename.UpdatedAt | src/fs.rs:156-175 | shape, kinds and writeability stay; every node reached through writeable directories gets the new host path extended by its relative path, the rest keeps its own |
| FsRename.WhatMayMove | src/fs.rs:1384-1405 | exactly writeable files on the host and writeable directories can be moved, and only into writeable directories; from and to which host paths |
| FsRename.MovedAt | src/fs.rs:1376-1435 | the tree after a move, at every path: the moved node at the target, nothing at the source, everything else unchanged |
| FsRename.MoveKeepsHostConsistent | src/fs.rs:1376-1435 | children of writeable directories keep living in the directory's host directory under their own names |
| FsRename.MoveBackRestores | src/fs.rs:1376-1435 | moving back restores the whole tree |
| GuestFs.Fs.Rename | src/fs.rs:1376-1435 | same strings: nothing happens; failure exactly if the move is not allowed or the host refuses, and then the tree is unchanged; success is the moved tree |
| Adts.HeaderFields | src/audio.rs:460-472 | the parser reads each header field back, the length exactly if it fits 13 bits |
| Adts.HeaderIsOr | src/audio.rs:460-472 | the bytes of the header are the bitwise ors of the source |
| Adts.ParseAdtsAac | src/audio.rs:563-618 | accepts exactly inputs that start with a whole frame of any ADTS variant; delivers exactly the frames the input is made of, up to where none follows, with the rate and channels of the first |
| Adts.ParseFrames | src/audio.rs:567-617 | the parser's loop |
| Adts.EveryInputDivides | src/audio.rs:563-618 | every input is a sequence of frames and a rest that starts with none |
| Adts.FramesAreDelivered | src/audio.rs:563-618 | however frames with any second byte from 0xF0 on, any profile and any payload follow each other, they come out as they are |
| Adts.BoundariesAreFrames | src/audio.rs:573-604 | the offsets are where these frames start |
| Adts.RatesHalve | src/audio.rs:564-566 | the rates fall into three families that halve, and 7350 |
| Adts.Mpeg2Stream | src/audio.rs:574-582 | a stream of one MPEG-2 frame, which is accepted |
| Adts.NextFrame | src/audio.rs:574-599 | the checks on one header |
| Adts.BoundariesDelimitFrames | src/audio.rs:573-604 | offsets ascend from the start, delimit one frame each, and after the last there is no frame |
| Adts.FrameCafPackets | src/audio.rs:477-532 | gives up exactly on an unknown rate, an uncoded channel count or an overlong packet; otherwise the framed packets |
| Adts.FramedAt | src/audio.rs:511-524 | each frame lies between its offset and the next |
| Adts.FramingIsParsedBack | src/audio.rs:460-618 | parsing undoes framing: same bytes, offsets, rate and channels, and the payloads behind the headers |
| Adts.AacPackets.PacketsTile | src/audio.rs:75-83 | the packets tile the bytes |
| Adts.AacPackets.PacketSizeUpperBound | src/audio.rs:65-71 | the least upper bound of the packet sizes |
| ChunkMaps.AllocationKeepsChunks | src/mem/allocator.rs:186-254 | allocation keeps chunks disjoint, aligned and covering the same addresses |
| ChunkMaps.AllocationTakesUnused | src/mem/allocator.rs:354-384 | the bytes handed out were unused and nothing else leaves the unused chunks |
| ChunkMaps.AlignedSizeFits | src/mem/allocator.rs:354-394 | a request is rounded up to whole units; exactly those in the last page of the 32-bit range overflow |
| ChunkMaps.FreeKeepsChunks | src/mem/allocator.rs:504-540 | freeing, with or without a merge, keeps the partition |
| ChunkMaps.FreeReturnsBytes | src/mem/allocator.rs:504-540 | exactly the block's bytes become unused |
| ChunkMaps.GrowKeepsChunks | src/mem/allocator.rs:438-500 | growing in place keeps the partition and gives at least the size asked for |
| ChunkMaps.GrowTakesUnused | src/mem/allocator.rs:438-500 | the block grows over unused bytes only |
| ChunkShapes.AlignedSizeIsLeast | src/mem/allocator.rs:354-394 | no smaller size that the rules allow would do, and rounding fails only if none fits 32 bits |
| ChunkShapes.RestOfChunk | src/mem/allocator.rs:210-254 | what allocation leaves of a chunk: one chunk if the rules allow it, else two that meet at the page boundary, nothing if it is too small; all other chunks stay |
| ChunkShapes.FreedJoins | src/mem/allocator.rs:510-537 | a freed block and its neighbour become one chunk exactly if the rules allow it; all other chunks stay |
| ChunkShapes.GrowsExactly | src/mem/allocator.rs:438-500 | exactly when a block grows in place, to which size, and that nothing but the chunk behind it changes |
| ChunkShapes.AllocThenFree | src/mem/allocator.rs:354-540 | freeing a block right after its allocation restores all chunks exactly if its rest stayed one chunk, or there was none and no neighbour to join |
| ChunkMaps.RunsPartition | src/mem/allocator.rs:296-540 | after every history without reservations, each address belongs to exactly one chunk, used or unused |
| Reservations.ReserveCovers | src/mem/allocator.rs:313-350 | a reservation takes exactly the left-over ranges of less than 16 bytes out of all chunks |
| Reservations.ReserveIsDisjoint | src/mem/allocator.rs:313-350 | and leaves chunks that neither overlap nor break the size and alignment rules |
| Reservations.HistoriesAccount | src/mem/allocator.rs:296-540 | after every history with reservations, each address is lost or in exactly one chunk, and at most 30 addresses are lost per reservation |
| ChunkMaps.GrowKeepsSixteen | src/mem/allocator.rs:462-478 | 16-byte alignment survives growth exactly when the new size is a multiple of 16 or the block takes the whole chunk behind it |
| ChunkMaps.AllocationKeepsSixteen | src/mem/allocator.rs:354-384 | allocation keeps 16-byte alignment |
| ChunkMaps.FreeKeepsSixteen | src/mem/allocator.rs:504-540 | freeing keeps 16-byte alignment |
| ChunkMaps.GrowingByOneMisalignsTheNextBlock | src/mem/allocator.rs:438-500 | a history of a new allocator, with best fits, whose last block lies at an odd address |
| GuestAllocator.FirstBucketHasBestFit | src/mem/allocator.rs:256-276 | the bucketed search finds the global best fit |
| GuestAllocator.Allocator.constructor | src/mem/allocator.rs:296-311 | the initial chunks, with the null segment reserved |
| GuestAllocator.Allocator.Reserve | src/mem/allocator.rs:313-350 | cuts the range out of the chunk that holds it, skips it exactly if there is none, and panics only if the rest behind breaks the alignment rule |
| GuestAllocator.Allocator.FindInBucket | src/mem/allocator.rs:186-208 | the smallest fit within a bucket |
| GuestAllocator.Allocator.FindChunk | src/mem/allocator.rs:256-276 | the best fit of all, and none exactly if no chunk is large enough |
| GuestAllocator.Allocator.Alloc | src/mem/allocator.rs:354-384 | 0 exactly if the size overflows or nothing fits; otherwise the best fit, cut to size |
| GuestAllocator.Allocator.GrowInPlace | src/mem/allocator.rs:438-500 | grows exactly when the following chunk allows it, and leaves the chunks alone otherwise |
| GuestAllocator.Allocator.Free | src/mem/allocator.rs:504-540 | gives the block back, merged with the neighbour the code picks |
| GuestAllocator.Allocator.FindNeighbour | src/mem/allocator.rs:122-130 | the chunk behind, or the one that ends where the block starts |
| GuestAllocator.Allocator.LiveAllocations | src/mem/allocator.rs:550-556 | every block in use once, by ascending base |
| GuestHeap.Heap.Alloc | src/mem.rs:873-881 | a new block cut from a best fit, its bytes zero in both configurations, all other bytes as before, and 0 exactly if nothing fits; unused memory stays zero |
| GuestHeap.Heap.Free | src/mem.rs:979-1001 | gives a block back, zeroed if configured; ignores everything else |
| GuestHeap.Heap.Memmove | src/mem.rs:807-870 | copies as if through a buffer, or skips exactly the rejected arguments |
| GuestHeap.BytesReadBack | src/mem.rs:784-797 | bytes read back as written last, and as zero before |
| GuestHeap.Heap.CorruptByte | src/mem.rs:931-937 | one byte, unless it is in the null segment |
| GuestHeap.Heap.Realloc | src/mem.rs:939-976 | old contents survive on the keep, grow and move paths, no other byte changes, the tail is zero as configured; of address 0 it allocates; what a failed call leaves behind; when the new block of an address without one survives |
| GuestHeap.Heap.ReallocByMoving | src/mem.rs:972-975 | the moving path; for an address that is no block, the new block is lost exactly if it lies there, which takes a best fit there |
| GuestHeap.Heap.CopyAndFree | src/mem.rs:973-974 | the copy and the release |
| GuestHeap.MovedContents | src/mem.rs:972-975 | a move keeps the block's contents and every other block |
| GuestHeap.GrownInPlace | src/mem.rs:955-970 | growth in place finds zeros if memory is zeroed on free |
| GuestHeap.WritingInsideBlocks | src/mem.rs:784-797 | writes inside blocks keep unused memory zero |
| GuestHeap.RoomForBoth | src/mem.rs:818-828 | two blocks fit the address space, so a successful move is never refused as negative-sized |
| GuestHeap.FailedMoveAndZeroing | src/mem.rs:972-975 | after a failed move unused memory is zero exactly if the block held zeros wherever it was copied over unused memory |
| GuestHeap.FailedMoveAndOtherBlocks | src/mem.rs:972-975 | a failed move leaves every other block but the null segment as it was exactly if each already held what was copied over it |
| GuestHeap.ReallocatingFreeMemory | src/mem.rs:939-976 | on a new heap, a call that returns a block which is not in use |
| GuestHeap.FailedReallocDirtiesUnused | src/mem.rs:972-975 | calls on a new heap after which unused memory is not zero |
| GuestHeap.FailedReallocOverwritesBlock | src/mem.rs:972-975 | calls on a new heap, the last of which changes a byte of another block in use |
| GuestHeap.MisalignedBlock | src/mem.rs:939-976 | three calls on a new heap, the last of which returns 0x1011 |
| Generator.ScrambleIsOneToOne | src/corrupt.rs:63-69 | the scrambling of the state can be undone: each number is drawn in exactly one state |
| Generator.FirstDraw | src/corrupt.rs:54-69 | each number is the first one drawn from exactly one seed |
| Generator.DrawsRepeatAfterPeriod | src/corrupt.rs:54-69 | for every seed, so also for one that makes the state 0: two draws are equal exactly if they are a multiple of 2^64 draws apart |
| Generator.Rng.NextU64 | src/corrupt.rs:62-69 | the next number of the seed's stream |
| Generator.Rng.Below | src/corrupt.rs:76-81 | its remainder |
| Corruption.PicksAreTheBytesInUse | src/corrupt.rs:170-186 | picks and bytes of live blocks correspond one to one |
| Corruption.TargetIsUnique | src/corrupt.rs:174-182 | a pick has one target, and only that pick has it |
| Corruption.BurstsAreCounted | src/corrupt.rs:134-147 | frames and total after any ticks: bursts every interval, each counting its bytes |
| Corruption.TotalWhileInUse | src/corrupt.rs:134-202 | with memory always in use the total is burst times whole intervals |
| Corruption.AppliedStaysLive | src/corrupt.rs:196-198 | writes change only bytes of live blocks, within the offset limit, and leave unused memory zero |
| Corruption.WritesAreLive | src/corrupt.rs:170-196 | every write of a burst goes into a live block |
| Corruption.DrawsOfWrite | src/corrupt.rs:173-199 | which two draws each write of a burst takes, and the address and value they make, limit included |
| Corruption.LowPicksHitNullSegment | src/corrupt.rs:174-198 | exactly the picks below the null segment's size fall into it, with or without an offset limit |
| Corruption.ByteIsLowOfUpperHalf | src/corrupt.rs:71-74 | the value written is the low byte of the upper half of the second draw |
| Corruption.CountedWritesReachMemory | src/corrupt.rs:168-202 | all counted writes of a burst reach memory exactly if no pick is below the null segment's size |
| Corruption.BurstIntoNullSegment | src/corrupt.rs:168-202 | a seed with which the first burst of one byte counts it and changes none, on any heap |
| Corruption.Corruptor.Tick | src/corrupt.rs:134-147 | counters and bytes after a tick, disabled, between bursts or bursting |
| Corruption.Corruptor.Blast | src/corrupt.rs:151-211 | the burst's writes, determined by the random numbers, in order |
| Corruption.Corruptor.CorruptMany | src/corrupt.rs:168-202 | the loop applies exactly those writes |
| Corruption.Corruptor.CorruptOne | src/corrupt.rs:173-199 | one draw for the place, one for the value |
| Corruption.Corruptor.FindTarget | src/corrupt.rs:174-186 | the walk ends at the block the pick falls into |

## Left out

- dynarmic, the coroutine library, `catch_unwind`, windowing, GLES, OpenAL, JNI, logging: foreign calls without logic of their own. A panic of the source is a result (`Panicked`) where a caller can cause it.
- ThreadEnvironment.Environment.ScheduleNextThread: takes as many readings of the clocks as passes are made; that time has moved on between them is not assumed. In runs of the system each pass is one step.
- `yield_thread` without an active yielder, the debugger, named semaphores, the registration of mutexes and condition variables by magic number, and their attributes. The assertion at the end of `pthread_cond_wait` is no step of the model; `ConditionOutcomes.PlainWaitNeverTimesOut` shows that it holds.
- SymbolStubs.LinkedStubCallsTarget: assumes that the pointer slot is mapped and lies outside the stub, as the layout of a binary gives; `SymbolStubs.LinkJumpsExactly` has no such condition on the mapping. Instructions a stub does not hold have no meaning here, so "another instruction" is all that is said of a spoilt one.
- LazyLinker.RunKeepsInvariant: assumes of each step that stubs, pointer slots and trampolines do not overlap.
- The panics of `do_lazy_link` for an address that is no stub are the precondition `Located`; `do_non_lazy_linking`, vtables and type information are not modelled.
- CallingConvention.CallFromHost: calls of guest functions, for which a stack frame is pushed, are not modelled.
- LineBreaking.BreakLines: works on characters where the source slices UTF-8 bytes, and on real widths where the source has 32-bit floats.
- The characters that count as whitespace, and the decoding of `post` names, are parameters.
- `resolve_path` is a parameter, and so is the host's rename; `open_with_options`, which mixes both with host I/O, is not modelled. Enumerated paths are sequences of components, before they are joined with slashes.
- Adts.FrameCafPackets: starts from the packets a CAF reader delivers; parsing CAF and a reader that fails midway are not modelled. Sample rates are whole numbers.
- Reservations.HistoriesAccount: reserved ranges have at least 16 bytes.
- GuestAllocator.Allocator.FindInBucket: the size buckets are sets, without the order that decides between equally large chunks.
- `calloc` and C strings of the heap.
- The counters of the corruption engine are unbounded.
- `src/matrix.rs`, image rounding, G.711 tables, Thumb-2 immediates, GDB packets: float code, or finite and routine.
