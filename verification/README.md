# Verified model of the virtual machine

A Dafny 4.11 model of a user-level virtual machine and proofs of what its runs keep and what its operations
undo. Five parts are modelled:

* **Threads, mutexes and the scheduler.** Every VM call up to its call of `scheduler()`, every timer
  interrupt and every file callback is one atomic step. `VmState` gives the steps as functions of a value;
  `VmObjects` has the classes `Mutex`, `Thread` and `VirtualMachine`, whose methods rotate queues and update
  fields in place and are proved to take exactly those steps. `StepEffects` says of every step, without those
  functions, what it leaves. The properties of all runs are in `MutexSafety`, `SchedulerSafety`, `ExactlyOnce`,
  `QueuedOnce`, `Fairness`, `Timing`, `HandOff`, `Revival` and `ThreadFields`;
  `ExampleRuns` has four concrete runs that show where the obvious claims fail.
* **Paths.** `PathAlgebra` says what each call computes in terms of stacks of components, for all strings,
  and proves how the calls undo one another; `PathCalls` has the character loops over buffers.
* **Memory pools.** `MemoryBlocks` and `MemoryAccounting` treat one pool, `NestedPools` all pools and their
  runs, `PoolCalls` what creation and deletion mean for later calls, `MemoryPools` the classes that change the block vectors in place.
* **The file service.** `Protocol` has parent, child and the two queues as a value, `ChildLoop` and
  `Conservation` what every run keeps, `Shutdown` how it ends, `MachineObjects` the in-place form, `Marshalling` the bytes of the
  messages, `FileWrite` the cutting of a buffer into requests.
* **The FAT reader.** `FatChains` has files as chains of clusters, `FatReader` the reading loop in 32-bit
  arithmetic.

`dafny verify dfyconfig.toml` checks the whole project.

## Where the code departs from what one expects

The model follows the code. These claims are false of it. Each has an input or a run that breaks it, and a
proof of exactly when the code does meet it:

* A release hands the mutex to the first waiter without entering it in that thread's list of held mutexes
  (`Mutex.cpp:70-82`). The waiter's `VMMutexAcquire` then reports failure, and nobody can ever release,
  acquire or delete the mutex (`HandOff.BlockedAcquireReports`, `HandOff.StrandedForever`,
  `ExampleRuns.OwnerIsToldFailure`).
* A ready thread can be queued twice, and a running one still be queued: after a timed-out mutex wait
  (`Thread.cpp:61-69`, `ExampleRuns.TimeoutLeavesRunningThreadQueued`), and without any timeout when a ready thread
  is handed a mutex (`ExampleRuns.ReleaseLeavesRunningThreadQueued`). Every ready thread is queued once and no
  other thread at all, in all states of a run, exactly when no step wakes by a tick a thread that has a mutex in
  `waiting`, hands a mutex to a ready thread, or hands one thread two (`QueuedOnce.OnceIff`).
* A thread can acquire a mutex which it holds already; the call is not refused. In restricted runs it then waits for
  ever without a timeout (`Timing.HeldAcquireBlocksForever`), and until its n-th tick with a timeout of n
  (`Timing.HeldAcquireEndsAtTickN`).
* A terminated thread stays in mutex queues, and a later release makes it ready again
  (`HandOff.TerminateLeavesWaiter`, `ExampleRuns.DeadThreadRunsAgain`). In every run a dead thread that is not
  activated comes back exactly when a mutex whose queue it heads is released
  (`Revival.DeadComesBackIff`), and a run keeps dead threads out of the queues exactly when it terminates no
  thread that waits in one (`Revival.NoDeadWaitersIff`); then only activation brings a thread back
  (`Revival.DeadUntilActivated`).
* Rounding a request up to 64 bytes wraps to 0 exactly for sizes above 0xFFFFFFC0
  (`MemoryAccounting.RoundUpIff`), and such a request is granted however full the pool is
  (`NestedPools.FullPoolGrantsWrappedRequest`).
* A request id that comes round again while it is outstanding replaces a waiting callback
  (`Conservation.IssueConservesIff`, `Conservation.ReusedIdLosesCallback`).
* `SimplifyPath` keeps doubled slashes: from "/", "a//b" leads to "/a//b" (`PathAlgebra.KeepsDoubledSlash`). The
  result is canonical exactly when no empty piece is left on the stack, or that alone
  (`PathAlgebra.SimplifyRefinesFold`); without "..", exactly when the relative path has no doubled slash, with
  one exception at the root (`PathAlgebra.SimplifyKeepsCanonicalIff`).
* `RelativePath` goes up one directory too far, so the way from "/a/b" to "/a" is "../../a"
  (`PathAlgebra.GoesUpTooFar`), exactly when the destination is a proper beginning of the base other than the
  root (`PathAlgebra.GoesUpNoFurtherIff`).
* Both path calls can write beyond `VM_FILE_SYSTEM_MAX_PATH` characters (`PathAlgebra.RelativeSpillsOver`,
  `PathAlgebra.SimplifySpillsOver`): `RelativePath` up to two, exactly when the base begins the destination and what
  remains has 254 or 255 characters (`PathAlgebra.RelativeSpillsBelowIff`); `SimplifyPath` one, exactly when the
  components left fill the limit, or those of the base do and a piece is to be added to them
  (`PathAlgebra.SpillsByLengthsIff`).

Two fields keep old values. A failed immediate acquire leaves `waiting` set (`Thread.cpp:46-52`), so that the end of a
later sleep is taken for a timeout and queues the thread twice (`QueuedOnce.StaleWaitingQueuesTwice`); that is one of
the steps which `QueuedOnce.OnceIff` singles out. `stopWaiting` leaves the tick count (`Thread.cpp:195-200`); a thread
that later waits for a file request is woken by a tick exactly when that count runs out
(`Timing.RequestEndedByTickIff`).

## Model

| member | source | states |
|---|---|---|
| `SchedulerSafety.EveryRunIsSafe` | VirtualMachine.cpp:430-616 | At every step of every run from the start: exactly `tr` is running, every entry of level p has priority p and is not dead, every ready thread is queued on its own level, and the idle thread is running or queued on level NIL. |
| `SchedulerSafety.OneRunningThread` | VirtualMachine.cpp:904-935 | In every run, at each step boundary a thread is in state RUNNING if and only if it is `tr`. |
| `SchedulerSafety.SchedulerFindsAThread` | VirtualMachine.cpp:912-931 | In every run, whatever action dispatches next, some level is not empty when `scheduler` looks, so the NIL queue is never popped while empty. |
| `MutexSafety.MutualExclusion` | Mutex.cpp:15-96 | At every step of every run: a held mutex has its holder as owner, no thread holds one twice or waits in the queue of one that it holds, no queue has duplicates, and a mutex without owner has an empty queue. |
| `MutexSafety.OneHolder` | Thread.cpp:41-55 | In every run, two threads that hold the same mutex are the same thread. |
| `MutexSafety.DeletableMutexIsUnused` | VirtualMachine.cpp:355-382 | In every run, a mutex that passes the owner test of deletion is held by nobody and has no waiters. |
| `ExactlyOnce.ReadyExactlyOnce` | Thread.cpp:58-74 | In every run with only infinite mutex waits, successful immediate acquires and no termination of waiting threads: a ready thread has exactly one entry over all ready queues, and any other thread has none. |
| `ExactlyOnce.EveryRestrictedRunIsJoint` | VirtualMachine.cpp:430-616 | The joint invariant behind it: positive tick counts belong to sleepers only, `waiting` agrees with membership in the mutex queue, each outstanding file request belongs to one waiting thread, and these exclude one another. |
| `QueuedOnce.StepKeepsOnceIff` | Thread.cpp:58-74 | Where every ready thread is queued once and no other at all, a step keeps it so if and only if no tick wakes a thread that has a mutex in `waiting`, no release hands a mutex to a ready thread, and no termination hands one to a ready thread or two to one thread. |
| `QueuedOnce.OnceIff` | VirtualMachine.cpp:430-616 | In all states of a run every ready thread is queued once and no other thread at all, if and only if every step of the run meets that condition. |
| `QueuedOnce.RestrictedRunQueuesOnce` | VirtualMachine.cpp:430-616 | The runs with only infinite mutex waits, successful immediate acquires and no termination of waiting threads meet it. |
| `QueuedOnce.StaleWaitingQueuesTwice` | Thread.cpp:46-52 | A thread that sleeps one tick after a failed immediate acquire is queued twice by the next timer interrupt. |
| `Fairness.BoundedWaiting` | VirtualMachine.cpp:904-935 | From any state, a thread at index k of its level is dispatched within k + 1 dispatches from that level, whatever is pushed or flushed meanwhile, unless it is terminated. |
| `Fairness.DispatchRespectsPriority` | VirtualMachine.cpp:912-931 | After every dispatch of every run no ready thread has a higher priority than the running one. |
| `Timing.TimeoutQueuesOnceIff` | Thread.cpp:58-74 | A tick that wakes a thread adds exactly one ready-queue entry for it if and only if it was not waiting for a mutex. |
| `Timing.NonPositiveNeverWakes` | Thread.cpp:60-73 | A tick never changes the state or queue entries of a thread whose tick count is not positive, and sets the count to -5. |
| `Timing.WaitEnds` | Thread.cpp:58-74 | In restricted runs, a waiting thread leaves its wait only by its count running out, the answer to its file request, or becoming owner of the mutex it waits for. |
| `Timing.InfiniteWaitEndsWithOwnership` | VirtualMachine.cpp:336-344 | In restricted runs, a thread in a mutex wait is never woken by a tick: each step leaves it waiting or makes it the owner. |
| `Timing.SleepsUntil` | VirtualMachine.cpp:444-449 | While fewer than n timer interrupts have come since `VMThreadSleep(n)`, 1 <= n < 2^31, the caller waits and its count is the number still missing. |
| `Timing.SleepEndsAtTickN` | VirtualMachine.cpp:430-452 | A timer interrupt makes the sleeper ready if and only if it is the n-th one after the call. |
| `Timing.HeldAcquireBlocksForever` | Thread.cpp:43-54 | In restricted runs, a thread that acquires without a timeout a mutex which it holds already waits in every later state. |
| `Timing.HeldAcquireEndsAtTickN` | Thread.cpp:43-54 | With a timeout of n > 0, a timer interrupt ends that wait if and only if it is the n-th one after the call. |
| `Timing.RequestEndedByTickIff` | Thread.cpp:195-200 | A hand-off leaves the tick count, and a thread with a file request outstanding is woken by a tick if and only if its count is 1. |
| `HandOff.GivenUpMutexIsFreeOrStranded` | Mutex.cpp:70-82 | In every run, a mutex that its holder releases or leaves behind by dying is free if nobody waited for it, and otherwise has an owner in whose held list it is missing. |
| `HandOff.StrandedForever` | Mutex.cpp:70-82 | A mutex owned by a thread that does not hold it keeps that owner for the rest of every run, whatever is called. |
| `HandOff.BlockedAcquireReports` | VirtualMachine.cpp:336-351 | When a thread that blocked in `VMMutexAcquire` runs again, the call reports success if and only if the thread held the mutex already when it called. |
| `HandOff.AcquireTakesAtOnceIff` | VirtualMachine.cpp:310-352 | An acquire takes the mutex at once if and only if the mutex is free and the caller does not hold it. |
| `HandOff.TerminateLeavesWaiter` | VirtualMachine.cpp:603-612 | Terminating a thread leaves it, dead, in the queue of every mutex that it waited for. |
| `Revival.DeadComesBackIff` | Mutex.cpp:70-82 | In every run, at a step that does not activate it, a dead thread leaves the dead state if and only if the running thread releases a held mutex whose queue it heads, or a live thread holding such a mutex is terminated. |
| `Revival.StepKeepsNoDeadWaiterIff` | VirtualMachine.cpp:583-616 | A step leaves the mutex queues free of dead threads if and only if it does not terminate a thread that waits in one. |
| `Revival.NoDeadWaitersIff` | VirtualMachine.cpp:583-616 | No state of a run has a dead thread in a mutex queue if and only if the run terminates no thread that waits in one. |
| `Revival.DeadUntilActivated` | VirtualMachine.cpp:495-522 | In such a run a thread leaves the dead state at a step if and only if the step activates it. |
| `ThreadFields.LastFileEventDecides` | VirtualMachine.cpp:882-889 | In every run, after a thread has sent a file request or its callback has come, and until the next such event, its call result is the initial value of that request or the result that the callback was given. |
| `ThreadFields.NoFileEventKeepsResult` | VirtualMachine.cpp:147-161 | Whatever else a run contains, the call result of a thread stays as it is while no request of it is sent or answered. |
| `ThreadFields.CreatedPriorityHolds` | VirtualMachine.cpp:525-550 | In every later state of a run a created thread has the priority asked for, stands on no other level, and on that one whenever it is ready. |
| `ThreadFields.CreatedThreadQueuesAtPriority` | VirtualMachine.cpp:495-522 | When a created thread is activated, it enters the level of the priority asked for at its end and no other level changes. |
| `StepEffects.TimerInterrupt` | VirtualMachine.cpp:892-932 | A timer interrupt in full: every thread has one tick; those that wake enter the levels of their priorities in order of creation, twice after a mutex wait, and leave the queue of that mutex, where the others keep their order; the preempted thread comes last; the front of the highest level runs. |
| `StepEffects.Termination` | VirtualMachine.cpp:583-616 | A termination in full: each held mutex is freed or handed to the first of its queue, the last one first; those handed one enter their levels in that order; the thread leaves its level; the caller goes behind the others unless it died or was handed a mutex; the front of the highest level runs. |
| `StepEffects.AcquireInFull` | VirtualMachine.cpp:310-344 | An acquire in full: which mutex gets which owner or a longer queue, the caller's `waiting`, held list and signed count, and who runs next. |
| `StepEffects.ReleaseInFull` | VirtualMachine.cpp:406-423 | A release in full: the mutex freed or handed on, the held list without its first place, the heir ready and behind the others, the caller behind it unless it is the heir, and who runs next. |
| `StepEffects.SleepInFull` | VirtualMachine.cpp:430-452 | A sleep in full: nothing for 0; the end of the level for an immediate one; otherwise a wait with the signed count, so that 2^31 ticks and more give a negative one. |
| `StepEffects.FileRequestInFull` | VirtualMachine.cpp:147-161 | A file request in full: the preset call result, the wait, one more request out, and who runs next. |
| `ExampleRuns.OwnerIsToldFailure` | VirtualMachine.cpp:345-349 | A run from the start in which a thread waits for a mutex, becomes its owner, and is told that the acquire failed. |
| `ExampleRuns.TimeoutLeavesRunningThreadQueued` | Thread.cpp:61-69 | A run from the start after which the running thread still has an entry in a ready queue. |
| `ExampleRuns.DeadThreadRunsAgain` | VirtualMachine.cpp:603-612 | A run from the start in which a thread is terminated while it waits for a mutex and runs again after the mutex is released. |
| `ExampleRuns.ReleaseLeavesRunningThreadQueued` | Mutex.cpp:70-82 | A run from the start without any timeout: a waiter is terminated, activated again and handed the mutex, and runs while it is still queued. |
| `VmObjects.Mutex.IsInQueue` | Mutex.cpp:53-67 | One full rotation finds a thread if and only if it is queued, and leaves the queue as it was. |
| `VmObjects.Mutex.Acquire` | Mutex.cpp:15-28 | Takes a free mutex; queues the caller once unless the call is immediate; reports which. |
| `VmObjects.Mutex.Release` | Mutex.cpp:70-82 | The state becomes that of a release: first waiter owner, ready and dequeued, or no owner. |
| `VmObjects.Mutex.DropFromQueue` | Mutex.cpp:84-94 | One full rotation removes every entry of the thread and keeps the order of the others. |
| `VmObjects.Mutex.WaitTimeout` | Mutex.cpp:84-96 | The timed-out thread leaves the queue, in which the others keep their order, forgets the mutex and becomes ready. |
| `VmObjects.Thread.AcquireMutex` | Thread.cpp:41-55 | Computes the acquire step of the model and its result code: a mutex taken is last in the held list, and `waiting` is the mutex if the thread is to wait for it, else null. |
| `VmObjects.Thread.DecrementTicks` | Thread.cpp:58-74 | Computes one tick of one thread, timeout included. |
| `VmObjects.Thread.ReleaseMutex` | Thread.cpp:144-156 | Releases a held mutex and removes it from the held list; reports whether it was held. |
| `VmObjects.Thread.ReleaseAllMutex` | Thread.cpp:132-141 | Releases all held mutexes from the last to the first. |
| `VmObjects.VirtualMachine.Scheduler` | VirtualMachine.cpp:904-932 | Requeues a running thread and runs the head of the highest level that is not empty. |
| `VmObjects.VirtualMachine.TimerISR` | VirtualMachine.cpp:892-901 | Takes the timer step: every thread ticks in order of creation, then the scheduler runs. |
| `VmObjects.VirtualMachine.FileRequest` | VirtualMachine.cpp:147-161 | Takes the step of a file call: the caller's call result is preset and nobody else's changes, one more request is out for it, it waits, and the scheduler runs. |
| `VmObjects.VirtualMachine.FileCallback` | VirtualMachine.cpp:882-889 | The waiting thread gets the result as its call result, is ready, and stands at the end of the level of its priority; every other thread, level and mutex is as before, and one request fewer is out. |
| `VmObjects.VirtualMachine.VMThreadCreate` | VirtualMachine.cpp:525-550 | Appends one dead thread with the priority asked for, no mutex and nothing held, under the next id; all other threads, the queues, the mutexes and `tr` stay; null arguments change nothing. |
| `VmObjects.VirtualMachine.VMThreadActivate` | VirtualMachine.cpp:495-522 | Makes a dead thread ready at the end of the level of its priority and changes nothing else; the three statuses exactly, the refusals changing nothing. |
| `VmObjects.VirtualMachine.DropFromLevel` | VirtualMachine.cpp:605-612 | One full rotation of a ready queue removes the thread and keeps the order of the others. |
| `VmObjects.VirtualMachine.VMThreadTerminate` | VirtualMachine.cpp:583-616 | Takes the termination step; the three statuses exactly. |
| `VmObjects.VirtualMachine.VMThreadSleep` | VirtualMachine.cpp:430-452 | Takes the sleep step for immediate, infinite and finite ticks; the status exactly. |
| `VmObjects.VirtualMachine.VMMutexCreate` | VirtualMachine.cpp:294-307 | Adds a mutex without owner and queue under an id that no mutex has, and changes nothing else; a null reference changes nothing. |
| `VmObjects.VirtualMachine.VMMutexAcquire` | VirtualMachine.cpp:310-344 | Takes the acquire step; a status is known at once if and only if the caller does not block. |
| `VmObjects.VirtualMachine.AcquireResult` | VirtualMachine.cpp:345-351 | The status of an acquire that blocked: success if and only if the caller holds the mutex now. |
| `VmObjects.VirtualMachine.VMMutexRelease` | VirtualMachine.cpp:406-423 | Takes the release step; the three statuses exactly. |
| `VmObjects.VirtualMachine.VMMutexDelete` | VirtualMachine.cpp:355-382 | An unowned mutex is gone and every other mutex, thread and queue is as before; an owned one is refused and nothing changes. |
| `PathAlgebra.SimplifyUndoesRelative` | VirtualMachineUtils.c:231-374 | For canonical base and destination, `RelativePath` gives a path and simplifying the base with it gives exactly the destination, if and only if the way, as the limit counts it, is shorter than the limit and both paths are within it. |
| `PathAlgebra.RelativeFitsIff` | VirtualMachineUtils.c:345-374 | The relative path between canonical paths, exactly: refused if and only if three characters for each directory up and the remaining components reach the limit. |
| `PathAlgebra.SimplifyRefinesFold` | VirtualMachineUtils.c:231-307 | For a canonical base and any relative path that fits: the result is the text of the fold of the pieces, failure exactly when a ".." meets the root, and canonical if and only if no empty piece is left on the stack, or that alone. |
| `PathAlgebra.SimplifyKeepsCanonicalIff` | VirtualMachineUtils.c:286-300 | A relative path without ".." leads to a canonical path if and only if it has no doubled slash or, from the root, adds one empty piece alone. |
| `PathAlgebra.KeepsDoubledSlash` | VirtualMachineUtils.c:286-300 | From "/", "a//b" leads to "/a//b", which is not canonical. |
| `PathAlgebra.SimplifySpillsIff` | VirtualMachineUtils.c:242-304 | A character is written beyond the limit if and only if the result has as many characters as the limit, or the base has, without a final slash, and the first piece that is not "." is one to be added. |
| `PathAlgebra.SimplifySucceedsIff` | VirtualMachineUtils.c:231-307 | For a canonical base and a relative path of any length: success if and only if the base fits, no ".." meets the root, and every piece with its slash fits the limit when its turn comes; the result is the text of the fold. |
| `PathAlgebra.SpillsByLengthsIff` | VirtualMachineUtils.c:242-304 | With a canonical base a character is written beyond the limit if and only if the call succeeds with components whose lengths fill it, or those of the base do and the first piece that is not "." is one to be added. |
| `PathAlgebra.SimplifySpillsOver` | VirtualMachineUtils.c:242-304 | From the root, a name of 255 characters makes `SimplifyPath` write beyond the limit. |
| `PathAlgebra.RouteComponents` | VirtualMachineUtils.c:309-344 | The route between canonical paths, exactly: it goes up from all components of the base beyond those in common, and from one more if the destination is a proper beginning of the base other than the root, and down to the rest of the destination; it does not go up if and only if the base begins the destination. |
| `PathAlgebra.GoesUpNoFurtherIff` | VirtualMachineUtils.c:309-344 | The route goes up no further than any way down to the destination needs if and only if the destination is not a proper beginning of the base, or is the root. |
| `PathAlgebra.GoesUpTooFar` | VirtualMachineUtils.c:309-374 | The relative path from "/a/b" to "/a" is "../../a". |
| `PathAlgebra.RelativeSpillsBelowIff` | VirtualMachineUtils.c:345-374 | Between canonical paths a character is written beyond the limit if and only if the base begins the destination and the text of the remaining components has 254 or 255 characters. |
| `PathAlgebra.RelativeSpillsOver` | VirtualMachineUtils.c:345-374 | From the root to a name of 254 characters, `RelativePath` writes 257. |
| `PathAlgebra.GetAbsoluteUndoesRelative` | VirtualMachineUtils.c:127-136 | Resolving the relative path from a directory takes the relative branch and gives back the destination, under the same exact condition. |
| `PathAlgebra.ConsolidateUndoesSplit` | VirtualMachineUtils.c:151-229 | Directory and file put together give the path back if and only if it has a slash, its last slash is not doubled and it is shorter than the limit. |
| `PathAlgebra.SplitParts` | VirtualMachineUtils.c:151-205 | Directory and file of every path: "" and the path itself without a slash, else the parts before and after the last slash, "/" for a leading one; each is refused if and only if it does not fit the limit. |
| `PathCalls.Pop` | VirtualMachineUtils.c:253-270 | The backward scan removes exactly the last component, and fails if and only if the stack is empty. |
| `PathCalls.AddEntry` | VirtualMachineUtils.c:286-300 | Adds exactly the next piece with its slash, and is refused if and only if the text would exceed the limit; strictly advances. |
| `PathCalls.AddPiece` | VirtualMachineUtils.c:286-300 | Adding a piece continues the walk over the rest of the relative path, or stops it with the status of the refusal. |
| `PathCalls.FollowPieces` | VirtualMachineUtils.c:247-301 | The main loop walks over the pieces of the relative path: it ends with the text of the final stack, or with the status of the piece that stopped it. |
| `PathCalls.SimplifyPath` | VirtualMachineUtils.c:231-307 | The buffer and status are those of the component walk, for every pair of strings, in a buffer of the source's size, plus one when the call spills; and then that one character is written. |
| `PathCalls.FindRoute` | VirtualMachineUtils.c:309-344 | Finds how far to go up and where the rest of the destination starts, for every pair of strings. |
| `PathCalls.RelativePath` | VirtualMachineUtils.c:309-374 | The buffer and status are those of the route's text, for every pair of strings, in a buffer of exactly the characters written; the buffer begins with the route even when the text is refused. |
| `PathCalls.PathIsOnMount` | VirtualMachineUtils.c:138-149 | With the source's local buffer, when it is not overrun: on canonical paths success if and only if the mount's components begin the destination's, so "/a" is a mount of "/a/b" and not of "/ab"; no mount point is always a success. |
| `PathCalls.GetAbsolutePath` | VirtualMachineUtils.c:127-136 | An absolute destination is copied whole with success; a relative one is simplified against the current path. |
| `PathCalls.DirectoryFromFullPath` | VirtualMachineUtils.c:151-183 | The text before the last slash, the root for a slash at the start, nothing without a slash; refused beyond the limit. |
| `PathCalls.FileFromFullPath` | VirtualMachineUtils.c:185-208 | The text after the last slash; refused beyond the limit. |
| `PathCalls.ConsolidatePath` | VirtualMachineUtils.c:210-229 | Directory and file with exactly one slash put between them if the directory does not end in one; refused beyond the limit. |
| `MemoryBlocks.FirstFit` | MPCB.cpp:35-66 | For a positive size the address returned is the least at which the bytes fit free inside the pool, and it is null exactly when they fit nowhere. |
| `MemoryBlocks.AllocateKeepsWf` | MPCB.cpp:35-66 | The list of blocks stays sorted, disjoint and inside the pool; a refused request changes nothing. |
| `MemoryBlocks.DeallocateKeepsWf` | MPCB.cpp:69-80 | Giving back keeps the list sorted, disjoint and inside the pool. |
| `MemoryBlocks.ZeroSizeBlock` | MPCB.cpp:35-66 | A request for no bytes is always granted, with an empty block at the front of the list. |
| `MemoryBlocks.DistinctStartsKeptIff` | MPCB.cpp:35-66 | Block starts stay distinct if and only if the request is for some bytes or no block starts the pool. |
| `MemoryBlocks.DeallocateUndoesAllocateIff` | MPCB.cpp:35-80 | Giving back the address just received restores the exact list if and only if no other block starts there, or the request was for no bytes. |
| `MemoryBlocks.PositiveBlocksRestored` | MPCB.cpp:35-80 | Without blocks of size zero the list is always restored. |
| `MemoryAccounting.SizeIsFreeAndGiven` | MPCB.cpp:139-148 | The addresses that no block covers and the sizes of the blocks make up the pool's size, so the subtraction never underflows. |
| `MemoryAccounting.AllocateTakes` | MPCB.cpp:35-66 | A granted request takes exactly its size from the free addresses, a refused one nothing. |
| `MemoryAccounting.RoundUpIff` | VirtualMachine.cpp:628 | Rounding gives a multiple of 64; 0 exactly for no bytes or sizes above 0xFFFFFFC0; at least the size, by less than 64 more, exactly for the others. |
| `MemoryAccounting.AllocateKeepsGrained` | VirtualMachine.cpp:623-649 | Blocks of positive multiples of 64 stay so, at multiples of 64 from the start. |
| `MemoryAccounting.FewBlocks` | VirtualMachine.cpp:623-649 | A pool of such blocks has at most size / 64 of them. |
| `MemoryPools.MPCB.Allocate` | MPCB.cpp:35-66 | The loop over the vector computes first fit, the casts of pointer differences included. |
| `MemoryPools.MPCB.Deallocate` | MPCB.cpp:69-80 | Removes the first block with the address; false if and only if there is none. |
| `MemoryPools.MPCB.FullyFree` | MPCB.cpp:133-136 | True if and only if no block is given out. |
| `MemoryPools.MPCB.CountFree` | MPCB.cpp:139-148 | The 32-bit sum and difference equal the number of addresses that no block covers. |
| `MemoryPools.VirtualMemory.FindMemPool` | VirtualMachine.cpp:966-976 | The first pool with the id, or none. |
| `MemoryPools.VirtualMemory.VMMemoryPoolAllocate` | VirtualMachine.cpp:623-649 | The new heap, status and pointer for every input. |
| `MemoryPools.VirtualMemory.VMMemoryPoolDeallocate` | VirtualMachine.cpp:652-674 | The new heap and status for every input. |
| `MemoryPools.VirtualMemory.VMMemoryPoolCreate` | VirtualMachine.cpp:677-689 | After success the heap is the old one and one more pool, with an id above all others, the base and the size asked for and no blocks; a null base or reference is refused and changes nothing. |
| `MemoryPools.VirtualMemory.VMMemoryPoolDelete` | VirtualMachine.cpp:692-712 | The pool with the id is gone and all others stay in order; one with blocks and an unknown id are refused and nothing changes. |
| `MemoryPools.VirtualMemory.VMMemoryPoolQuery` | VirtualMachine.cpp:715-737 | The number of free addresses of the pool, or the refusal. |
| `NestedPools.AllocateGivesRoomIff` | VirtualMachine.cpp:623-649 | A request of at most 0xFFFFFFC0 bytes gets the least address with room for all of them or is refused when there is none; a larger one gets the start of the pool, however full. |
| `NestedPools.FullPoolGrantsWrappedRequest` | VirtualMachine.cpp:623-649 | A full pool grants a request for 0xFFFFFFFF bytes. |
| `NestedPools.DeallocateUndoesPoolAllocate` | VirtualMachine.cpp:623-674 | Allocating and giving back leaves the whole heap as it was when no size wraps. |
| `PoolCalls.NewPoolAnswers` | VirtualMachine.cpp:677-689 | After a creation, the query on the new id gives the size asked for, and a request for n bytes gets the base if n rounded up to 64 is at most the size, and is refused otherwise. |
| `PoolCalls.CreationLeavesOthers` | VirtualMachine.cpp:677-689 | A creation changes no answer of any call on any other id. |
| `PoolCalls.DeletionTakesOne` | VirtualMachine.cpp:692-712 | Deleting an empty pool takes away that one alone: the others keep their order, all calls on its id are refused, and calls on other ids are answered as before. |
| `NestedPools.EveryHeapIsLaminar` | VirtualMachine.cpp:623-712 | In every run in which pools are made outside all others or over free room inside a live block, and no block is given back under a pool, any two pools are apart or one lies inside one block of the other. |
| `NestedPools.LiveBlocksNestInEveryRun` | VirtualMachine.cpp:623-712 | In every such run any two live blocks of any pools are apart, or one lies within the other because its pool lies inside that block. |
| `NestedPools.EveryHeapIsGrained` | VirtualMachine.cpp:623-649 | In every such run without wrap every pool has at most size / 64 blocks, all at multiples of 64. |
| `Conservation.OutstandingInOnePlace` | Machine.cpp:221-255 | In every run before a TERMINATE and without reuse of an outstanding id: each outstanding id occurs exactly once in the request queue, the pending reads and the reply queue together, and no other id occurs there. |
| `Conservation.EachCallbackFiresOnce` | Machine.cpp:221-239 | In every such run each firing belongs to a call of its own, made before, and carries that call's callback and the result of the operation which that call asked for. |
| `Conservation.EveryRunKeepsInv` | Machine.cpp:329-440 | The invariant behind both, kept by sending, by every iteration of the child and by every delivery. |
| `Conservation.IssueConservesIff` | Machine.cpp:241-250 | Sending keeps the account of ids if and only if the new id, after wrap-around, is not outstanding. |
| `Conservation.ReusedIdLosesCallback` | Machine.cpp:241-250 | A state whose next id is outstanding, in which sending loses the callback that waits under it. |
| `Conservation.SendsOwnResults` | Machine.cpp:342-402 | Every reply the child sends in an iteration carries the result of the operation that was asked for under its id. |
| `ChildLoop.IterateKeepsWatched` | Machine.cpp:356-439 | After every iteration the descriptors polled beyond index 0 are distinct and exactly those of the pending reads, without the signal pipe. |
| `ChildLoop.WatchedDescriptors` | Machine.cpp:426-439 | The same as an equation between sets of descriptors. |
| `ChildLoop.ServeOldest` | Machine.cpp:412-425 | Each ready descriptor has exactly its oldest pending read answered, and no other descriptor any. |
| `ChildLoop.IterateKeepsOrder` | Machine.cpp:350-425 | In one iteration, what is answered on a descriptor followed by what still waits is what waited followed by what arrived. |
| `ChildLoop.EveryRunKeepsOrder` | Machine.cpp:329-440 | In every run of the child, reads on a descriptor are answered in order of arrival and none is lost or repeated. |
| `Shutdown.TerminatedAfterIteration` | Machine.cpp:329-410 | After an iteration the child is terminated if and only if it was before, or it took a TERMINATE, or the poll gave 0 and the parent is gone. |
| `Shutdown.TerminatedIff` | Machine.cpp:329-410 | In every run, with TERMINATE and the death of the parent allowed, the child is terminated in a state if and only if it has taken a TERMINATE or found its parent gone. |
| `Shutdown.TerminateEndsService` | Machine.cpp:403-410 | Messages are taken in the order sent and none behind a TERMINATE; once as many are taken as stand up to it the child is terminated, and not before the first one while the parent stays. |
| `Shutdown.WaitingTerminateEndsService` | Machine.cpp:458-475 | A TERMINATE that waits behind k others has ended the child once k + 1 more messages are taken, and no more than these are. |
| `MachineObjects.Machine.AddRequest` | Machine.cpp:241-250 | The next id in 32 bits, with the callback stored under it. |
| `MachineObjects.Machine.SendRequest` | Machine.cpp:541-613 | Takes the sending step when initialised, and does nothing otherwise. |
| `MachineObjects.Machine.ReplySignalHandler` | Machine.cpp:221-239 | Empties the reply queue by delivering every reply in order. |
| `MachineObjects.Machine.ValidSharePointer` | Machine.cpp:206-214 | True if and only if the pointer lies in the shared memory. |
| `MachineObjects.Machine.IsWatched` | Machine.cpp:355-361 | Found if and only if some polled descriptor, the signal pipe included, is the one asked for. |
| `MachineObjects.Machine.Perform` | Machine.cpp:342-402 | One message: OPEN, SEEK and CLOSE are answered with the result of the operation, a WRITE with that or with -1 if pointer or length is not allowed; an allowed READ is added to the pending reads with its descriptor polled, any other answered with -1; TERMINATE, and nothing else, ends the child. |
| `MachineObjects.Machine.ServeDescriptor` | Machine.cpp:414-423 | Answers and removes the oldest read on a descriptor, if any. |
| `MachineObjects.Machine.ServeReady` | Machine.cpp:412-425 | Answers the reads of all ready descriptors in order. |
| `MachineObjects.Machine.PruneDescriptors` | Machine.cpp:426-439 | The erase loop ends and keeps exactly the descriptors that some pending read needs, in order. |
| `MachineObjects.Machine.ChildIteration` | Machine.cpp:329-440 | One iteration of the child's loop takes the model's step, for every outcome of the system calls; it takes at most the oldest message, and afterwards the child is terminated if and only if it was, or took a TERMINATE, or the poll gave 0 and the parent is gone. |
| `Marshalling.IntRoundTrip` | Machine.cpp:175-197 | `MachineGetInt` inverts `MachineSetInt` on every 32-bit number, the negative ones included. |
| `Marshalling.BytesRoundTrip` | Machine.cpp:175-197 | `MachineSetInt` inverts `MachineGetInt` on every four bytes. |
| `Marshalling.SetInt` | Machine.cpp:193-197 | Writes the four bytes of the number and nothing else. |
| `Marshalling.GetInt` | Machine.cpp:175-182 | The shifting loop in 32 bits gives the number that the four bytes stand for. |
| `Marshalling.PointerRoundTrip` | Machine.cpp:184-204 | A pointer copied byte by byte is the same pointer. |
| `Marshalling.SetPointer` | Machine.cpp:199-204 | Writes the eight bytes of the pointer and nothing else. |
| `Marshalling.GetPointer` | Machine.cpp:184-191 | Reads the pointer that the eight bytes stand for. |
| `Marshalling.MessageRoundTrip` | Machine.cpp:344-398 | What the child decodes from any buffer that begins with a packed payload is the request that was packed, for all five kinds and all their arguments. |
| `Marshalling.RequestArrives` | Machine.cpp:522-611 | The number of bytes sent covers the payload, so the child decodes the request whatever else both buffers hold. |
| `Marshalling.PackOpen` | Machine.cpp:528-531 | The bytes packed are the name, its terminator, flags and mode. |
| `Marshalling.PackTransfer` | Machine.cpp:547-550 | The bytes packed are descriptor, length and pointer. |
| `Marshalling.PackSeek` | Machine.cpp:585-588 | The bytes packed are descriptor, offset and whence. |
| `Marshalling.UnpackOpen` | Machine.cpp:344-346 | The child reads name, flags and mode where the packing put them. |
| `Marshalling.UnpackTransfer` | Machine.cpp:351-353 | The child reads descriptor, length and pointer where the packing put them, for READ and for WRITE. |
| `Marshalling.UnpackSeek` | Machine.cpp:389-391 | The child reads descriptor, offset and whence where the packing put them. |
| `FileWrite.WriteChunks` | VirtualMachine.cpp:187-194 | The requests in order carry exactly the buffer, number length / 512 + 1, each at most 512 bytes and inside the block; no byte outside the block is written; the results are summed. |
| `FileWrite.VMFileWrite` | VirtualMachine.cpp:165-205 | A buffer without embedded terminator goes out whole and in order; the status is failure if and only if the sum of the results is negative. |
| `FileWrite.RequestsPassTheCheck` | Machine.cpp:377-388 | Every request of a write through a block of the shared pool passes the child's pointer and length check and is performed. |
| `FatChains.ReadFromRefinesChain` | FATData.cpp:237-262 | The loop gives the beginning of the chained clusters, and nothing if and only if a zero entry stands at a cluster that the read uses up. |
| `FatChains.ChainFollowsTable` | FATData.cpp:237-262 | The chain begins at the start cluster, goes from each cluster to the one its table entry names, and ends only at an entry that links to nothing. |
| `FatChains.ByteOfContent` | FATData.cpp:237-245 | Byte i of what is read is the image byte at the start of the data plus the cluster number times C plus i mod C, in 32 bits, for the cluster number i / C of the chain. |
| `FatChains.ContentIsPrefix` | FATData.cpp:201-268 | The bytes read are the first min(length, n * C) of the n chained clusters, however far beyond the read a chain, possibly circular, is followed. |
| `FatChains.ShorterReadIsPrefix` | FATData.cpp:201-268 | A shorter read succeeds when a longer one does, and is a beginning of it. |
| `FatReader.FATData.ReadChain` | FATData.cpp:237-262 | The reading loop in 32-bit arithmetic computes the chain's content within L / C + 1 rounds, also on circular chains. |
| `FatReader.FATData.ReadFromFile` | FATData.cpp:201-268 | False for an unknown name, and for a known one if and only if a zero entry is met before the cap, which is the smaller of the length asked for and the stored size times bytes per sector times sectors per cluster in 32 bits; otherwise the first min(cap, n * C) bytes of the n chained clusters, each at its place in the image, within L / C + 1 rounds. |
| `FatReader.BytesToUnsigned` | FATData.cpp:361-369 | Up to four bytes are the base-256 digits of the result, least significant first; the sum never wraps. |
| `Digits.LittleInjective` | FATData.cpp:361-369 | As many bytes with the same value are the same bytes. |

## Left out

- Context creation and switching, signal masks, `fork` and `mmap` are foreign calls and left out; the results of `poll` and of file I/O are arbitrary inputs of the steps.
- Conservation.OutstandingInOnePlace: assumes that every `msgsnd` succeeds, as the code does when it ignores the result; a message that is not sent leaves its id outstanding for ever.
- Start-up and teardown, module loading, `VMDateTime`, the demonstration programs, and printing.
- `Dir.cpp`, the directory calls and the decoding of directory entries: small or unfinished.
- `writeToFile`, `changeFileContents` and `convertFNameToShort`: stubs.
- `VMThreadID` and `VMMutexQuery`: they assign to a local pointer and return nothing. `VMThreadState` only reads a field.
- `VMThreadDelete`: it can leave dangling pointers in mutex queues.
- VmObjects.VirtualMachine.VMMutexDelete: asks for a known id, because for an unknown one the code compares an uninitialised iterator, and that no thread still points to an unowned mutex, because a dangling pointer would be left.
- VmObjects.VirtualMachine.VMThreadCreate: the rounds of waiting for stack memory are separate steps that only call the scheduler, the stack itself is left out, and the priority is one of the four.
- VmObjects.VirtualMachine.VMThreadTerminate: is not called for the idle thread, which makes no calls itself.
- The main thread's uninitialised tick count is taken to be at most 0.
- VmObjects.Thread.DecrementTicks: a tick count at the least 32-bit number is decremented without overflow, after which it becomes -5 as any negative one does.
- VmObjects.VirtualMachine.VMMutexAcquire: has no status yet when the caller blocks; `AcquireResult` gives it when the caller runs again.
- VmObjects.Thread.ReleaseMutex: finds the index first and releases then, with the same effect as releasing at the iterator found.
- VmObjects.VirtualMachine.FileRequest: does not send the request to the service; the service is the separate model of `Protocol`, and the two meet only in the callback.
- VmObjects.VirtualMachine.FileCallback: asks for a waiting thread, because the code spins until the thread waits.
- PathCalls.SimplifyPath: the buffer has at least `VM_FILE_SYSTEM_MAX_PATH` characters, as its callers pass, also for short paths; indices and lengths are unbounded integers, as for the other path calls.
- PathCalls.PathIsOnMount: is not called when its local buffer would be overrun, and says nothing of the outcome when `RelativePath` finds no way, because the code then tests a buffer that was not set.
- Pool ids and the ids of threads and mutexes do not wrap around.
- MemoryPools.VirtualMemory.VMMemoryPoolCreate: asks that the memory handed over exists, that is, ends inside a 64-bit address space.
- `VMFileRead`: its shared block is never given back, and transfers of length zero retry forever.
- FileWrite.WriteChunk: says which bytes stand in the block when the request is sent; that they are still there when the child writes rests on the caller waiting for its callback and on no other thread writing to a block that is not its own, and is not stated.
- FileWrite.VMFileWrite: begins when the shared block has been allocated, because how long the retry loop takes depends on other threads, and leaves giving it back to the pool model; the sum of results is unbounded. A null data pointer is read before it is tested.
- The liveness of signals and of the signal pipe; `Shutdown` counts messages taken, not time. The conservation laws are about runs before a TERMINATE, because requests behind one are never answered.
- One iteration of the child is one step; the parent's deliveries fall between iterations, which loses no behaviour because the child only appends to the reply queue.
- FatReader.FATData.ReadFromFile: requires that linked clusters have a table entry and lie inside the image, as the code reads them without a check.
- The FAT layout is the code's own, with cluster N at N cluster sizes after the start of the data; Microsoft's "FAT: General Overview of On-Disk Format" v1.03, section "FAT Data Structure", uses N - 2. The cap on a read is the stored size multiplied by the cluster size, as in the code.
- `MemBlock.cpp`, `Tibia.cpp`: plain records. The older copies in `proj4Tests/`.
