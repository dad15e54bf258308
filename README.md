# Work-stealing thread pool: the sequential scheduling core

This project models the scheduling core of the `bgu.spl.a2` work-stealing
thread pool in Dafny, and proves properties about it. The worker threads are
removed. Anything one thread does to another becomes an explicit method call:
a submission, a steal, a child task resolving, a stop request.

The model has three modules.

- `QueueTable` (queue_table.dfy) holds the pool's per-worker deques as values
  of type `seq<seq<T>>`. Position 0 of a queue is its front, the end that
  `addFirst` and `pollFirst` use. The last position is the back, the end
  thieves take from with `pollLast`. The module defines reference functions
  for each operation: a push, a pop, the steal rotation, the first stealable
  victim, and the whole steal. It also defines the multiset of queued tasks.
  Its lemmas state what the pool promises: LIFO order on a worker's own queue,
  each other worker visited exactly once, the back `size/2` tasks moved in
  order, small queues left alone, and every task conserved.
- `TaskProtocol` (task_protocol.dfy) holds the counting rules of a task's
  child protocol as values:
  - `spawn` counts only the tasks other than the spawning task;
  - each child's completion hook re-submits the parent once the finished
    count reaches the spawned count.
  It proves the closed form of how often the parent is re-submitted. In
  particular, a parent with K children is re-submitted exactly once, by the
  hook of the last child.
- `Scheduler` (scheduler.dfy) holds the classes of the source:
  `WorkStealingThreadPool`, `Task`, `Processor`, and the result cell
  `Deferred`. Their methods change fields in place. Each method is proved
  against the `QueueTable` and `TaskProtocol` functions: for example,
  `StealTasks` leaves exactly the table `Steal(old(queues), id)` and returns
  that table's task.

## Model

| member | source | states |
|---|---|---|
| `Scheduler.WorkStealingThreadPool.constructor` | WorkStealingThreadPool.java:40-45 | exactly `nthreads` queues, indexed `0..nthreads-1`, all empty; version 0 |
| `Scheduler.WorkStealingThreadPool.Submit` | WorkStealingThreadPool.java:52-56 | the task goes to the front of queue `choice`, which lies in `[0, N)`; every other queue is unchanged; the version goes up by one |
| `Scheduler.WorkStealingThreadPool.SubmitTo` | WorkStealingThreadPool.java:63-66 | the task goes to the front of queue `processorId`; every other queue is unchanged; the version goes up by one |
| `Scheduler.WorkStealingThreadPool.GetNextTask` | WorkStealingThreadPool.java:105-107 | removes and returns the front of queue `id`, or returns nothing when that queue is empty (as `PollFirst`) |
| `Scheduler.WorkStealingThreadPool.StealTasks` | WorkStealingThreadPool.java:109-142 | the rotation loop leaves exactly the table `Steal(old(queues), id)` and returns its task; the version and the processors are unchanged |
| `Scheduler.WorkStealingThreadPool.StealFromVictim` | WorkStealingThreadPool.java:126-137 | at a victim holding more than one task, a task is always stolen, and the result is `StealFrom(queues, victim, id)` |
| `Scheduler.WorkStealingThreadPool.MoveBackHalf` | WorkStealingThreadPool.java:126-136 | `size/2` rounds of `pollLast` and `addFirst`: the victim keeps its first `size - size/2` tasks, its back `size/2` tasks are on the thief's front in their order, and `stole` holds exactly when `size > 1` |
| `Scheduler.WorkStealingThreadPool.PollOwnQueue` | WorkStealingThreadPool.java:113-120 | the fallback after a full rotation: both branches amount to one `pollFirst` of the own queue |
| `Scheduler.WorkStealingThreadPool.GetVMVersion` | WorkStealingThreadPool.java:144-146 | returns the current version |
| `Scheduler.WorkStealingThreadPool.Start` | WorkStealingThreadPool.java:93-103 | one fresh processor per queue; processor `i` has id `i`, this pool, no stop request and no waiting tasks |
| `Scheduler.WorkStealingThreadPool.Shutdown` | WorkStealingThreadPool.java:80-88 | every processor has `shouldStop` set; the version goes up by one; the queues are unchanged |
| `Scheduler.Deferred.constructor` | Task.java:21 | a new result cell: unresolved, no value, no callback |
| `Scheduler.Deferred.HasCallback` | Task.java:128 | a callback is registered exactly when the cell holds a hook; `WhenResolved` establishes it and `Resolve` requires it |
| `Scheduler.Deferred.WhenResolved` | Task.java:110-114 | registers the hook and leaves the result untouched; the caller runs the hook at once exactly when the result is already resolved |
| `Scheduler.Deferred.Resolve` | Task.java:128-130 | stores the value once a callback exists, and hands back that callback to run |
| `Scheduler.Task.constructor` | Task.java:21-28 | a fresh, unresolved result; no continuation; not started; both counters 0 |
| `Scheduler.Task.Handle` | Task.java:53-70 | sets `processorId` to the handler's id and records the handler; the first call runs `start()` and sets `hasStarted`; each later call runs the stored continuation |
| `Scheduler.Task.Spawn` | Task.java:78-80 | submits to the queue of the processor that handled the task last, as `SpawnTo` does; the pool's processors and started flag are unchanged |
| `Scheduler.Task.SpawnTo` | Task.java:89-95 | every given task goes to the front of queue `pid`, in order (`SubmitAll`); the spawned count grows by the number of given tasks other than this one; the version grows by their number; the pool's processors and started flag are unchanged |
| `Scheduler.Task.ChildResolved` | Task.java:110-114 | the per-child hook: the finished count goes up by one, and the parent goes back to the front of its queue exactly when the new finished count is at least the spawned count |
| `Scheduler.Task.WhenResolved` | Task.java:107-118 | stores the continuation and the task collection; every given result carries this task's hook; no result is changed; results already resolved fire their hooks at once, and the re-submissions number `Resubmissions` of those |
| `Scheduler.Task.HookAll` | Task.java:109-115 | the registration loop: hooks on every result, `CountTrue` of the resolved ones fired, re-submissions as `Resubmissions` |
| `Scheduler.Task.HookChild` | Task.java:110-114 | one iteration of the registration loop, keeping the loop's registration and accounting invariants |
| `Scheduler.Task.RegisterChild` | Task.java:110 | the hook goes on result `i`; results already hooked keep their hook; no result's flag or value changes; the hook is to run at once exactly when result `i` is resolved |
| `Scheduler.AfterHooks` | Task.java:109-115 | the parent's finished count and the pool after `fired` runs of the per-child hook: the count grows by exactly `fired`, the version by between 0 and `fired` (one per re-submission), the number of queues, the processors and the started flag are as before (what one more run adds is `OneMoreHook`) |
| `Scheduler.Task.RunChildHook` | Task.java:111-113 | one more hook run advances the tally as `AfterHooks` says |
| `Scheduler.OneMoreHook` | Task.java:111-113 | one more hook run adds one finished child, and pushes the parent once more and bumps the version exactly when that run re-submits |
| `Scheduler.Task.Complete` | Task.java:126-133 | resolves the result once a callback is registered; when that callback is a parent's child hook, the parent's finished count goes up by one, and exactly when the old finished count plus one is at least the spawned count, the parent is pushed on its queue and the version goes up by one. It changes only the parent's two counters, and of the pool only the queues and the version; the parent's `hasStarted`, continuation and children stay as they were |
| `Scheduler.Task.GetResult` | Task.java:138-140 | always the same result cell, the one created with the task |
| `Scheduler.Processor.constructor` | Processor.java:39-42 | the given id and pool; no stop request; no waiting tasks |
| `Scheduler.Processor.GetId` | Processor.java:68-70 | the id given at construction, which is a constant |
| `Scheduler.Processor.GetPool` | Processor.java:86-88 | the pool given at construction |
| `Scheduler.Processor.AddToWaitingTasks` | Processor.java:77-80 | keeps the first callback registered for a task; a later call for the same task changes nothing |
| `Scheduler.Processor.StopProcessor` | Processor.java:93-95 | sets `shouldStop`, and `Step` requires it unset |
| `Scheduler.Processor.Step` | Processor.java:45-62 | one iteration of `run`. The version is snapshotted and passed on. The task obtained is `NextTask` of the queues: a non-empty own queue yields its front, and no steal happens; otherwise the steal's result is taken. The task handled was queued before. Only that task is handled: it gets this processor and is marked started, and its continuation, children and counters stay as they were. No other task's `hasStarted`, `processorId`, `handler` or `callback` changes, and the pool's version, processors and started flag stay as they were |
| `QueueTable.PushFront` | WorkStealingThreadPool.java:64 | `addFirst`: queue `id` grows by one, with the pushed task in front of its old contents; every other queue is unchanged |
| `QueueTable.PollFirst` | WorkStealingThreadPool.java:105-107 | `pollFirst`: nothing exactly when queue `id` is empty, and then the table is unchanged; otherwise the front task followed by the new queue is the old queue; every other queue is unchanged |
| `QueueTable.QueuedMembers` | WorkStealingThreadPool.java:24 | a task is in `Queued(qs)`, the multiset of the tasks held by all the queues, exactly when some queue holds it |
| `QueueTable.Reversed` | Task.java:90-94 | the order repeated `addFirst` leaves a batch in: entry `k` of `Reversed(s)` is entry `k` of `s` counted from the back |
| `QueueTable.SubmitAll` | Task.java:90-94 | the loop of `spawn` as repeated `addFirst`; the number of queues is unchanged (contents in `SubmitAllFront`) |
| `QueueTable.Steal` | WorkStealingThreadPool.java:109-142 | the effect of `stealTasks` without interference: the number of queues is unchanged; no task is returned exactly when the thief's queue is empty and every other queue holds at most one task |
| `QueueTable.StealFrom` | WorkStealingThreadPool.java:126-137 | the victim branch: a task is always returned; the victim keeps `s - s/2` tasks; the thief's queue grows by `s/2 - 1`; every other queue is unchanged |
| `QueueTable.Victim` | WorkStealingThreadPool.java:110-140 | the victim picked, if any, is another worker whose queue holds more than one task |
| `QueueTable.NextTask` | Processor.java:47-50 | the task one round of `run` obtains: the own queue's front, else the steal's task; none exactly when the own queue is empty and no other queue holds more than one task |
| `QueueTable.Rotation` | WorkStealingThreadPool.java:110-112 | the scan order `id+1..N-1, 0..id-1`: length `N-1` and entry `k` equal to `id+1+k` taken modulo `N` |
| `QueueTable.FirstStealable` | WorkStealingThreadPool.java:127-128 | gives the first position in the order whose queue holds more than one task; every earlier queue holds at most one; gives none exactly when no queue in the order holds more than one |
| `QueueTable.RotationVisitsOthersOnce` | WorkStealingThreadPool.java:110-140 | the scan visits every other worker exactly once and never the thief itself |
| `QueueTable.RotationOfOne` | WorkStealingThreadPool.java:110-113 | with one worker the scan is empty, so the worker falls back to its own queue at once |
| `QueueTable.PushThenPoll` | WorkStealingThreadPool.java:64 | own-queue order is LIFO: a pop right after a push returns the pushed task and restores the table |
| `QueueTable.PushFrontConserves` | WorkStealingThreadPool.java:64 | a push adds exactly the pushed task to the multiset of queued tasks |
| `QueueTable.PollFirstConserves` | WorkStealingThreadPool.java:105-107 | a pop removes exactly the task it returns from the multiset of queued tasks |
| `QueueTable.SubmitAllFront` | Task.java:89-95 | after spawning `ts`, the target queue is `ts` reversed before its old contents, and no other queue changes |
| `QueueTable.SubmitRepeatStep` | Task.java:110-113 | one more re-submission of the parent lands on the front of the queue |
| `QueueTable.StealTakesBackHalf` | WorkStealingThreadPool.java:126-137 | the victim keeps its first `s - s/2` tasks; its back `s/2` tasks are the returned task followed by the thief's new front, in their order; the thief's old queue follows; no other queue changes |
| `QueueTable.VictimIsFirstInRotation` | WorkStealingThreadPool.java:110-140 | the victim is the first queue in the rotation order that holds more than one task; there is none exactly when every other queue holds at most one |
| `QueueTable.StealSparesSmallQueues` | WorkStealingThreadPool.java:127-128 | a queue of size at most one, other than the thief's own, is left unchanged by a steal |
| `QueueTable.StealFallsBackToOwnQueue` | WorkStealingThreadPool.java:113-120 | with nothing to steal, the steal is a pop of the thief's own queue |
| `QueueTable.StealFromConserves` | WorkStealingThreadPool.java:129-137 | a steal from a victim conserves the multiset of queued tasks, except for the one task returned |
| `QueueTable.StealConserves` | WorkStealingThreadPool.java:109-142 | every outcome of `stealTasks` conserves the multiset of queued tasks, except for the one task returned |
| `QueueTable.StealHandsOutQueuedTask` | WorkStealingThreadPool.java:109-142 | a task returned by a steal was queued before it |
| `QueueTable.PollHandsOutQueuedTask` | WorkStealingThreadPool.java:105-107 | a task returned by a pop was queued before it |
| `TaskProtocol.CountOther` | Task.java:90-92 | the number of given tasks other than the spawning task, which `spawn` adds to the spawned count; at most the number of given tasks |
| `TaskProtocol.HookResubmits` | Task.java:111 | the test of the per-child hook, run as the finished count goes from `finished` to `finished + 1`: it re-submits for the hook that brings the count to `spawned` and for every later one, and for none before |
| `TaskProtocol.Resubmissions` | Task.java:110-114 | how many of `m` consecutive hook runs re-submit the parent; at most `m` (closed form in `ResubmissionsCount`) |
| `TaskProtocol.CountOtherExcludesSelf` | Task.java:89-95 | spawning counts the length of `ts` minus the occurrences of the task itself; all of `ts` when the task is absent; none when `ts` holds only the task (self re-submission never inflates the count) |
| `TaskProtocol.ResubmissionsCount` | Task.java:110-114 | closed form of how many of `m` hook runs re-submit the parent, given `finished` and `spawned` |
| `TaskProtocol.ResubmittedOnceAfterLastChild` | Task.java:110-114 | K >= 1 spawned children, each firing once: no re-submission before the last hook, and exactly one after it |
| `TaskProtocol.ExtraHooksResubmitAgain` | Task.java:110-114 | hooks beyond the spawned count re-submit once more each, because the test is `>=` |
| `TaskProtocol.CountTrue` | Task.java:109-115 | the number of hooks that run at once is at most the number of tasks given |

## Left out

- Threads are left out: creating, starting and joining them in `start` and `shutdown` (WorkStealingThreadPool.java:80-103). `Start` only creates the processors. `Shutdown` only sets the stop flags and bumps the version.
- `VersionMonitor.java` is not part of this model. The version is a plain unbounded counter (`nat`), with no 32-bit wrap-around.
- The wait for a version change in `stealTasks` (WorkStealingThreadPool.java:119) is left out. The wait only ends when another thread bumps the version, and in a sequential model no other thread runs, so the real call would never return. The model drops the wait and pops the own queue at once, as if some other call had already bumped the version. The code waits for a change from the version at the time of the wait (`vm.await(vm.getVersion())`), not for a change from the snapshot `ver`. It also re-checks the own queue before waiting only when `ver` differs from the current version. Both branches end in a pop of the own queue, so the model gives `PollFirst` either way.
- The `InterruptedException` handlers are left out (WorkStealingThreadPool.java:121-123, Task.java:64-66). In `stealTasks`, an interrupt would send the scan round again.
- The `t == null` break in the steal loop is left out (WorkStealingThreadPool.java:131-135). It only matters when another thread empties the victim concurrently; sequentially every `pollLast` succeeds.
- The random queue choice of the external `submit` is left out (WorkStealingThreadPool.java:53). `Submit` takes the chosen index as the parameter `choice`, required to be in range.
- The `CountDownLatch` wait in `handle` is left out (Task.java:29, 63-67, 117). It waits for another thread's `whenResolved`. `Handle` instead requires a continuation to be stored on every call after the first.
- The busy-spin in `complete` is left out (Task.java:127-132). It waits for another thread to register a callback. `Complete` instead requires a callback to be present.
- `Deferred.java` is not part of this model. `Deferred` is modelled as a cell with a resolved flag, a value and one hook. Registering on a resolved cell runs the hook at once. Resolving runs the registered hook. A hook is a value (`ChildHook(parent)` or an outside callback), and the caller of `WhenResolved`/`Resolve` runs it. Resolving twice is treated as a contract violation, so `Resolve` requires an unresolved cell.
- User task bodies (`start()`, Task.java:36) and continuations (`Runnable`) are left out. They are abstract: `Handle` reports which one would run, as `RanStart` or `RanContinuation(c)`, and does not execute it.
- The result type `R` is fixed to `int`.
- The "shutdown from a worker thread" rejection is left out. It is documented (WorkStealingThreadPool.java:77-78) but not implemented.
- `watingTasks` is never initialised in the source (Processor.java:20), so `addToWaitingTasks` would throw there. The model gives the field plain map semantics, starting empty.
- `whenResolved` with an empty collection is modelled as written (Task.java:109-115). It registers no hook and never re-submits the parent: with `tasks == []`, `WhenResolved` fires nothing and leaves the queues as they were.
- Shutdown: requires `start` to have run. In the source, a `shutdown` before `start` throws a `NullPointerException` at `processors.size()` (WorkStealingThreadPool.java:81), because `processors` is only created in `start` (:94). The model does not model that exception.
- Step: requires a stored continuation only of the one task the round hands out (`NextTask`), since `handle` needs it only for the task it resumes (Task.java:60-68). In the source, a resumed task with no continuation blocks on its latch until some `whenResolved` call; the model has no blocking and makes that a precondition.
- `run` loops until `shouldStop` (Processor.java:46). The model gives one iteration, `Step`, which requires the flag unset. A caller loops on `Step` while `shouldStop` is false.
- The queues are `seq` values reassigned by the pool's methods. `ConcurrentLinkedDeque`, its in-place updates and its thread safety are left out.
