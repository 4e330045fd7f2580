# A verified model of the `scheduled.h` scheduling engine

`scheduled.h` is a header-only C++ scheduler. A caller submits tasks with a
deadline (`schedule_now`, `schedule_for`, `schedule_at`). Each task has a work
callback, an optional failure callback and an optional cleanup callback, all of
which receive one payload pointer. The scheduler keeps the pending tasks in a
`std::multiset` ordered by deadline. Worker threads pop the head once its
deadline has passed and run it. A worker is either the implicit worker, which is
started on demand and leaves after an idle timeout, or a thread that donated
itself through `join`. A handle (`shared_ptr<TaskNode>`) lets the caller cancel a
pending task. A task node's destructor calls its cleanup callback. Destroying
the scheduler stops the workers and drops every pending task.

This project models that engine in Dafny:

- `tasks.dfy` (module `Tasks`) holds the task record and the callbacks that
  running and destroying a task invoke, recorded in a call log.
- `task_queue.dfy` (module `TaskQueue`) models the deadline-ordered multiset as a
  sorted sequence. It has `multiset::insert` at the upper bound of the equal
  range, `erase`, the scan of `remove`, and the `clear` at teardown.
- `workers.dfy` (module `Workers`) holds the `WorkerController` class, the loop
  condition of the worker routine, and the places where a worker thread can
  stand between two atomic steps (`Phase`).
- `lifecycle.dfy` (module `Lifecycle`) describes the scheduler's bookkeeping as
  a `Ledger` value. It has one step function per operation and the invariant
  that ties the call log to each node's ownership.
- `scheduler.dfy` (module `Scheduling`) is the `Scheduled` class: the state
  lives in fields, and the methods update them.

### How the concurrency is modelled

Most of the scheduler's state is touched only under its mutex: submission,
`remove`, the teardown's first block, and the worker routine between its waits.
The rest is touched without the lock: the final `set.clear()` of the destructor,
`WorkerController::cancel` and `setIdleTimeout`, the worker count's `++` and
`--` at the two ends of the worker routine, and the run of a popped task. The
model treats each public operation as one atomic method, and each stretch of
the worker routine between two waits, or between a wait and an unlocked access,
as one more; the unlocked accesses are thereby taken to be atomic. A worker thread's position in its
loop is a `Phase` value that the caller passes from one worker method to the
next. A wait on the condition variable becomes a parameter: the caller says how
the wait ended (timed out or notified) and what the clock reads.
The `notify_all` of submission and of `remove`, which depends on where the task
sits, and starting the implicit worker thread are returned as the booleans
`wake` and `spawn`. The destructor's `notify_all` (scheduled.h:152) is
unconditional, so `Teardown` returns no boolean for it.

### How ownership is modelled

A node's ownership (`shared_ptr`) is modelled by three owners:

- the caller's handle, in `held`;
- a worker that has popped the task, in `running`;
- the queue itself.

A node is destroyed, and its cleanup callback runs, at the step that removes its
last owner.

### Order among equal deadlines

The queue is a `std::multiset`, whose `insert` places a new element after the
elements that compare equal to it. Tasks with equal deadlines are therefore
popped by workers in submission order; `remove` and the teardown's `clear` take
tasks out whatever their position. The model inserts at the upper bound of the
equal range (`TaskQueue.UpperBound`), and several of the proved properties rest
on that placement: the wake condition of `ScheduleAt`, `ScheduleNow` and
`ScheduleFor` is a strictly earlier deadline than the old head's, `TaskQueue.Insert`
puts the new task at `UpperBound(q, t.time)`, and `TaskQueue.EraseInsert`
depends on where the task went in.

## Model

| member | source | states |
|---|---|---|
| Tasks.Run | scheduled.h:57-67 | running a task calls the work callback once with the payload, then the failure callback with the same payload exactly when the work threw and a failure callback is set; it never calls the cleanup callback |
| Tasks.Destroy | scheduled.h:45-49 | destroying a node calls its cleanup callback once with its payload when one is set, and calls nothing otherwise |
| TaskQueue.BeforeIsStrictWeakOrder | scheduled.h:86-93 | comparing by deadline alone is irreflexive and transitive, and incomparability is transitive, as `std::multiset` requires |
| TaskQueue.UpperBound | scheduled.h:299 | the insert position lies after every task whose deadline is not later and before every task whose deadline is later |
| TaskQueue.UpperBoundIsFront | scheduled.h:299-303 | a new task becomes the head if and only if the queue was empty or every pending deadline is later |
| TaskQueue.Insert | scheduled.h:299 | inserting adds exactly the new task (multiset equality), puts it at its upper bound, and keeps the queue sorted |
| TaskQueue.EraseInsert | scheduled.h:299 | erasing the just-inserted task gives back the queue as it was, so no pending task moves or changes |
| TaskQueue.InsertIds | scheduled.h:299 | the identities in the queue after an insert are the old ones plus the new one |
| TaskQueue.InsertDistinct | scheduled.h:299 | inserting a node not already queued keeps every node in the queue at most once |
| TaskQueue.Erase | scheduled.h:338 | erasing removes exactly the element at the given position and keeps the others in order |
| TaskQueue.EraseIds | scheduled.h:338 | after an erase the identities are the old ones minus the erased one, and still distinct |
| TaskQueue.EraseSorted | scheduled.h:338 | erasing any element keeps the queue in deadline order |
| TaskQueue.IndexOf | scheduled.h:325-332 | gives a position holding the node, and the only such position when nodes are distinct |
| TaskQueue.ReleaseAll | scheduled.h:156 | clearing the queue calls only cleanup callbacks, each for a queued node the caller no longer holds, with that node's payload |
| TaskQueue.ReleaseAllCounts | scheduled.h:156 | clearing destroys each unheld queued node exactly once: its cleanup callback runs once if set and never otherwise |
| Workers.AfterIdleTimeout | scheduled.h:364-368 | an idle wait that times out cancels the worker, so the loop condition fails whatever the worker count |
| Workers.RespawnAsWritten | scheduled.h:305-314 | as written, the implicit worker's controller is handed to the new thread unchanged, including its cancelled flag |
| Workers.Respawn | scheduled.h:305-314 | corrected: the new thread starts with the flag cleared and the idle timeout kept |
| Workers.RespawnAfterIdleExitStallsAsWritten | scheduled.h:305-314 | as written, the thread restarted after an idle exit fails the loop condition at once |
| Workers.RespawnAfterIdleExitRuns | scheduled.h:305-314 | corrected, the restarted thread enters the loop |
| Workers.WorkerController.constructor | scheduled.h:129-138 | a fresh controller is not cancelled and has the default idle timeout of 1000 ms |
| Workers.WorkerController.IsCanceled | scheduled.h:101-104 | reports the cancelled flag |
| Workers.WorkerController.Cancel | scheduled.h:108-112 | sets the cancelled flag and leaves the idle timeout alone |
| Workers.WorkerController.GetIdleTimeout | scheduled.h:114-117 | reports the idle timeout |
| Workers.WorkerController.SetIdleTimeout | scheduled.h:123-126 | sets the idle timeout to the given value, which a later get returns, and leaves the flag alone |
| Lifecycle.QueueOwnedInsert | scheduled.h:299 | inserting a new node keeps the queue sorted, distinct, and made of queued nodes |
| Lifecycle.QueueOwnedErase | scheduled.h:338 | erasing a node, and changing its route, keeps the rest of the queue owned |
| Lifecycle.QueuedIffInQueue | scheduled.h:52-55 | under the invariant, a node is in the queue if and only if its route is `Queued` |
| Lifecycle.FreshId | scheduled.h:296-297 | a newly created node has an identity that no node ever created has |
| Lifecycle.SubmittedKeepsInv | scheduled.h:289-317 | submitting a task keeps the invariant |
| Lifecycle.WithdrawnKeepsInv | scheduled.h:333-339 | removing a pending task keeps the invariant, and its cleanup runs at once when the caller no longer holds it |
| Lifecycle.HandleDroppedKeepsInv | scheduled.h:45-49 | dropping the caller's handle keeps the invariant, and destroys the node when nothing else owns it |
| Lifecycle.PoppedKeepsInv | scheduled.h:379-380 | a worker taking the head keeps the invariant |
| Lifecycle.FinishedKeepsInv | scheduled.h:379-382 | running a held task and letting it go keeps the invariant: work has run once, and cleanup runs when the handle is gone |
| Lifecycle.ClearedKeepsInv | scheduled.h:147-157 | teardown's clear keeps the invariant |
| Lifecycle.AllDestroyedAfterTeardown | scheduled.h:147-157 | once the queue is cleared and nobody holds a task, every task ever submitted has had its cleanup callback run exactly once if set, whatever its route |
| Lifecycle.CancelledNeverRuns | scheduled.h:52-55 | a cancelled task's work callback never runs, and a task that ran was taken by a worker |
| Scheduling.Scheduler.constructor | scheduled.h:142-145 | a new scheduler has no tasks and no workers, and a fresh implicit-worker controller |
| Scheduling.Scheduler.ScheduleAtAsWritten | scheduled.h:289-317 | a new node with a fresh identity joins the queue at its upper bound, and nothing else changes; wake exactly when workers are live and the task became the head; spawn exactly when none is live, on the implicit controller as it stands |
| Scheduling.Scheduler.ScheduleAt | scheduled.h:289-317 | the same, except that a (re)started implicit worker gets its controller's cancelled flag cleared |
| Scheduling.Scheduler.ScheduleNow | scheduled.h:270-276 | `schedule_at` with the epoch as deadline |
| Scheduling.Scheduler.ScheduleFor | scheduled.h:278-286 | `schedule_at` with the current time plus the delay as deadline |
| Scheduling.Scheduler.Find | scheduled.h:323-332 | the scan finds the node if and only if it is queued, and keeps its last position |
| Scheduling.Scheduler.Remove | scheduled.h:320-341 | true if and only if the node was pending; then exactly that node leaves the queue, with wake exactly when it was the head; otherwise nothing changes |
| Scheduling.Scheduler.Cancel | scheduled.h:52-55 | true if and only if the task was still pending; then it is marked cancelled and no callback runs yet; a task already taken, cancelled or discarded gives false and changes nothing |
| Scheduling.Scheduler.DropHandle | scheduled.h:45-49 | the caller's handle goes, and the node is destroyed if the queue and the workers no longer hold it |
| Scheduling.Scheduler.Join | scheduled.h:346-353 | the calling thread becomes a worker with a fresh controller and is counted in |
| Scheduling.Scheduler.Enter | scheduled.h:358 | a worker entering the routine increments the worker count |
| Scheduling.Scheduler.Check | scheduled.h:359-362 | the loop condition: the worker leaves and counts itself out unless workers are live and it is not cancelled; otherwise it waits idle on an empty queue or on the head |
| Scheduling.Scheduler.IdleWake | scheduled.h:362-371 | a timed-out idle wait cancels the worker; a notified one re-checks the queue |
| Scheduling.Scheduler.DueWake | scheduled.h:372-380 | the worker pops only the head it waited for, never before its deadline and never after teardown; otherwise it goes back to the loop or keeps waiting, with nothing changed |
| Scheduling.Scheduler.Finish | scheduled.h:381-382 | runs the taken task and lets the worker's reference go |
| Scheduling.Scheduler.Teardown | scheduled.h:147-157 | sets the worker count to -1 and clears the queue, destroying every pending task whose handle is gone |
| Scheduling.Scheduler.TakeAndRun | scheduled.h:372-382 | a worker whose wait for the head reached the deadline takes exactly that task and runs it: the bookkeeping is that of popping the head and then finishing it, and the log gains exactly that task's work invocation |
| Scheduling.Scheduler.StepDue | scheduled.h:372-382 | an undisturbed wait for the head ends at its deadline or later; the head is run then, appended to the run record, and its work invocation is the only one the log gains |
| Scheduling.Scheduler.StepAlone | scheduled.h:359-383 | one turn of an undisturbed worker keeps the loop's bookkeeping, runs at most one task, the head, not before its deadline, adds exactly its work invocation to the log (none and no log change when it runs nothing), and makes progress |
| Scheduling.Scheduler.RunAlone | scheduled.h:356-385 | an undisturbed worker runs exactly the pending tasks, in queue order, each no earlier than its deadline, at times that never go back, and the work invocations the log gains are exactly theirs in that order; it then leaves on an idle timeout and gives its count back |
| Scheduling.Scheduler.IdleExitThenSubmitAsWritten | scheduled.h:305-314 | as written, after the implicit worker has left on an idle timeout, a new submission restarts it (`spawn` holds) on the cancelled controller: it fails its first loop test and leaves, with the task still queued and no worker live |
| Scheduling.Scheduler.IdleExitThenSubmit | scheduled.h:305-314 | with the flag cleared on restart (`spawn` holds), the restarted worker passes its loop test and waits for the new task |
| Tasks.WorksRun | scheduled.h:57-67 | running a task and then destroying nodes adds exactly one work invocation, the task's, whether or not the work callback fails |
| Scheduling.OnTimeAll | scheduled.h:373-380 | the run record gives every task a start time no earlier than its deadline, with the times in order |

## Left out

- Threads, the mutex and the condition variable are not modelled. Each public operation and each lock-held stretch of `worker_routine` is one atomic step. The position-dependent `notify_all` of submission and removal, and starting a thread, are returned as booleans.
- Interleavings of several workers are not explored. They are whatever order a caller gives to the atomic worker methods. Only the undisturbed single worker (`RunAlone`) is proved end to end.
- The clock (`ClockType::now()`) and `std::chrono` are not modelled. Time is an integer that the caller supplies.
- `int64` overflow of `now + delay` in `schedule_for` is not modelled; deadlines are unbounded integers.
- The templated `schedule_*` overloads that copy the payload to the heap (`deleteAnything<T>`, `callback_cast`) are not modelled. They are type erasure around the `void*` overload that is modelled. Callbacks are presence flags, and what the work callback does is an `Outcome`.
- The wait predicate compares a saved iterator with `set.begin()`. After the head has been erased, that iterator dangles. The model compares the identity of the head instead.
- A failure callback that itself throws (scheduled.h:64-65) is not modelled; the model's `Run` never fails. In the code the exception leaves `worker_routine`. On the implicit worker's `std::thread` (scheduled.h:313) that calls `std::terminate` and ends the whole program. On a worker donated through `join` (scheduled.h:346-353) it propagates out of `join` to its caller and skips `--workCount` (scheduled.h:384), so the scheduler keeps counting a worker that no longer runs and `schedule_at` (scheduled.h:300) never starts the implicit worker again.
- `workCount` is read without the lock in the loop condition. That data race is not modelled; the condition is read atomically.
- The other accesses made without the lock are taken to be atomic steps: `set.clear()` at scheduled.h:156, after the lock scope of the destructor closes; `WorkerController::cancel` (scheduled.h:110) and `setIdleTimeout` (scheduled.h:125); `++workCount` (scheduled.h:358) and `--workCount` (scheduled.h:384). Races between them and the locked steps are not modelled.
- Scheduling.Scheduler.ScheduleAt: applies the correction from "## Findings" (the restarted implicit worker's `canceled` flag is cleared); the code as written is `ScheduleAtAsWritten`. `ScheduleNow` and `ScheduleFor` go through the corrected `ScheduleAt`.
- Node identity: the model numbers nodes and never reuses a number, while the code identifies a node by the address `new TaskNode` returns (scheduled.h:297), which can be reused once an earlier node is freed. This only matters for a call of the public `remove(TaskNode const*)` (scheduled.h:320) with a pointer to a destroyed node, which the model does not capture.
- Joining or detaching the previous implicit thread (`join`, `detach`, `delete work_thread`) is not modelled. `spawn` only says that a thread is started.
- Scheduling.Scheduler.Cancel: is accepted after `Teardown` and then returns false with nothing changed. In the code, `cancel` after the scheduler is destroyed calls `remove` on a destroyed object (scheduled.h:54), which is undefined behaviour; the model does not capture that. `DropHandle` after `Teardown` destroys the node, as the code does, since the node's destructor (scheduled.h:45-49) does not touch the scheduler.
- Scheduling.Scheduler.Cancel: does not return the `wake` result of the underlying `remove`. Cancel is `remove(this)`, and `Remove` states that result.
- Workers.WorkerController.Cancel: does not return the wake-up that `cancel` signals with `notify_all`.
- Scheduling.Scheduler.Teardown: does not return the wake-up that the destructor signals with `notify_all` (scheduled.h:152); that signal is unconditional.
- The `examples/` programs are demos that print and sleep. They are not part of this model.

## Findings

| source | as written | input that shows it | evidently intended | confidence | as-written member | corrected member |
|---|---|---|---|---|---|---|
| scheduled.h:305-314 | when no worker is live, `schedule_at` starts a new thread on the same `work_controller`, whose `canceled` flag an earlier idle timeout set (line 367) and nothing clears | submit a task, let the implicit worker run it and then time out idle, then submit another task: the new thread finds `canceled` set, leaves at once, and the task never runs | the restarted implicit worker starts with `canceled` cleared | not executed | Scheduling.Scheduler.IdleExitThenSubmitAsWritten, Workers.RespawnAfterIdleExitStallsAsWritten | Scheduling.Scheduler.IdleExitThenSubmit, Workers.RespawnAfterIdleExitRuns |
