/** Workers: the per-worker `WorkerController` of scheduled.h, the loop condition of
    the worker routine, and where a worker thread can stand between two atomic
    steps of that routine. */
module Workers {
  import opened Tasks

  /** `int64_t`, the type of the idle timeout in milliseconds. */
  newtype int64 = x: int | -0x8000_0000_0000_0000 <= x < 0x8000_0000_0000_0000

  /** The idle timeout a fresh controller starts with, in milliseconds. */
  const DefaultIdleTimeout: int64 := 1000

  /** The abstract value of a controller. */
  datatype ControllerState = ControllerState(canceled: bool, idleTimeout: int64)

  /** The condition of the worker loop: the scheduler has live workers and has not
      been torn down, and this worker has not been told to stop. */
  predicate Continues(workCount: int, c: ControllerState)
  {
    workCount > 0 && !c.canceled
  }

  /** What an idle wait that timed out does to the worker's controller. */
  function AfterIdleTimeout(c: ControllerState): (r: ControllerState)
    ensures r.canceled && r.idleTimeout == c.idleTimeout
    ensures forall workCount: int :: !Continues(workCount, r)
  {
    c.(canceled := true)
  }

  /** The implicit worker's controller as `schedule_at` hands it to the thread it
      starts when no worker is live, AS WRITTEN: the same object, unchanged, so a
      flag set by an earlier idle timeout is still set. */
  function RespawnAsWritten(c: ControllerState): (r: ControllerState)
    ensures r.canceled == c.canceled && r.idleTimeout == c.idleTimeout
  {
    c
  }

  /** The same hand-over, corrected: the new thread starts with the flag cleared
      and the configured idle timeout kept. */
  function Respawn(c: ControllerState): (r: ControllerState)
    ensures !r.canceled && r.idleTimeout == c.idleTimeout
  {
    c.(canceled := false)
  }

  /** As written, once the implicit worker has left on an idle timeout, the thread
      started for the next submission (the counter was 0, so it is 1 once that
      thread has entered) fails the loop condition at once: nothing runs the task. */
  lemma RespawnAfterIdleExitStallsAsWritten(c: ControllerState)
    ensures !Continues(1, RespawnAsWritten(AfterIdleTimeout(c)))
  {
  }

  /** Corrected, the respawned worker enters the loop whatever state the
      controller was left in. */
  lemma RespawnAfterIdleExitRuns(c: ControllerState)
    ensures Continues(1, Respawn(AfterIdleTimeout(c)))
  {
  }

  /** `WorkerController`: one per worker; another thread may cancel it or change
      its idle timeout. */
  class WorkerController {
    var canceled: bool
    var idleTimeout: int64

    function State(): ControllerState
      reads this
    {
      ControllerState(canceled, idleTimeout)
    }

    constructor ()
      ensures State() == ControllerState(false, DefaultIdleTimeout)
    {
      canceled := false;
      idleTimeout := DefaultIdleTimeout;
    }

    /** True once the worker is stopping or stopped. */
    method IsCanceled() returns (b: bool)
      ensures b == canceled
    {
      b := canceled;
    }

    /** Ask the worker to stop after the task it is running, if any. */
    method Cancel()
      modifies this`canceled
      ensures State() == ControllerState(true, old(idleTimeout))
    {
      canceled := true;
    }

    method GetIdleTimeout() returns (ms: int64)
      ensures ms == idleTimeout
    {
      ms := idleTimeout;
    }

    method SetIdleTimeout(ms: int64)
      modifies this`idleTimeout
      ensures State() == ControllerState(old(canceled), ms)
    {
      idleTimeout := ms;
    }
  }

  /** How a condition-variable wait came back. */
  datatype WaitEnd = Notified | TimedOut

  /** Where a worker thread stands between two atomic steps of its loop. */
  datatype Phase =
    | Checking              // at the loop condition
    | IdleWaiting           // waiting on an empty queue, for at most the idle timeout
    | DueWaiting(head: TaskId)  // waiting for the deadline of the head it saw
    | Running(task: Task)   // holds a popped task, lock released, about to run it
    | Exited                // left the loop and gave back its count

  /** A measure that each step of a worker left alone makes smaller. */
  function Rank(p: Phase): nat
  {
    match p
    case Exited => 0
    case Running(_) => 1
    case IdleWaiting => 2
    case DueWaiting(_) => 2
    case Checking => 3
  }
}
