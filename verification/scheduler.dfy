/** The scheduling engine: the `Scheduled` class of scheduled.h with its lock and
    condition variable abstracted away. Every public operation, and every stretch
    of the worker routine that runs under the lock, is one atomic method; a worker
    thread's place in its loop is a `Phase` value that the caller threads through
    the worker methods. Waking sleeping workers and starting the implicit worker
    thread are returned as booleans instead of being performed. */
module Scheduling {
  import opened Tasks
  import opened TaskQueue
  import opened Workers
  import opened Lifecycle

  class Scheduler {
    /** The pending tasks, in deadline order. */
    var queue: seq<Task>
    /** Live workers; -1 once teardown has begun. */
    var workCount: int
    /** The controller of the implicit worker thread. */
    const implicitCtrl: WorkerController
    /** The identity the next task node gets. */
    var nextId: TaskId
    /** Tasks whose handle the caller still holds. */
    var held: set<TaskId>
    /** Tasks a worker has popped and not yet finished running. */
    var running: set<TaskId>
    /** Every callback invoked so far, in order. */
    var log: seq<Call>

    /** Every task node ever created, by identity, with its route out of the queue. */
    ghost var nodes: map<TaskId, Node>

    /** The scheduler's bookkeeping as a value. */
    ghost function Snapshot(): Ledger
      reads this`queue, this`nextId, this`held, this`running, this`log, this`nodes
    {
      Ledger(queue, nextId, held, running, log, nodes)
    }

    /** The object invariant: see `Inv`. */
    ghost predicate Valid()
      reads this`queue, this`nextId, this`held, this`running, this`log, this`nodes
    {
      Inv(Snapshot())
    }

    constructor ()
      ensures Valid() && fresh(implicitCtrl)
      ensures implicitCtrl.State() == ControllerState(false, DefaultIdleTimeout)
      ensures queue == [] && workCount == 0 && held == {} && running == {} && log == []
      ensures nodes == map[]
    {
      queue := [];
      workCount := 0;
      implicitCtrl := new WorkerController();
      nextId := 0;
      held, running, log := {}, {}, [];
      nodes := map[];
    }

    /** Submit a task for deadline `when`, AS WRITTEN. The new node gets a fresh
        identity and the caller gets its handle. Sleeping workers are woken when some
        worker is live and the task went in at the front; when no worker is live, the
        implicit worker is (re)started instead, on its controller as it stands. */
    method ScheduleAtAsWritten(when: int, payload: Address, hasClean: bool, hasThrow: bool)
      returns (t: Task, wake: bool, spawn: bool)
      requires Valid()
      modifies this`queue, this`nextId, this`held, this`nodes
      ensures Valid()
      ensures t == Task(old(nextId), when, payload, hasClean, hasThrow) && t.id !in old(nodes)
      ensures Snapshot() == Submitted(old(Snapshot()), t)
      ensures wake <==> old(workCount) > 0 && (old(queue) == [] || when < old(queue)[0].time)
      ensures spawn <==> workCount <= 0
      ensures implicitCtrl.State() == RespawnAsWritten(old(implicitCtrl.State()))
    {
      t := Task(nextId, when, payload, hasClean, hasThrow);
      ghost var l := Snapshot();
      FreshId(l);
      SubmittedKeepsInv(l, t);
      var k := UpperBound(queue, when);
      UpperBoundIsFront(queue, when);
      queue := Insert(queue, t);
      nextId := nextId + 1;
      nodes := nodes[t.id := Node(t, Queued)];
      held := held + {t.id};
      assert Snapshot() == Submitted(l, t);
      if workCount > 0 {
        wake, spawn := k == 0, false;
      } else {
        wake, spawn := false, true;
      }
    }

    /** Submit a task for deadline `when`, corrected: as above, but a (re)started
        implicit worker gets its controller's flag cleared, so it enters the loop. */
    method ScheduleAt(when: int, payload: Address, hasClean: bool, hasThrow: bool)
      returns (t: Task, wake: bool, spawn: bool)
      requires Valid()
      modifies this`queue, this`nextId, this`held, this`nodes, implicitCtrl`canceled
      ensures Valid()
      ensures t == Task(old(nextId), when, payload, hasClean, hasThrow) && t.id !in old(nodes)
      ensures Snapshot() == Submitted(old(Snapshot()), t)
      ensures wake <==> old(workCount) > 0 && (old(queue) == [] || when < old(queue)[0].time)
      ensures spawn <==> workCount <= 0
      ensures implicitCtrl.State() ==
        if spawn then Respawn(old(implicitCtrl.State())) else old(implicitCtrl.State())
    {
      t, wake, spawn := ScheduleAtAsWritten(when, payload, hasClean, hasThrow);
      if spawn {
        implicitCtrl.canceled := false;
      }
    }

    /** `schedule_now`: the deadline is the epoch, so the task is due at once. */
    method ScheduleNow(payload: Address, hasClean: bool, hasThrow: bool)
      returns (t: Task, wake: bool, spawn: bool)
      requires Valid()
      modifies this`queue, this`nextId, this`held, this`nodes, implicitCtrl`canceled
      ensures Valid()
      ensures t == Task(old(nextId), Epoch, payload, hasClean, hasThrow) && t.id !in old(nodes)
      ensures Snapshot() == Submitted(old(Snapshot()), t)
      ensures wake <==> old(workCount) > 0 && (old(queue) == [] || Epoch < old(queue)[0].time)
      ensures spawn <==> workCount <= 0
      ensures implicitCtrl.State() ==
        if spawn then Respawn(old(implicitCtrl.State())) else old(implicitCtrl.State())
    {
      t, wake, spawn := ScheduleAt(Epoch, payload, hasClean, hasThrow);
    }

    /** `schedule_for`: the deadline is the current time plus the delay. */
    method ScheduleFor(now: int, delay: int, payload: Address, hasClean: bool, hasThrow: bool)
      returns (t: Task, wake: bool, spawn: bool)
      requires Valid()
      modifies this`queue, this`nextId, this`held, this`nodes, implicitCtrl`canceled
      ensures Valid()
      ensures t == Task(old(nextId), now + delay, payload, hasClean, hasThrow) && t.id !in old(nodes)
      ensures Snapshot() == Submitted(old(Snapshot()), t)
      ensures wake <==> old(workCount) > 0 && (old(queue) == [] || now + delay < old(queue)[0].time)
      ensures spawn <==> workCount <= 0
      ensures implicitCtrl.State() ==
        if spawn then Respawn(old(implicitCtrl.State())) else old(implicitCtrl.State())
    {
      t, wake, spawn := ScheduleAt(now + delay, payload, hasClean, hasThrow);
    }

    /** The scan of `remove`: it walks the whole queue and keeps the last position
        whose node is `id`. */
    method Find(id: TaskId) returns (found: bool, index: nat)
      ensures found <==> id in Ids(queue)
      ensures found ==> index < |queue| && queue[index].id == id
      ensures found ==> forall j | index < j < |queue| :: queue[j].id != id
    {
      found, index := false, 0;
      var i := 0;
      while i < |queue|
        invariant 0 <= i <= |queue|
        invariant found <==> exists j | 0 <= j < i :: queue[j].id == id
        invariant found ==> index < i && queue[index].id == id
        invariant found ==> forall j | index < j < i :: queue[j].id != id
      {
        if queue[i].id == id {
          found, index := true, i;
        }
        i := i + 1;
      }
    }

    /** `remove`: erase task `id` if it is pending. Only that task leaves the queue;
        workers are woken when it was the head. Its node is destroyed here when
        nothing else owns it. */
    method Remove(id: TaskId) returns (found: bool, wake: bool)
      requires Valid()
      modifies this`queue, this`log, this`nodes
      ensures Valid()
      ensures found <==> id in Ids(old(queue))
      ensures found ==> Snapshot() == Withdrawn(old(Snapshot()), IndexOf(old(queue), id))
      ensures found ==> (wake <==> old(queue)[0].id == id)
      ensures !found ==> !wake && Snapshot() == old(Snapshot())
    {
      var index;
      found, index := Find(id);
      wake := false;
      if found {
        wake := index == 0;
        ghost var l := Snapshot();
        assert index == IndexOf(queue, id);
        WithdrawnKeepsInv(l, index);
        var t := queue[index];
        queue := Erase(queue, index);
        nodes := nodes[id := Node(t, Cancelled)];
        if id !in held {
          log := log + Destroy(t);
        }
        assert Snapshot() == Withdrawn(l, index);
      }
    }

    /** `TaskNode::cancel`, through the handle the caller holds: true exactly when the
        task was still pending, and then it is never run. A task a worker has
        already taken cannot be cancelled. */
    method Cancel(t: Task) returns (ok: bool)
      requires Valid() && t.id in held && t.id in nodes && nodes[t.id].task == t
      modifies this`queue, this`log, this`nodes
      ensures Valid()
      ensures ok <==> t.id in Ids(old(queue))
      ensures ok <==> old(nodes)[t.id].route == Queued
      ensures ok ==> Snapshot() == Withdrawn(old(Snapshot()), IndexOf(old(queue), t.id))
      ensures ok ==> nodes[t.id].route == Cancelled && log == old(log)
      ensures !ok ==> Snapshot() == old(Snapshot())
    {
      QueuedIffInQueue(Snapshot(), t.id);
      var wake;
      ok, wake := Remove(t.id);
    }

    /** The caller drops its handle; the node is destroyed when nothing else owns it. */
    method DropHandle(t: Task)
      requires Valid() && t.id in held && t.id in nodes && nodes[t.id].task == t
      modifies this`held, this`log
      ensures Valid()
      ensures Snapshot() == HandleDropped(old(Snapshot()), t)
    {
      ghost var l := Snapshot();
      HandleDroppedKeepsInv(l, t);
      held := held - {t.id};
      if t.id !in Ids(queue) && t.id !in running {
        log := log + Destroy(t);
      }
      assert Snapshot() == HandleDropped(l, t);
    }

    /** `join`: the calling thread becomes a worker with a fresh controller. */
    method Join() returns (ctrl: WorkerController, p: Phase)
      modifies this`workCount
      ensures fresh(ctrl)
      ensures ctrl.State() == ControllerState(false, DefaultIdleTimeout)
      ensures workCount == old(workCount) + 1 && p == Checking
    {
      ctrl := new WorkerController();
      p := Enter();
    }

    /** Entry to the worker routine: count this worker in. */
    method Enter() returns (p: Phase)
      modifies this`workCount
      ensures workCount == old(workCount) + 1 && p == Checking
    {
      workCount := workCount + 1;
      p := Checking;
    }

    /** The loop condition and the start of an iteration. A worker leaves, counting
        itself out, unless workers are live and its controller is not cancelled;
        otherwise it waits idle on an empty queue, or for the deadline of the head. */
    method Check(ctrl: WorkerController) returns (p: Phase)
      modifies this`workCount
      ensures !Continues(old(workCount), ctrl.State()) ==> p == Exited && workCount == old(workCount) - 1
      ensures Continues(old(workCount), ctrl.State()) ==>
        workCount == old(workCount) && p == if queue == [] then IdleWaiting else DueWaiting(queue[0].id)
    {
      if !(workCount > 0 && !ctrl.canceled) {
        workCount := workCount - 1;
        p := Exited;
      } else if queue == [] {
        p := IdleWaiting;
      } else {
        p := DueWaiting(queue[0].id);
      }
    }

    /** The idle wait ends, by a notification or by its timeout. A timeout cancels the worker's
        controller, and the worker goes back to the loop condition, which it then
        fails. Otherwise it re-checks the queue and, if a task has arrived, starts
        waiting for the head unless the scheduler is being torn down. */
    method IdleWake(ctrl: WorkerController, end: WaitEnd) returns (p: Phase)
      modifies ctrl`canceled
      ensures end == TimedOut ==>
        ctrl.State() == AfterIdleTimeout(old(ctrl.State())) && p == Checking
      ensures end == Notified ==> ctrl.State() == old(ctrl.State())
      ensures end == Notified ==>
        p == if queue == [] || workCount <= 0 then Checking else DueWaiting(queue[0].id)
    {
      if end == TimedOut {
        ctrl.canceled := true;
        p := Checking;
      } else if queue == [] || workCount <= 0 {
        p := Checking;
      } else {
        p := DueWaiting(queue[0].id);
      }
    }

    /** The wait for the deadline of task `head` ends at time `now`. If the head has
        changed or teardown has begun, the worker goes back to the loop condition;
        if the deadline has not come, it keeps waiting; otherwise it pops the head
        and holds it to run. Only the head is ever popped, and never early. */
    method DueWake(head: TaskId, now: int) returns (p: Phase)
      requires Valid()
      modifies this`queue, this`running, this`nodes
      ensures Valid()
      ensures !(old(queue) != [] && old(queue)[0].id == head && workCount > 0) ==>
        p == Checking && Snapshot() == old(Snapshot())
      ensures old(queue) != [] && old(queue)[0].id == head && workCount > 0 && now < old(queue)[0].time ==>
        p == DueWaiting(head) && Snapshot() == old(Snapshot())
      ensures old(queue) != [] && old(queue)[0].id == head && workCount > 0 && old(queue)[0].time <= now ==>
        p == Running(old(queue)[0]) && Snapshot() == Popped(old(Snapshot()))
      ensures p.Running? ==> p.task.time <= now && forall i | 0 <= i < |queue| :: p.task.time <= queue[i].time
      ensures p.Running? ==> nodes[p.task.id] == Node(p.task, Taken) && p.task.id in running && p.task.id !in old(running)
    {
      if queue == [] || queue[0].id != head || workCount <= 0 {
        p := Checking;
      } else if now < queue[0].time {
        p := DueWaiting(head);
      } else {
        ghost var l := Snapshot();
        PoppedKeepsInv(l);
        assert Tracked(l, queue[0].id);
        var t := queue[0];
        queue := queue[1..];
        running := running + {t.id};
        nodes := nodes[t.id := Node(t, Taken)];
        assert Snapshot() == Popped(l);
        p := Running(t);
      }
    }

    /** Run a popped task with the lock released, then let the worker's reference go:
        the node is destroyed here when the caller no longer holds its handle. */
    method Finish(t: Task, outcome: Outcome) returns (p: Phase)
      requires Valid() && t.id in running && t.id in nodes && nodes[t.id].task == t
      modifies this`running, this`log
      ensures Valid()
      ensures Snapshot() == Finished(old(Snapshot()), t, outcome)
      ensures p == Checking
    {
      ghost var l := Snapshot();
      FinishedKeepsInv(l, t, outcome);
      log := log + Run(t, outcome);
      running := running - {t.id};
      if t.id !in held {
        log := log + Destroy(t);
      }
      assert Snapshot() == Finished(l, t, outcome);
      p := Checking;
    }

    /** `~Scheduled`: tell every worker to stop, then drop the pending tasks; each one
        whose handle the caller no longer holds is destroyed. */
    method Teardown()
      requires Valid()
      modifies this`workCount, this`queue, this`log, this`nodes
      ensures Valid()
      ensures workCount == -1
      ensures Snapshot() == Cleared(old(Snapshot()))
    {
      ghost var l := Snapshot();
      ClearedKeepsInv(l);
      workCount := -1;
      log := log + ReleaseAll(queue, held);
      nodes := map id | id in nodes :: if nodes[id].route == Queued then nodes[id].(route := Discarded) else nodes[id];
      queue := [];
      assert Snapshot() == Cleared(l);
    }

    /** A worker whose wait for the head `head` ended at its deadline takes that
        task and runs it. */
    method TakeAndRun(head: TaskId, now: int, work: Task -> Outcome) returns (t: Task)
      requires Valid() && queue != [] && queue[0].id == head && workCount > 0 && queue[0].time <= now
      modifies this`queue, this`running, this`nodes, this`log
      ensures Valid()
      ensures t == old(queue)[0] && queue == old(queue)[1..] && running == old(running)
      ensures Snapshot() == Finished(Popped(old(Snapshot())), t, work(t))
      ensures Works(log) == Works(old(log)) + [Call(Work, t.id, t.payload)]
    {
      var p := DueWake(head, now);
      t := p.task;
      ghost var log0 := log;
      p := Finish(t, work(t));
      WorksRun(log0, t, work(t), if t.id in held then [] else Destroy(t));
    }

    /** One turn of the worker routine, for a worker that no other thread disturbs:
        every wait ends by its own timeout, at the head's deadline or after the idle
        timeout. The clock reads `now` when the turn begins and `later` when it ends.
        `ran` and `at` record the tasks run so far and when; they were the front of
        `pending`, the queue as it was when the worker started, and the queue holds
        the rest. A turn runs at most one task, the head, at `later`, and invokes its
        work callback and no other; a turn that runs none leaves the log as it was. */
    method StepAlone(ctrl: WorkerController, p: Phase, now: int, ghost pending: seq<Task>,
                     ran: seq<Task>, at: seq<int>, start: int,
                     work: Task -> Outcome)
      returns (next: Phase, later: int, ran': seq<Task>, at': seq<int>)
      requires Valid() && workCount >= 1 && p != Exited && !p.Running?
      requires p.DueWaiting? ==> queue != [] && queue[0].id == p.head
      requires p.IdleWaiting? ==> queue == [] && !ctrl.canceled
      requires ctrl.canceled ==> queue == [] && p.Checking?
      requires |ran| <= |pending| && ran == pending[..|ran|] && queue == pending[|ran|..]
      requires OnTime(ran, at, start, now)
      modifies this`workCount, this`queue, this`running, this`nodes, this`log, ctrl`canceled
      ensures Valid() && running == old(running)
      ensures |ran| <= |ran'| <= |ran| + 1
      ensures |ran'| == |ran| ==> log == old(log)
      ensures |ran'| == |ran| + 1 ==> Works(log) == Works(old(log)) + [Call(Work, ran'[|ran|].id, ran'[|ran|].payload)]

      ensures next != Exited ==> workCount == old(workCount)
      ensures next == Exited ==> workCount == old(workCount) - 1 && ctrl.canceled && queue == []
      ensures !next.Running?
      ensures next.DueWaiting? ==> queue != [] && queue[0].id == next.head
      ensures next.IdleWaiting? ==> queue == [] && !ctrl.canceled
      ensures ctrl.canceled ==> queue == [] && (next.Checking? || next.Exited?)
      ensures |ran'| <= |pending| && ran' == pending[..|ran'|] && queue == pending[|ran'|..]
      ensures OnTime(ran', at', start, later)
      ensures Measure(queue, ctrl.canceled, next) < Measure(old(queue), old(ctrl.canceled), p)
    {
      match p
      case Checking =>
        next := Check(ctrl);
        later, ran', at' := now, ran, at;
      case IdleWaiting =>
        var waited := if ctrl.idleTimeout < 0 then 0 else ctrl.idleTimeout as int;
        later, ran', at' := now + waited, ran, at;
        OnTimeLater(ran, at, start, now, later);
        next := IdleWake(ctrl, TimedOut);
      case DueWaiting(head) =>
        later, ran', at' := StepDue(head, now, pending, ran, at, start, work);
        next := Checking;
    }

    /** The turn of `StepAlone` that waits for the head: alone, the worker sleeps
        until the head's deadline, then takes the head and runs it. */
    method StepDue(head: TaskId, now: int, ghost pending: seq<Task>,
                   ran: seq<Task>, at: seq<int>, start: int, work: Task -> Outcome)
      returns (later: int, ran': seq<Task>, at': seq<int>)
      requires Valid() && workCount >= 1 && queue != [] && queue[0].id == head
      requires |ran| <= |pending| && ran == pending[..|ran|] && queue == pending[|ran|..]
      requires OnTime(ran, at, start, now)
      modifies this`queue, this`running, this`nodes, this`log
      ensures Valid() && running == old(running) && |queue| < |old(queue)|
      ensures |ran'| == |ran| + 1 && Works(log) == Works(old(log)) + [Call(Work, ran'[|ran|].id, ran'[|ran|].payload)]
      ensures |ran'| <= |pending| && ran' == pending[..|ran'|] && queue == pending[|ran'|..]
      ensures OnTime(ran', at', start, later)
    {
      later := if now < queue[0].time then queue[0].time else now;
      OnTimeLater(ran, at, start, now, later);
      var t := TakeAndRun(head, later, work);
      OnTimeAppend(ran, at, start, later, t);
      TakeOneMore(pending, |ran|);
      ran', at' := ran + [t], at + [later];
    }

    /** The worker routine run by a worker that no other thread disturbs, from a
        clock reading `start`. It runs exactly the tasks that were pending, in queue
        (deadline) order, each no earlier than its deadline, at times that never go
        back, and the work callbacks it invokes are exactly theirs, in that order;
        then the idle wait times out, the worker leaves and gives back its count. */
    method RunAlone(ctrl: WorkerController, start: int, work: Task -> Outcome)
      returns (ran: seq<Task>, at: seq<int>)
      requires Valid() && workCount >= 0 && !ctrl.canceled
      modifies this`workCount, this`queue, this`running, this`nodes, this`log, ctrl`canceled
      ensures Valid()
      ensures ran == old(queue) && |at| == |ran|
      ensures forall i | 0 <= i < |ran| :: start <= at[i] && ran[i].time <= at[i]
      ensures forall i, j | 0 <= i < j < |at| :: at[i] <= at[j]
      ensures Works(log) == Works(old(log)) + WorkCalls(ran)
      ensures queue == [] && workCount == old(workCount) && running == old(running) && ctrl.canceled
    {
      ran, at := [], [];
      var now := start;
      var p := Enter();
      while p != Exited
        invariant Valid() && running == old(running) && !p.Running?
        invariant p != Exited ==> workCount == old(workCount) + 1
        invariant p == Exited ==> workCount == old(workCount) && ctrl.canceled && queue == []
        invariant p.DueWaiting? ==> queue != [] && queue[0].id == p.head
        invariant p.IdleWaiting? ==> queue == [] && !ctrl.canceled
        invariant ctrl.canceled ==> queue == [] && (p.Checking? || p.Exited?)
        invariant |ran| <= |old(queue)| && ran == old(queue)[..|ran|] && queue == old(queue)[|ran|..]
        invariant OnTime(ran, at, start, now) && Works(log) == Works(old(log)) + WorkCalls(ran)
        decreases Measure(queue, ctrl.canceled, p)
      {
        ghost var log0, ran0 := log, ran;
        p, now, ran, at := StepAlone(ctrl, p, now, old(queue), ran, at, start, work);
        WorksStep(Works(old(log)), old(queue), ran0, ran, log0, log);
      }
      OnTimeAll(ran, at, start, now);
      assert ran == old(queue)[..|old(queue)|];
    }

    /** The stall of `schedule_at` as written. The implicit worker, started by an
        earlier submission, runs alone: it runs the queue empty and leaves on its idle
        timeout. A task is then submitted: a worker is started again, on the same
        controller, and at its first loop test it leaves at once. The task stays
        queued with no worker live to run it. */
    method IdleExitThenSubmitAsWritten(when: int, payload: Address, start: int,
                                       work: Task -> Outcome)
      returns (t: Task, spawn: bool, p: Phase)
      requires Valid() && workCount == 0 && !implicitCtrl.canceled
      modifies this`workCount, this`queue, this`nextId, this`held, this`running, this`nodes,
        this`log, implicitCtrl`canceled
      ensures spawn && p == Exited && workCount == 0 && queue == [t]
    {
      var ran, at := RunAlone(implicitCtrl, start, work);
      var wake;
      t, wake, spawn := ScheduleAtAsWritten(when, payload, false, false);
      p := Enter();
      p := Check(implicitCtrl);
    }

    /** The same sequence with the corrected `schedule_at`: the restarted worker
        passes its loop test and waits for the task's deadline. */
    method IdleExitThenSubmit(when: int, payload: Address, start: int, work: Task -> Outcome)
      returns (t: Task, spawn: bool, p: Phase)
      requires Valid() && workCount == 0 && !implicitCtrl.canceled
      modifies this`workCount, this`queue, this`nextId, this`held, this`running, this`nodes,
        this`log, implicitCtrl`canceled
      ensures spawn && p == DueWaiting(t.id) && workCount == 1 && queue == [t]
    {
      var ran, at := RunAlone(implicitCtrl, start, work);
      var wake;
      t, wake, spawn := ScheduleAt(when, payload, false, false);
      p := Enter();
      p := Check(implicitCtrl);
    }
  }

  /** The work invocations a worker turn adds come after those of the tasks it
      ran before. */
  lemma WorksStep(works: seq<Call>, pending: seq<Task>, ran: seq<Task>, ran': seq<Task>,
                  log: seq<Call>, log': seq<Call>)
    requires Works(log) == works + WorkCalls(ran)
    requires |ran| <= |ran'| <= |ran| + 1 && |ran'| <= |pending|
    requires ran == pending[..|ran|] && ran' == pending[..|ran'|]
    requires |ran'| == |ran| ==> log' == log
    requires |ran'| == |ran| + 1 ==> Works(log') == Works(log) + [Call(Work, ran'[|ran|].id, ran'[|ran|].payload)]
    ensures Works(log') == works + WorkCalls(ran')
  {
    if |ran'| == |ran| + 1 {
      var t := ran'[|ran|];
      TakeOneMore(pending, |ran|);
      WorkCallsSnoc(ran, t);
      SnocAssoc(works, WorkCalls(ran), Call(Work, t.id, t.payload));
      assert ran' == ran + [t];
      assert WorkCalls(ran') == WorkCalls(ran) + [Call(Work, t.id, t.payload)];
    } else {
      assert ran' == ran;
    }
  }

  /** Appending one element after a concatenation. */
  lemma SnocAssoc<T>(a: seq<T>, b: seq<T>, x: T)
    ensures a + b + [x] == a + (b + [x])
  {
  }

  /** One more task taken from the front of `s`. */
  lemma TakeOneMore<T>(s: seq<T>, k: nat)
    requires k < |s|
    ensures s[..k] + [s[k]] == s[..k + 1]
  {
  }

  /** A measure that every turn of a worker left alone makes smaller: first the
      number of pending tasks, then whether its controller is still live, then its
      place in the loop. */
  function Measure(queue: seq<Task>, canceled: bool, p: Phase): nat
  {
    |queue| * 8 + (if canceled then 0 else 4) + Rank(p)
  }

  /** `at` records when the tasks `ran` were run, in order: each no earlier than its
      deadline, none before `start`, the last no later than `now`, and each no
      earlier than the one before. */
  ghost predicate OnTime(ran: seq<Task>, at: seq<int>, start: int, now: int)
    decreases |ran|
  {
    && |at| == |ran| && start <= now
    && (ran != [] ==>
         && ran[|ran| - 1].time <= at[|at| - 1] <= now
         && OnTime(ran[..|ran| - 1], at[..|at| - 1], start, at[|at| - 1]))
  }

  /** The clock moving on keeps the record valid. */
  lemma OnTimeLater(ran: seq<Task>, at: seq<int>, start: int, now: int, later: int)
    requires OnTime(ran, at, start, now) && now <= later
    ensures OnTime(ran, at, start, later)
  {
  }

  /** Running a due task now extends the record. */
  lemma OnTimeAppend(ran: seq<Task>, at: seq<int>, start: int, now: int, t: Task)
    requires OnTime(ran, at, start, now) && t.time <= now
    ensures OnTime(ran + [t], at + [now], start, now)
  {
    assert (ran + [t])[..|ran|] == ran;
    assert (at + [now])[..|at|] == at;
  }

  /** What the record says about every run task. */
  lemma {:induction false} OnTimeAll(ran: seq<Task>, at: seq<int>, start: int, now: int)
    requires OnTime(ran, at, start, now)
    ensures |at| == |ran|
    ensures forall i | 0 <= i < |ran| :: start <= at[i] <= now && ran[i].time <= at[i]
    ensures forall i, j | 0 <= i < j < |at| :: at[i] <= at[j]
  {
    if ran != [] {
      var n := |ran| - 1;
      OnTimeAll(ran[..n], at[..n], start, at[n]);
      assert forall i | 0 <= i < n :: ran[..n][i] == ran[i] && at[..n][i] == at[i];
    }
  }
}
