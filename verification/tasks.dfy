/** Tasks of the scheduler (the TaskNode class of scheduled.h) and the callbacks
    that running or destroying a task invokes. */
module Tasks {

  /** The opaque payload pointer a task owns (`void *pData`). */
  type Address = int

  /** The identity of a task node: what the handle returned to the caller points at. */
  type TaskId = nat

  /** A scheduled task: its identity, its deadline, its payload, and whether the
      optional cleanup and failure callbacks were given. The work callback is
      always present; what it does is supplied as an `Outcome` when it runs. */
  datatype Task = Task(id: TaskId, time: int, payload: Address, hasClean: bool, hasThrow: bool)

  /** How the work callback ended: it returned, or it threw. */
  datatype Outcome = Returned | Threw

  /** The three callbacks a task may invoke. */
  datatype Callback = Work | OnThrow | Cleanup

  /** One callback invocation: which callback, for which task, with which payload. */
  datatype Call = Call(callback: Callback, task: TaskId, data: Address)

  /** The deadline `schedule_now` uses: the clock's epoch, a time point that has
      always passed. */
  const Epoch: int := 0

  /** How often `log` shows callback `cb` invoked for task `t` with its payload. */
  function Count(log: seq<Call>, cb: Callback, t: Task): nat
  {
    multiset(log)[Call(cb, t.id, t.payload)]
  }

  /** Counting over a log extended by more calls. */
  lemma CountAppend(log: seq<Call>, calls: seq<Call>, cb: Callback, t: Task)
    ensures Count(log + calls, cb, t) == Count(log, cb, t) + Count(calls, cb, t)
    ensures Call(cb, t.id, t.payload) !in calls ==> Count(log + calls, cb, t) == Count(log, cb, t)
  {
    assert multiset(log + calls) == multiset(log) + multiset(calls);
  }

  /** `TaskNode::run`: call the work callback with the payload; if it throws, call
      the failure callback with the same payload when one is set, and otherwise
      absorb the failure. Either way `run` returns normally. */
  function Run(t: Task, outcome: Outcome): (calls: seq<Call>)
    ensures |calls| > 0 && calls[0] == Call(Work, t.id, t.payload)
    ensures forall c | c in calls :: c.task == t.id && c.data == t.payload && c.callback != Cleanup
    ensures Count(calls, Work, t) == 1
    ensures Count(calls, OnThrow, t) == if outcome == Threw && t.hasThrow then 1 else 0
  {
    [Call(Work, t.id, t.payload)]
    + if outcome == Threw && t.hasThrow then [Call(OnThrow, t.id, t.payload)] else []
  }

  /** `TaskNode::~TaskNode`: the cleanup callback receives the payload, if it was set. */
  function Destroy(t: Task): (calls: seq<Call>)
    ensures forall c | c in calls :: c == Call(Cleanup, t.id, t.payload)
    ensures Count(calls, Cleanup, t) == if t.hasClean then 1 else 0
  {
    if t.hasClean then [Call(Cleanup, t.id, t.payload)] else []
  }

  /** The work-callback invocations in `log`, in order. */
  function Works(log: seq<Call>): (r: seq<Call>)
    ensures |r| <= |log|
    ensures forall c | c in r :: c.callback == Work
    ensures (forall c | c in log :: c.callback != Work) ==> r == []
  {
    if log == [] then []
    else (if log[0].callback == Work then [log[0]] else []) + Works(log[1..])
  }

  /** Filtering a log extended by more calls. */
  lemma {:induction false} WorksAppend(log: seq<Call>, calls: seq<Call>)
    ensures Works(log + calls) == Works(log) + Works(calls)
  {
    if log == [] {
      assert log + calls == calls;
    } else {
      var head := if log[0].callback == Work then [log[0]] else [];
      assert (log + calls)[0] == log[0];
      assert (log + calls)[1..] == log[1..] + calls;
      WorksAppend(log[1..], calls);
      var a, b := Works(log[1..]), Works(calls);
      assert head + (a + b) == head + a + b;
    }
  }

  /** Running a task and then destroying nodes adds exactly one work invocation:
      that task's, with its payload. */
  lemma WorksRun(log: seq<Call>, t: Task, outcome: Outcome, rest: seq<Call>)
    requires forall c | c in rest :: c.callback == Cleanup
    ensures Works(log + Run(t, outcome) + rest) == Works(log) + [Call(Work, t.id, t.payload)]
  {
    var calls := Run(t, outcome);
    WorksAppend(log + calls, rest);
    WorksAppend(log, calls);
    assert Works(calls) == [Call(Work, t.id, t.payload)] by {
      if outcome == Threw && t.hasThrow {
        assert calls[..1] == [Call(Work, t.id, t.payload)];
      } else {
        assert calls == [Call(Work, t.id, t.payload)];
      }
    }
  }

  /** The work invocations that running the tasks `ran`, in order, makes. */
  function WorkCalls(ran: seq<Task>): (r: seq<Call>)
    ensures |r| == |ran|
    ensures forall i | 0 <= i < |ran| :: r[i] == Call(Work, ran[i].id, ran[i].payload)
  {
    seq(|ran|, i requires 0 <= i < |ran| => Call(Work, ran[i].id, ran[i].payload))
  }

  /** The work invocations of one more task come after the others'. */
  lemma WorkCallsSnoc(ran: seq<Task>, t: Task)
    ensures WorkCalls(ran + [t]) == WorkCalls(ran) + [Call(Work, t.id, t.payload)]
  {
    assert (ran + [t])[..|ran|] == ran;
  }
}
