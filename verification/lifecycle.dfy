/** Task lifecycle accounting: how the log of callback invocations must relate to
    which task nodes have been destroyed and which tasks have been run. */
module Lifecycle {
  import opened Tasks
  import opened TaskQueue

  /** The callbacks of task `t` recorded in `log` match its lifecycle: its cleanup
      callback has run once if its node has been destroyed (`released`) and was given
      a cleanup callback, and never otherwise; its work callback has run once if a
      worker has finished it (`ran`), and never otherwise; its failure callback has
      run at most as often as its work callback. */
  ghost predicate Accounted(log: seq<Call>, t: Task, released: bool, ran: bool)
  {
    && Count(log, Cleanup, t) == (if released && t.hasClean then 1 else 0)
    && Count(log, Work, t) == (if ran then 1 else 0)
    && Count(log, OnThrow, t) <= Count(log, Work, t)
  }

  /** Calls for task `t` alone leave the counts of every other task as they were. */
  lemma CountOther(log: seq<Call>, calls: seq<Call>, t: Task, u: Task, cb: Callback)
    requires forall c | c in calls :: c.task == t.id
    requires u.id != t.id
    ensures Count(log + calls, cb, u) == Count(log, cb, u)
  {
    assert Call(cb, u.id, u.payload) !in calls;
    CountAppend(log, calls, cb, u);
  }

  /** Calls for task `t` alone leave the accounting of every other task as it was. */
  lemma AccountedOther(log: seq<Call>, calls: seq<Call>, t: Task, u: Task, released: bool, ran: bool)
    requires Accounted(log, u, released, ran)
    requires forall c | c in calls :: c.task == t.id
    requires u.id != t.id
    ensures Accounted(log + calls, u, released, ran)
  {
    CountOther(log, calls, t, u, Cleanup);
    CountOther(log, calls, t, u, Work);
    CountOther(log, calls, t, u, OnThrow);
  }

  /** How a task node left the queue, if it has: taken by a worker, cancelled
      through `remove`, or discarded when the scheduler was torn down. */
  datatype Route = Queued | Taken | Cancelled | Discarded

  /** A task node ever created, and where it stands. */
  datatype Node = Node(task: Task, route: Route)

  /** The bookkeeping of a scheduler, apart from its workers: the queue, the next
      identity, the handles callers hold, the tasks workers hold, the callback log,
      and (for the proofs) every node ever created, by identity. */
  datatype Ledger = Ledger(
    queue: seq<Task>, nextId: TaskId, held: set<TaskId>, running: set<TaskId>, log: seq<Call>,
    nodes: map<TaskId, Node>)

  /** Node `id` is consistent with the rest of the ledger: its identity is fresh
      below `nextId`, it is queued only while it is in the queue, a worker holds it
      only after taking it, and its callbacks are `Accounted` for. A node has been
      destroyed when nothing owns it any more: it is out of the queue, no worker
      holds it and the caller has dropped its handle. A task has run when a worker
      took it and has finished with it. */
  ghost predicate Tracked(l: Ledger, id: TaskId)
    requires id in l.nodes
  {
    var n := l.nodes[id];
    && n.task.id == id && id < l.nextId
    && (n.route == Queued ==> id in Ids(l.queue))
    && (id in l.running ==> n.route == Taken)
    && Accounted(l.log, n.task, n.route != Queued && id !in l.running && id !in l.held,
                 n.route == Taken && id !in l.running)
  }

  /** Every call in the log was made for a known node, with that node's payload. */
  ghost predicate LogKnown(log: seq<Call>, nodes: map<TaskId, Node>)
  {
    forall c | c in log :: c.task in nodes && c.data == nodes[c.task].task.payload
  }

  /** The queue is in deadline order and holds queued nodes, once each. */
  ghost predicate QueueOwned(q: seq<Task>, nodes: map<TaskId, Node>)
  {
    && Sorted(q) && DistinctIds(q)
    && (forall i | 0 <= i < |q| :: q[i].id in nodes && nodes[q[i].id] == Node(q[i], Queued))
  }

  /** Every node ever created is `Tracked`. */
  ghost predicate AllTracked(l: Ledger)
  {
    forall id {:trigger Tracked(l, id)} | id in l.nodes :: Tracked(l, id)
  }

  /** The scheduler's invariant: the queue is `QueueOwned`; workers and the caller
      hold known nodes; every callback was invoked for a known node with that
      node's payload; every node is `Tracked`. */
  ghost predicate Inv(l: Ledger)
  {
    && QueueOwned(l.queue, l.nodes)
    && l.running <= l.nodes.Keys && l.held <= l.nodes.Keys
    && LogKnown(l.log, l.nodes)
    && AllTracked(l)
  }

  /** `schedule_at`: a new node, whose handle goes to the caller, joins the queue. */
  function Submitted(l: Ledger, t: Task): Ledger
    requires Sorted(l.queue)
  {
    l.(queue := Insert(l.queue, t), nextId := l.nextId + 1, held := l.held + {t.id},
       nodes := l.nodes[t.id := Node(t, Queued)])
  }

  /** `remove`, once the task was found at position `i`: it leaves the queue as
      cancelled, and is destroyed unless the caller holds its handle. */
  function Withdrawn(l: Ledger, i: nat): Ledger
    requires i < |l.queue|
  {
    var t := l.queue[i];
    l.(queue := Erase(l.queue, i), nodes := l.nodes[t.id := Node(t, Cancelled)],
       log := l.log + if t.id in l.held then [] else Destroy(t))
  }

  /** The caller drops its handle; the node is destroyed if nothing else owns it. */
  function HandleDropped(l: Ledger, t: Task): Ledger
  {
    l.(held := l.held - {t.id},
       log := l.log + if t.id in Ids(l.queue) || t.id in l.running then [] else Destroy(t))
  }

  /** A worker takes the head of the queue. */
  function Popped(l: Ledger): Ledger
    requires l.queue != []
  {
    var t := l.queue[0];
    l.(queue := l.queue[1..], running := l.running + {t.id}, nodes := l.nodes[t.id := Node(t, Taken)])
  }

  /** A worker runs the task it holds and lets its reference go. */
  function Finished(l: Ledger, t: Task, outcome: Outcome): Ledger
  {
    l.(running := l.running - {t.id},
       log := l.log + Run(t, outcome) + if t.id in l.held then [] else Destroy(t))
  }

  /** Teardown empties the queue; the nodes the caller no longer holds are destroyed. */
  function Cleared(l: Ledger): Ledger
  {
    l.(queue := [], log := l.log + ReleaseAll(l.queue, l.held),
       nodes := map id | id in l.nodes :: if l.nodes[id].route == Queued then l.nodes[id].(route := Discarded) else l.nodes[id])
  }

  /** Inserting a new node keeps the queue owned. */
  lemma QueueOwnedInsert(q: seq<Task>, nodes: map<TaskId, Node>, t: Task)
    requires QueueOwned(q, nodes) && t.id !in nodes
    ensures QueueOwned(Insert(q, t), nodes[t.id := Node(t, Queued)])
    ensures Ids(Insert(q, t)) == Ids(q) + {t.id}
  {
    InsertIds(q, t);
    InsertDistinct(q, t);
    var r := Insert(q, t);
    forall i | 0 <= i < |r|
      ensures r[i].id in nodes[t.id := Node(t, Queued)] && nodes[t.id := Node(t, Queued)][r[i].id] == Node(r[i], Queued)
    {
      assert r[i] in multiset(q) + multiset{t};
      if r[i] != t {
        assert r[i] in q;
      }
    }
  }

  /** Erasing a node from the queue and giving it another route keeps the queue owned. */
  lemma QueueOwnedErase(q: seq<Task>, nodes: map<TaskId, Node>, i: nat, route: Route)
    requires QueueOwned(q, nodes) && i < |q|
    ensures QueueOwned(Erase(q, i), nodes[q[i].id := Node(q[i], route)])
    ensures Ids(Erase(q, i)) == Ids(q) - {q[i].id}
  {
    EraseSorted(q, i);
    EraseIds(q, i);
    var r := Erase(q, i);
    forall j | 0 <= j < |r|
      ensures r[j].id in nodes[q[i].id := Node(q[i], route)] && nodes[q[i].id := Node(q[i], route)][r[j].id] == Node(r[j], Queued)
    {
      if j < i { assert r[j] == q[j]; } else { assert r[j] == q[j + 1]; }
    }
  }

  /** Under the invariant a node is queued exactly when it is in the queue. */
  lemma QueuedIffInQueue(l: Ledger, id: TaskId)
    requires Inv(l) && id in l.nodes
    ensures l.nodes[id].route == Queued <==> id in Ids(l.queue)
  {
    assert Tracked(l, id);
  }

  /** The next identity is fresh: no node has it yet. */
  lemma FreshId(l: Ledger)
    requires AllTracked(l)
    ensures l.nextId !in l.nodes
  {
    forall id | id in l.nodes
      ensures id < l.nextId
    {
      assert Tracked(l, id);
    }
  }

  /** Appending calls for known nodes, and keeping every node's task, keeps the
      log's calls known. */
  lemma LogKnownAppend(l: Ledger, l': Ledger, calls: seq<Call>)
    requires LogKnown(l.log, l.nodes)
    requires forall id | id in l.nodes :: id in l'.nodes && l'.nodes[id].task == l.nodes[id].task
    requires forall c | c in calls :: c.task in l'.nodes && c.data == l'.nodes[c.task].task.payload
    requires l'.log == l.log + calls
    ensures LogKnown(l'.log, l'.nodes)
  {
  }

  lemma SubmittedTracked(l: Ledger, t: Task)
    requires AllTracked(l) && LogKnown(l.log, l.nodes) && Sorted(l.queue)
    requires t.id == l.nextId && t.id !in l.nodes && t.id !in l.running
    ensures AllTracked(Submitted(l, t))
  {
    var l' := Submitted(l, t);
    InsertIds(l.queue, t);
    forall id | id in l'.nodes
      ensures Tracked(l', id)
    {
      if id == t.id {
        forall cb: Callback
          ensures Count(l.log, cb, t) == 0
        {
          assert Call(cb, t.id, t.payload) !in l.log;
        }
      } else {
        assert Tracked(l, id);
      }
    }
  }

  lemma SubmittedKeepsInv(l: Ledger, t: Task)
    requires Inv(l) && t.id == l.nextId
    ensures Inv(Submitted(l, t))
  {
    FreshId(l);
    QueueOwnedInsert(l.queue, l.nodes, t);
    SubmittedTracked(l, t);
  }

  lemma WithdrawnTracked(l: Ledger, i: nat)
    requires AllTracked(l) && i < |l.queue| && DistinctIds(l.queue)
    requires l.queue[i].id in l.nodes && l.nodes[l.queue[i].id] == Node(l.queue[i], Queued)
    ensures AllTracked(Withdrawn(l, i))
  {
    var t := l.queue[i];
    var l' := Withdrawn(l, i);
    var calls := if t.id in l.held then [] else Destroy(t);
    assert l'.log == l.log + calls;
    EraseIds(l.queue, i);
    forall id | id in l'.nodes
      ensures Tracked(l', id)
    {
      assert Tracked(l, id);
      if id == t.id {
        assert Call(Work, t.id, t.payload) !in calls && Call(OnThrow, t.id, t.payload) !in calls;
        CountAppend(l.log, calls, Cleanup, t);
        CountAppend(l.log, calls, Work, t);
        CountAppend(l.log, calls, OnThrow, t);
      } else {
        var n := l.nodes[id];
        AccountedOther(l.log, calls, t, n.task, n.route != Queued && id !in l.running && id !in l.held,
                       n.route == Taken && id !in l.running);
      }
    }
  }

  lemma WithdrawnKeepsInv(l: Ledger, i: nat)
    requires Inv(l) && i < |l.queue|
    ensures Inv(Withdrawn(l, i))
  {
    var t := l.queue[i];
    var calls := if t.id in l.held then [] else Destroy(t);
    QueueOwnedErase(l.queue, l.nodes, i, Cancelled);
    WithdrawnTracked(l, i);
    LogKnownAppend(l, Withdrawn(l, i), calls);
  }

  lemma HandleDroppedTracked(l: Ledger, t: Task)
    requires AllTracked(l) && t.id in l.nodes && l.nodes[t.id].task == t && t.id in l.held
    requires l.nodes[t.id].route == Queued <==> t.id in Ids(l.queue)
    ensures AllTracked(HandleDropped(l, t))
  {
    var l' := HandleDropped(l, t);
    var calls := if t.id in Ids(l.queue) || t.id in l.running then [] else Destroy(t);
    assert l'.log == l.log + calls;
    forall id | id in l'.nodes
      ensures Tracked(l', id)
    {
      assert Tracked(l, id);
      if id == t.id {
        assert Call(Work, t.id, t.payload) !in calls && Call(OnThrow, t.id, t.payload) !in calls;
        CountAppend(l.log, calls, Cleanup, t);
        CountAppend(l.log, calls, Work, t);
        CountAppend(l.log, calls, OnThrow, t);
      } else {
        var n := l.nodes[id];
        AccountedOther(l.log, calls, t, n.task, n.route != Queued && id !in l.running && id !in l.held,
                       n.route == Taken && id !in l.running);
      }
    }
  }

  lemma HandleDroppedKeepsInv(l: Ledger, t: Task)
    requires Inv(l) && t.id in l.held && l.nodes[t.id].task == t
    ensures Inv(HandleDropped(l, t))
  {
    var calls := if t.id in Ids(l.queue) || t.id in l.running then [] else Destroy(t);
    QueuedIffInQueue(l, t.id);
    HandleDroppedTracked(l, t);
    LogKnownAppend(l, HandleDropped(l, t), calls);
  }

  lemma PoppedTracked(l: Ledger)
    requires AllTracked(l) && l.queue != [] && DistinctIds(l.queue)
    requires l.queue[0].id in l.nodes && l.nodes[l.queue[0].id] == Node(l.queue[0], Queued)
    ensures AllTracked(Popped(l))
  {
    var l' := Popped(l);
    EraseIds(l.queue, 0);
    assert Erase(l.queue, 0) == l'.queue;
    forall id | id in l'.nodes
      ensures Tracked(l', id)
    {
      assert Tracked(l, id);
    }
  }

  lemma PoppedKeepsInv(l: Ledger)
    requires Inv(l) && l.queue != []
    ensures Inv(Popped(l))
  {
    QueueOwnedErase(l.queue, l.nodes, 0, Taken);
    assert Erase(l.queue, 0) == Popped(l).queue;
    PoppedTracked(l);
  }

  /** The callbacks `Finished` invokes: the work callback once, the failure
      callback at most once, and the cleanup callback when the node is destroyed. */
  lemma FinishedCalls(t: Task, outcome: Outcome, destroyed: bool)
    ensures var calls := Run(t, outcome) + if destroyed then Destroy(t) else [];
      && Count(calls, Work, t) == 1 && Count(calls, OnThrow, t) <= 1
      && Count(calls, Cleanup, t) == if destroyed && t.hasClean then 1 else 0
  {
    var d := if destroyed then Destroy(t) else [];
    assert Call(Work, t.id, t.payload) !in d && Call(OnThrow, t.id, t.payload) !in d;
    CountAppend(Run(t, outcome), d, Work, t);
    CountAppend(Run(t, outcome), d, OnThrow, t);
    CountAppend(Run(t, outcome), d, Cleanup, t);
  }

  lemma FinishedTrackedSelf(l: Ledger, t: Task, outcome: Outcome)
    requires t.id in l.running && t.id in l.nodes && l.nodes[t.id].task == t && Tracked(l, t.id)
    ensures Tracked(Finished(l, t, outcome), t.id)
  {
    var calls := Run(t, outcome) + if t.id in l.held then [] else Destroy(t);
    assert Finished(l, t, outcome).log == l.log + calls;
    FinishedCalls(t, outcome, t.id !in l.held);
    CountAppend(l.log, calls, Cleanup, t);
    CountAppend(l.log, calls, Work, t);
    CountAppend(l.log, calls, OnThrow, t);
  }

  lemma FinishedTracked(l: Ledger, t: Task, outcome: Outcome)
    requires AllTracked(l) && t.id in l.running && t.id in l.nodes && l.nodes[t.id].task == t
    ensures AllTracked(Finished(l, t, outcome))
  {
    var l' := Finished(l, t, outcome);
    var calls := Run(t, outcome) + if t.id in l.held then [] else Destroy(t);
    assert l'.log == l.log + calls;
    forall id | id in l'.nodes
      ensures Tracked(l', id)
    {
      assert Tracked(l, id);
      if id == t.id {
        FinishedTrackedSelf(l, t, outcome);
      } else {
        var n := l.nodes[id];
        AccountedOther(l.log, calls, t, n.task, n.route != Queued && id !in l.running && id !in l.held,
                       n.route == Taken && id !in l.running);
      }
    }
  }

  lemma FinishedKeepsInv(l: Ledger, t: Task, outcome: Outcome)
    requires Inv(l) && t.id in l.running && l.nodes[t.id].task == t
    ensures Inv(Finished(l, t, outcome))
  {
    var calls := Run(t, outcome) + if t.id in l.held then [] else Destroy(t);
    FinishedTracked(l, t, outcome);
    LogKnownAppend(l, Finished(l, t, outcome), calls);
  }

  lemma ClearedTracked(l: Ledger, id: TaskId)
    requires QueueOwned(l.queue, l.nodes) && id in l.nodes && Tracked(l, id)
    ensures Tracked(Cleared(l), id)
  {
    var calls := ReleaseAll(l.queue, l.held);
    var u := l.nodes[id].task;
    if id in Ids(l.queue) {
      var i :| 0 <= i < |l.queue| && l.queue[i].id == id;
      assert l.queue[i] == u;
      ReleaseAllCounts(l.queue, l.held, i);
      assert Call(Work, id, u.payload) !in calls && Call(OnThrow, id, u.payload) !in calls;
      CountAppend(l.log, calls, Cleanup, u);
      CountAppend(l.log, calls, Work, u);
      CountAppend(l.log, calls, OnThrow, u);
    } else {
      forall cb: Callback
        ensures Count(l.log + calls, cb, u) == Count(l.log, cb, u)
      {
        assert Call(cb, id, u.payload) !in calls;
        CountAppend(l.log, calls, cb, u);
      }
    }
  }

  lemma ClearedKeepsInv(l: Ledger)
    requires Inv(l)
    ensures Inv(Cleared(l))
  {
    var l' := Cleared(l);
    var calls := ReleaseAll(l.queue, l.held);
    forall c | c in calls
      ensures c.task in l'.nodes && c.data == l'.nodes[c.task].task.payload
    {
      var i :| 0 <= i < |l.queue| && c.task == l.queue[i].id && c.data == l.queue[i].payload;
    }
    LogKnownAppend(l, l', calls);
    forall id | id in l'.nodes
      ensures Tracked(l', id)
    {
      assert Tracked(l, id);
      ClearedTracked(l, id);
    }
  }

  /** Destroy-once, at the end of a scheduler's life: once the queue is dropped at
      teardown, no worker still holds a task and the caller holds no handle, the
      cleanup callback of every task ever submitted has run exactly once if it was
      given, and never otherwise, whether the task ran, was cancelled or was still
      pending. */
  lemma AllDestroyedAfterTeardown(l: Ledger)
    requires Inv(l) && l.held == {} && l.running == {}
    ensures forall id | id in l.nodes ::
      Count(Cleared(l).log, Cleanup, l.nodes[id].task) == if l.nodes[id].task.hasClean then 1 else 0
  {
    ClearedKeepsInv(l);
    forall id | id in l.nodes
      ensures Count(Cleared(l).log, Cleanup, l.nodes[id].task) == if l.nodes[id].task.hasClean then 1 else 0
    {
      assert Tracked(Cleared(l), id);
    }
  }

  /** Cancel and execute exclude each other: a cancelled task's work callback
      never runs, and a task whose work callback ran was taken by a worker. */
  lemma CancelledNeverRuns(l: Ledger, id: TaskId)
    requires Inv(l) && id in l.nodes
    ensures l.nodes[id].route == Cancelled ==> Count(l.log, Work, l.nodes[id].task) == 0
    ensures Count(l.log, Work, l.nodes[id].task) > 0 ==> l.nodes[id].route == Taken
  {
    assert Tracked(l, id);
  }
}
