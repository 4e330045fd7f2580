/** The time-ordered task queue: the `std::multiset<shared_ptr<TaskNode>, TaskCompare>`
    of scheduled.h, as a sequence kept in deadline order. */
module TaskQueue {
  import opened Tasks

  /** `TaskCompare`: a task goes before another when its deadline is earlier.
      Nothing but the deadline is compared, so equal deadlines are unordered. */
  predicate Before(a: Task, b: Task)
  {
    a.time < b.time
  }

  /** A `std::multiset` needs its comparator to be a strict weak order; deadline
      comparison is one. */
  lemma BeforeIsStrictWeakOrder(a: Task, b: Task, c: Task)
    ensures !Before(a, a)
    ensures Before(a, b) && Before(b, c) ==> Before(a, c)
    ensures !Before(a, b) && !Before(b, a) && !Before(b, c) && !Before(c, b) ==> !Before(a, c) && !Before(c, a)
  {
  }

  /** No task is before a task that precedes it in the queue. */
  predicate Sorted(q: seq<Task>)
  {
    forall i, j | 0 <= i < j < |q| :: !Before(q[j], q[i])
  }

  /** Every task node appears at most once. */
  predicate DistinctIds(q: seq<Task>)
  {
    forall i, j | 0 <= i < j < |q| :: q[i].id != q[j].id
  }

  function Ids(q: seq<Task>): set<TaskId>
  {
    set i | 0 <= i < |q| :: q[i].id
  }

  /** Where `std::multiset::insert` puts a task with deadline `time`: after every
      task whose deadline is not later (the end of the range of equal deadlines). */
  function UpperBound(q: seq<Task>, time: int): (k: nat)
    requires Sorted(q)
    ensures k <= |q|
    ensures forall i | 0 <= i < k :: q[i].time <= time
    ensures forall i | k <= i < |q| :: time < q[i].time
  {
    if q == [] || time < q[0].time then 0 else 1 + UpperBound(q[1..], time)
  }

  /** The new task lands at the front exactly when the queue was empty or every
      pending deadline is later than the new one. */
  lemma UpperBoundIsFront(q: seq<Task>, time: int)
    requires Sorted(q)
    ensures UpperBound(q, time) == 0 <==> (q == [] || time < q[0].time)
  {
  }

  /** Remove the task at position `i`, keeping the others in their order. */
  function Erase(q: seq<Task>, i: nat): (r: seq<Task>)
    requires i < |q|
    ensures |r| == |q| - 1
    ensures multiset(r) == multiset(q) - multiset{q[i]}
    ensures forall j | 0 <= j < i :: r[j] == q[j]
    ensures forall j | i <= j < |r| :: r[j] == q[j + 1]
  {
    assert q == q[..i] + [q[i]] + q[i + 1..];
    q[..i] + q[i + 1..]
  }

  /** `multiset::insert`: the task goes in at its upper bound. */
  function Insert(q: seq<Task>, t: Task): (r: seq<Task>)
    requires Sorted(q)
    ensures |r| == |q| + 1
    ensures multiset(r) == multiset(q) + multiset{t}
    ensures r[UpperBound(q, t.time)] == t
    ensures Sorted(r)
  {
    var k := UpperBound(q, t.time);
    InsertShape(q, t, k);
    q[..k] + [t] + q[k..]
  }

  /** The facts `Insert` rests on, for a splice at the upper bound `k`. */
  lemma InsertShape(q: seq<Task>, t: Task, k: nat)
    requires Sorted(q) && k == UpperBound(q, t.time)
    ensures multiset(q[..k] + [t] + q[k..]) == multiset(q) + multiset{t}
    ensures Sorted(q[..k] + [t] + q[k..])
  {
    var r := q[..k] + [t] + q[k..];
    SpliceIndex(q, t, k);
    SpliceMultiset(q, t, k);
    forall i, j | 0 <= i < j < |r|
      ensures r[i].time <= r[j].time
    {
      if j < k {
        assert r[i] == q[i] && r[j] == q[j];
      } else if j == k {
        assert r[i] == q[i];
      } else if i < k {
        assert r[i] == q[i] && r[j] == q[j - 1];
      } else if i == k {
        assert r[j] == q[j - 1];
      } else {
        assert r[i] == q[i - 1] && r[j] == q[j - 1];
      }
    }
  }

  /** Where each element of `t` spliced into `q` at `k` comes from. */
  lemma SpliceIndex(q: seq<Task>, t: Task, k: nat)
    requires k <= |q|
    ensures var r := q[..k] + [t] + q[k..];
      && |r| == |q| + 1 && r[k] == t
      && (forall i | 0 <= i < k :: r[i] == q[i])
      && (forall i | k < i < |r| :: r[i] == q[i - 1])
  {
  }

  lemma SpliceMultiset(q: seq<Task>, t: Task, k: nat)
    requires k <= |q|
    ensures multiset(q[..k] + [t] + q[k..]) == multiset(q) + multiset{t}
  {
    assert q == q[..k] + q[k..];
  }

  /** Erasing the task that was just inserted gives back the queue as it was:
      inserting leaves every pending task in place and in order. */
  lemma EraseInsert(q: seq<Task>, t: Task)
    requires Sorted(q)
    ensures Erase(Insert(q, t), UpperBound(q, t.time)) == q
  {
    var k := UpperBound(q, t.time);
    var r := Erase(Insert(q, t), k);
    var ins := Insert(q, t);
    InsertAt(q, t);
    forall j | 0 <= j < |q|
      ensures r[j] == q[j]
    {
      if j < k { assert r[j] == ins[j]; } else { assert r[j] == ins[j + 1]; }
    }
  }

  /** Where each element of an insertion comes from. */
  lemma InsertAt(q: seq<Task>, t: Task)
    requires Sorted(q)
    ensures var k, r := UpperBound(q, t.time), Insert(q, t);
      && (forall i | 0 <= i < k :: r[i] == q[i])
      && (forall i | k < i < |r| :: r[i] == q[i - 1])
  {
    SpliceIndex(q, t, UpperBound(q, t.time));
  }

  lemma InsertIds(q: seq<Task>, t: Task)
    requires Sorted(q)
    ensures Ids(Insert(q, t)) == Ids(q) + {t.id}
  {
    var k, r := UpperBound(q, t.time), Insert(q, t);
    InsertAt(q, t);
    forall x | x in Ids(r)
      ensures x in Ids(q) + {t.id}
    {
      var i :| 0 <= i < |r| && r[i].id == x;
      if i < k { assert q[i] == r[i]; } else if i > k { assert q[i - 1] == r[i]; }
    }
    forall x | x in Ids(q)
      ensures x in Ids(r)
    {
      var i :| 0 <= i < |q| && q[i].id == x;
      if i < k { assert r[i] == q[i]; } else { assert r[i + 1] == q[i]; }
    }
  }

  lemma InsertDistinct(q: seq<Task>, t: Task)
    requires Sorted(q) && DistinctIds(q) && t.id !in Ids(q)
    ensures DistinctIds(Insert(q, t))
  {
    var k, r := UpperBound(q, t.time), Insert(q, t);
    InsertAt(q, t);
    forall i, j | 0 <= i < j < |r|
      ensures r[i].id != r[j].id
    {
      if j < k {
        assert r[i] == q[i] && r[j] == q[j];
      } else if j == k {
        assert r[i] == q[i];
      } else if i < k {
        assert r[i] == q[i] && r[j] == q[j - 1];
      } else if i == k {
        assert r[j] == q[j - 1];
      } else {
        assert r[i] == q[i - 1] && r[j] == q[j - 1];
      }
    }
  }

  lemma EraseIds(q: seq<Task>, i: nat)
    requires i < |q| && DistinctIds(q)
    ensures DistinctIds(Erase(q, i))
    ensures Ids(Erase(q, i)) == Ids(q) - {q[i].id}
  {
    var r := Erase(q, i);
    forall x | x in Ids(r)
      ensures x in Ids(q) - {q[i].id}
    {
      var j :| 0 <= j < |r| && r[j].id == x;
      if j < i { assert r[j] == q[j]; } else { assert r[j] == q[j + 1]; }
    }
    forall x | x in Ids(q) - {q[i].id}
      ensures x in Ids(r)
    {
      var j :| 0 <= j < |q| && q[j].id == x;
      if j < i { assert r[j] == q[j]; } else { assert j != i; assert r[j - 1] == q[j]; }
    }
  }

  lemma EraseSorted(q: seq<Task>, i: nat)
    requires i < |q| && Sorted(q)
    ensures Sorted(Erase(q, i))
  {
    var r := Erase(q, i);
    forall a, b | 0 <= a < b < |r|
      ensures r[a].time <= r[b].time
    {
      var a' := if a < i then a else a + 1;
      var b' := if b < i then b else b + 1;
      assert r[a] == q[a'] && r[b] == q[b'];
    }
  }

  /** The position of task `id` in the queue. */
  function IndexOf(q: seq<Task>, id: TaskId): (i: nat)
    requires id in Ids(q)
    ensures i < |q| && q[i].id == id
    ensures DistinctIds(q) ==> forall j | 0 <= j < |q| && q[j].id == id :: j == i
  {
    if q[0].id == id then 0
    else
      assert id in Ids(q[1..]) by {
        var j :| 0 <= j < |q| && q[j].id == id;
        assert q[1..][j - 1] == q[j];
      }
      1 + IndexOf(q[1..], id)
  }

  /** `multiset::clear` at teardown: every task in the queue whose node has no other
      owner is destroyed, and so invokes its cleanup callback. */
  function ReleaseAll(q: seq<Task>, held: set<TaskId>): (calls: seq<Call>)
    ensures forall c | c in calls :: c.callback == Cleanup && c.task in Ids(q) && c.task !in held
    ensures forall c | c in calls :: exists i | 0 <= i < |q| :: c.task == q[i].id && c.data == q[i].payload
  {
    if q == [] then []
    else
      var tail := ReleaseAll(q[1..], held);
      assert forall c | c in tail :: c.task in Ids(q) by {
        forall c | c in tail
          ensures c.task in Ids(q)
        {
          var j :| 0 <= j < |q| - 1 && q[1..][j].id == c.task;
          assert q[j + 1].id == c.task;
        }
      }
      assert forall c | c in tail :: exists i | 0 <= i < |q| :: c.task == q[i].id && c.data == q[i].payload by {
        forall c | c in tail
          ensures exists i | 0 <= i < |q| :: c.task == q[i].id && c.data == q[i].payload
        {
          var j :| 0 <= j < |q| - 1 && c.task == q[1..][j].id && c.data == q[1..][j].payload;
          assert q[j + 1] == q[1..][j];
        }
      }
      (if q[0].id in held then [] else Destroy(q[0])) + tail
  }

  /** Teardown destroys each unowned queued task exactly once: its cleanup callback
      runs once when set and never otherwise. */
  lemma {:induction false} ReleaseAllCounts(q: seq<Task>, held: set<TaskId>, i: nat)
    requires DistinctIds(q) && i < |q|
    ensures Count(ReleaseAll(q, held), Cleanup, q[i]) == if q[i].id !in held && q[i].hasClean then 1 else 0
  {
    var head := if q[0].id in held then [] else Destroy(q[0]);
    var tail := ReleaseAll(q[1..], held);
    assert ReleaseAll(q, held) == head + tail;
    assert DistinctIds(q[1..]);
    if i == 0 {
      assert Call(Cleanup, q[0].id, q[0].payload) !in tail;
    } else {
      ReleaseAllCounts(q[1..], held, i - 1);
      assert q[1..][i - 1] == q[i];
      assert Call(Cleanup, q[i].id, q[i].payload) !in head;
    }
  }
}
