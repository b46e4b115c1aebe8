/** The run queue of `backend.c` with its pointers: a circular doubly linked list through
    `task_head`, in which the `next` pointer of a task also tells whether the task is running
    (null) or running and marked for another round (itself). */
module BackendTasks {
  import opened Lists
  import opened Options
  import opened TaskStates

  class Task {
    const id: TaskId
    var next: Task?
    var prev: Task?

    constructor (id: TaskId)
      ensures this.id == id && next == null && prev == null
    {
      this.id := id;
      next, prev := null, null;
    }
  }

  class TaskQueue {
    const head: Task
    var numTasks: int
    ghost var tasks: seq<Task>          // the queued tasks, in order

    /** The nodes of the circle. */
    ghost function Ring(): seq<Task>
      reads `tasks
    {
      [head] + tasks
    }

    /** The successor of the node at index `i` of a ring. */
    static ghost function After(ring: seq<Task>, i: nat): Task
      requires i < |ring|
    {
      if i + 1 < |ring| then ring[i + 1] else ring[0]
    }

    static lemma DistinctCut(ring: seq<Task>, k: nat)
      requires Distinct(ring) && k < |ring|
      ensures Distinct(ring[..k] + ring[k + 1..]) && ring[k] !in ring[..k] + ring[k + 1..]
    {
    }

    /** Where node `i` of a ring without node `k + 1` was in the ring. */
    static ghost function Was(i: nat, k: nat): nat {
      if i <= k then i else i + 1
    }

    /** Without node `k + 1`, only the successor of node `k` differs. */
    static lemma CutNeighbours(ring: seq<Task>, k: nat, now: seq<Task>)
      requires Distinct<Task>(ring) && k + 1 < |ring| && now == ring[..k + 1] + ring[k + 2..]
      ensures |now| == |ring| - 1 && now[k] == ring[k] && After(now, k) == After(ring, k + 1)
      ensures ring[k] != ring[k + 1] && After(ring, k + 1) != ring[k + 1] && After(ring, k) == ring[k + 1]
      ensures After(ring, k + 1) in ring
      ensures forall i :: 0 <= i < |now| && i != k ==>
                && now[i] == ring[Was(i, k)] && now[i] != ring[k] && now[i] != ring[k + 1]
                && After(now, i) == After(ring, Was(i, k)) && After(now, i) != After(ring, k + 1)
                && After(now, i) != ring[k + 1]
    {
    }

    /** With `t` behind the first node, only that node and its successor have a new neighbour. */
    static lemma InsertNeighbours(ring: seq<Task>, t: Task, now: seq<Task>)
      requires Distinct<Task>(ring) && ring != [] && t !in ring && now == [ring[0], t] + ring[1..]
      ensures Distinct<Task>(now) && |now| == |ring| + 1 && now[0] == ring[0] && now[1] == t
      ensures After(now, 0) == t && After(now, 1) == After(ring, 0) && After(ring, 0) in ring
      ensures forall i :: 2 <= i < |now| ==>
                && now[i] == ring[i - 1] && now[i] != ring[0] && now[i] != t
                && After(now, i) == After(ring, i - 1) && After(now, i) != After(ring, 0) && After(now, i) != t
    {
      assert forall i :: 0 <= i < |now| ==> now[i] == if i == 0 then ring[0] else if i == 1 then t else ring[i - 1];
      assert forall i :: 0 <= i < |ring| ==> ring[i] != t;
    }

    static ghost predicate Linked(ring: seq<Task>)
      reads ring
    {
      && Distinct(ring)
      && (forall i :: 0 <= i < |ring| ==> ring[i].next == After(ring, i) && After(ring, i).prev == ring[i])
    }

    static lemma PointersOf(ring: seq<Task>, k: nat)
      requires 0 < k < |ring| && Linked(ring)
      ensures ring[k].prev == ring[k - 1] && ring[k].next == After(ring, k) && ring[k].next != ring[k]
    {
      assert After(ring, k - 1) == ring[k];
    }

    /** The pointer part of `remove_task`.  If `t` is node `k + 1` of the ring, that closes over
        it; otherwise only the pointers of `t` itself change. */
    method Unlink(t: Task, ghost ring: seq<Task>, ghost k: int)
      requires Linked(ring)
      requires if k >= 0 then k + 1 < |ring| && ring[k + 1] == t else t !in ring && (Detached(t) || Marked(t))
      modifies ring, t
      ensures Detached(t)
      ensures Linked(if k >= 0 then ring[..k + 1] + ring[k + 2..] else ring)
    {
      hide Distinct, After;
      ghost var now := if k >= 0 then ring[..k + 1] + ring[k + 2..] else ring;
      if k >= 0 {
        CutNeighbours(ring, k, now);
        DistinctCut(ring, k + 1);
        PointersOf(ring, k + 1);
      }
      if t.prev != null {
        t.prev.next := t.next;
      }
      if t.next != null {
        t.next.prev := t.prev;
      }
      t.prev, t.next := null, null;
      if k >= 0 {
        assert now[k].next == After(now, k) && After(now, k).prev == now[k];
        forall i | 0 <= i < |now| && i != k ensures now[i].next == After(now, i) && After(now, i).prev == now[i] {
          var j := Was(i, k);
          assert old(ring[j].next) == After(ring, j) && old(After(ring, j).prev) == ring[j];
        }
      }
    }

    ghost predicate Valid()
      reads this, head, tasks
    {
      Linked(Ring()) && numTasks == |tasks|
    }

    /** `init_tasks` */
    constructor ()
      ensures Valid() && tasks == [] && fresh(head)
    {
      var h := new Task(0);
      head := h;
      numTasks := 0;
      tasks := [];
      new;
      head.prev := head;
      head.next := head;
    }

    /** A task that runs and has not been marked, or that was removed. */
    predicate Detached(t: Task)
      reads t
    {
      t.next == null && t.prev == null
    }

    predicate Marked(t: Task)
      reads t
    {
      t.next == t && t.prev == t
    }

    /** `append_task` */
    method AppendTask(t: Task?)
      requires Valid() && t != head && t !in tasks
      modifies this, head, tasks, t
      ensures t == null ==> tasks == old(tasks) && Valid()
      ensures t != null ==> Valid() && tasks == old(tasks) + [t]
    {
      if t == null {
        return;
      }
      ghost var ring := Ring();
      assert head.prev == ring[|ring| - 1] by {
        assert After(ring, |ring| - 1) == head;
      }
      t.next := head;
      t.prev := head.prev;
      head.prev.next := t;
      head.prev := t;
      numTasks := numTasks + 1;
      tasks := tasks + [t];
      assert Ring() == ring + [t];
      forall i | 0 <= i < |Ring()| ensures Ring()[i].next == After(Ring(), i) && After(Ring(), i).prev == Ring()[i] {
        if i < |ring| {
          assert old(ring[i].next) == After(ring, i) && old(After(ring, i).prev) == ring[i];
        }
      }
    }

    /** `prepend_task` */
    method PrependTask(t: Task)
      requires Valid() && t != head && t !in tasks
      modifies this, head, tasks, t
      ensures Valid() && tasks == [t] + old(tasks)
    {
      hide Distinct, After;
      ghost var ring := Ring();
      assert head.next == After(ring, 0);
      InsertNeighbours(ring, t, [head, t] + ring[1..]);
      t.next := head.next;
      t.prev := head;
      head.next.prev := t;
      head.next := t;
      numTasks := numTasks + 1;
      tasks := [t] + tasks;
      var now := [head, t] + ring[1..];
      assert Ring() == now;
      forall i | 0 <= i < |now| ensures now[i].next == After(now, i) && After(now, i).prev == now[i] {
        if i >= 1 {
          assert old(ring[i - 1].next) == After(ring, i - 1) && old(After(ring, i - 1).prev) == ring[i - 1];
        }
      }
    }

    /** `remove_task`: a queued task leaves the queue; the mark of the running task is taken
        back; anything else is unaffected. */
    method RemoveTask(t: Task?)
      requires Valid() && t != head
      requires t != null ==> t in tasks || Detached(t) || Marked(t)
      modifies this, head, tasks, t
      ensures Valid()
      ensures t == null ==> tasks == old(tasks)
      ensures t != null ==> Detached(t) && tasks == Drop<Task>(old(tasks), t)
    {
      if t == null {
        return;
      }
      hide Distinct, Drop, After, Linked;
      ghost var ring, k, without := Ring(), IndexOf(t), Drop<Task>(tasks, t);
      Unqueued(t);
      Unmarked(t);
      RingMembers();
      if t.next != null && t.next != t {
        numTasks := numTasks - 1;
      }
      Unlink(t, ring, k);
      tasks := without;
    }

    /** `reschedule_task`: a queued task moves to the end of the queue; the running task is
        marked. */
    method RescheduleTask(t: Task?)
      requires Valid() && t != head
      requires t != null ==> t in tasks || Detached(t) || Marked(t)
      modifies this, head, tasks, t
      ensures Valid()
      ensures t == null || t !in old(tasks) ==> tasks == old(tasks)
      ensures t != null && t !in old(tasks) ==> Marked(t)
      ensures t != null && t in old(tasks) ==> tasks == Drop<Task>(old(tasks), t) + [t]
    {
      if t == null {
        return;
      }
      if t.next == t {
        assert t !in tasks by { Unmarked(t); }
        return;                             // `t` is marked already
      }
      if t.next == null {
        assert t !in tasks by { Unmarked(t); }
        t.prev := t;
        t.next := t;                        // the mark
        return;
      }
      // To the end of the queue
      assert t in tasks;
      Unqueued(t);
      RemoveTask(t);
      assert forall i :: 0 <= i < |tasks| ==> tasks[i] in old(tasks);
      AppendTask(t);
    }

    lemma TasksApart()
      requires Valid()
      ensures forall i, j :: 0 <= i < j < |tasks| ==> tasks[i] != tasks[j]
      ensures forall i :: 0 <= i < |tasks| ==> tasks[i] == Ring()[i + 1]
    {
      assert forall i :: 0 <= i < |tasks| ==> tasks[i] == Ring()[i + 1];
    }

    lemma RingMembers()
      ensures forall x :: x in Ring() ==> x == head || x in tasks
    {
    }

    lemma Unqueued(t: Task)
      requires Valid()
      ensures t !in Drop<Task>(tasks, t) && Distinct<Task>([head] + Drop<Task>(tasks, t))
      ensures t !in tasks ==> Drop<Task>(tasks, t) == tasks
      ensures t in tasks ==>
                var k := IndexOf(t);
                && |Drop<Task>(tasks, t)| == |tasks| - 1
                && k >= 0 && [head] + Drop<Task>(tasks, t) == Ring()[..k + 1] + Ring()[k + 2..]
                && forall x :: x in Drop<Task>(tasks, t) ==> x in tasks
    {
      hide Distinct, Drop, After;
      TasksApart();
      if t in tasks {
        var k := IndexOf(t);
        DropAt<Task>(tasks, k);
        assert [head] + (tasks[..k] + tasks[k + 1..]) == Ring()[..k + 1] + Ring()[k + 2..];
        DistinctCut(Ring(), k + 1);
      } else {
        DropStranger<Task>(tasks, t);
      }
    }

    /** A queued task points to another node. */
    lemma Unmarked(t: Task)
      requires Valid()
      ensures t in tasks ==> t.next != null && t.next != t
    {
      if t in tasks {
        var k :| 0 <= k < |tasks| && tasks[k] == t;
        assert Ring()[k + 1] == t && t.next == After(Ring(), k + 1);
      }
    }

    ghost function IndexOf(t: Task): (k: int)
      reads `tasks
      ensures (0 <= k < |tasks| && tasks[k] == t) || (k == -1 && t !in tasks)
    {
      if t in tasks then var k :| 0 <= k < |tasks| && tasks[k] == t; k else -1
    }

    /** `mainloop`: the first task, if there is any, is taken off the queue to be run. */
    method Dequeue() returns (current: Task?)
      requires Valid()
      modifies this, head, tasks
      ensures Valid()
      ensures old(tasks) == [] <==> current == null
      ensures current != null ==> current == old(tasks)[0] && tasks == old(tasks)[1..] && Detached(current)
    {
      assert head.next == After(Ring(), 0);
      if head.next == head {
        return null;
      }
      current := head.next;
      assert current == tasks[0];
      RemoveTask(current);
    }

    /** `mainloop`, once the task has run: put it back if it is marked, else free it. */
    method Finish(current: Task)
      requires Valid() && current != head && current !in tasks && (Detached(current) || Marked(current))
      modifies this, head, tasks, current
      ensures Valid() && tasks == if old(Marked(current)) then old(tasks) + [current] else old(tasks)
    {
      if current.next == current {
        AppendTask(current);                // one more round
      }
    }
  }

  // ---------- the pointers and the value of the queue ----------

  /** The abstract state: the queued tasks, the running one and whether it is marked. */
  ghost function Value(ts: seq<Task>, current: Task?, marked: bool): TaskState {
    TaskState(Ids(ts), if current == null then None else Some(current.id), marked)
  }

  ghost function Ids(ts: seq<Task>): seq<TaskId> {
    if ts == [] then [] else [ts[0].id] + Ids(ts[1..])
  }

  /** Task numbers are those of distinct tasks, and the running task is not queued. */
  ghost predicate Unique(ts: seq<Task>, current: Task?) {
    && (forall a, b :: 0 <= a < b < |ts| ==> ts[a].id != ts[b].id)
    && (current != null ==> forall a :: 0 <= a < |ts| ==> ts[a].id != current.id)
  }

  /** What `RemoveTask` and `RescheduleTask` do with the pointers of a queued or running task
      is `Remove` and `Reschedule` on the abstract state. */
  lemma PointersRefineStates(ts: seq<Task>, current: Task?, marked: bool, t: Task)
    requires Unique(ts, current) && (t in ts || t == current)
    ensures Value(Drop<Task>(ts, t), current, marked && t != current) == Remove(Value(ts, current, marked), t.id)
    ensures Value(if t in ts then Drop<Task>(ts, t) + [t] else ts, current, marked || t == current)
         == Reschedule(Value(ts, current, marked), t.id)
  {
    if t in ts {
      IdsDrop(ts, t);
      IdsAppend(Drop<Task>(ts, t), t);
    } else {
      DropStranger<Task>(ts, t);
    }
  }

  /** The same for `AppendTask`, and for what the main loop does before and after a task. */
  lemma MainLoopRefinesStates(ts: seq<Task>, current: Task?, marked: bool, t: Task)
    ensures Value(ts + [t], current, marked) == Append(Value(ts, current, marked), t.id)
    ensures ts != [] ==> Value(ts[1..], ts[0], false) == TaskStates.Dequeue(Value(ts, null, marked))
    ensures current != null ==>
              Value(if marked then ts + [current] else ts, null, false) == TaskStates.Finish(Value(ts, current, marked))
  {
    IdsAppend(ts, t);
    if current != null { IdsAppend(ts, current); }
  }

  lemma {:induction false} IdsDrop(ts: seq<Task>, t: Task)
    requires t in ts && forall a, b :: 0 <= a < b < |ts| ==> ts[a].id != ts[b].id
    ensures Ids(Drop<Task>(ts, t)) == Drop(Ids(ts), t.id)
  {
    if ts != [] && ts[0] != t {
      IdsDrop(ts[1..], t);
    }
  }

  lemma {:induction false} IdsAppend(ts: seq<Task>, t: Task)
    ensures Ids(ts + [t]) == Ids(ts) + [t.id]
  {
    if ts == [] {
      assert [] + [t] == [t];
      assert [t][1..] == [];
    } else {
      assert (ts + [t])[1..] == ts[1..] + [t];
      IdsAppend(ts[1..], t);
    }
  }
}
