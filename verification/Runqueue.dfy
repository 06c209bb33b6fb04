/**
  The runqueue of student-distrib/task.c: tasks linked both ways between a head and a tail.
  Its operations are proved to be those of a sequence.
 */
module Runqueue {
  import RoundRobin

  class Task {
    const process: nat
    var active: bool
    var next: Task?
    var prev: Task?

    constructor (process: nat)
      ensures this.process == process && active && next == null && prev == null
    {
      this.process, active, next, prev := process, true, null, null;
    }
  }

  class TaskQueue {
    var head: Task?
    var tail: Task?
    var numTasks: nat
    ghost var tasks: seq<Task>

    ghost predicate Valid()
      reads this, tasks
    {
      && numTasks == |tasks|
      && RoundRobin.Distinct(tasks)
      && (if tasks == [] then head == null && tail == null
          else head == tasks[0] && tail == tasks[|tasks| - 1] && tasks[0].prev == null && tasks[|tasks| - 1].next == null)
      && (forall i {:trigger tasks[i].next} :: 0 <= i < |tasks| - 1 ==> tasks[i].next == tasks[i + 1])
      && (forall i {:trigger tasks[i].prev} :: 1 <= i < |tasks| ==> tasks[i].prev == tasks[i - 1])
    }

    constructor ()
      ensures Valid() && tasks == []
    {
      head, tail, numTasks, tasks := null, null, 0, [];
    }

    method PushHead(task: Task)
      requires Valid() && task !in tasks
      modifies this, task`next, task`prev, tasks`next, tasks`prev
      ensures Valid() && tasks == [task] + old(tasks)
    {
      task.prev := null;
      if head == null {
        tail := task;
      } else {
        head.prev := task;
      }
      task.next := head;
      head := task;
      numTasks := numTasks + 1;
      tasks := [task] + tasks;
    }

    method PushTail(task: Task)
      requires Valid() && task !in tasks
      modifies this, task`next, task`prev, tasks`next, tasks`prev
      ensures Valid() && tasks == old(tasks) + [task]
    {
      task.next := null;
      if tail == null {
        head := task;
      } else {
        tail.next := task;
      }
      task.prev := tail;
      tail := task;
      numTasks := numTasks + 1;
      tasks := tasks + [task];
    }

    /** The task at position k of a queue of several, taken out of the links around it. */
    method Bypass(task: Task, ghost k: nat)
      requires Valid() && |tasks| > 1 && k < |tasks| && tasks[k] == task
      modifies this`head, this`tail, tasks`next, tasks`prev
      ensures head == tasks[if k == 0 then 1 else 0]
      ensures tail == tasks[if k == |tasks| - 1 then |tasks| - 2 else |tasks| - 1]
      ensures forall i {:trigger tasks[i].next} :: 0 <= i < |tasks| && i != k ==>
        tasks[i].next == if i == k - 1 then Neighbour(k + 1) else Neighbour(i + 1)
      ensures forall i {:trigger tasks[i].prev} :: 0 <= i < |tasks| && i != k ==>
        tasks[i].prev == if i == k + 1 then Neighbour(k - 1) else Neighbour(i - 1)
    {
      assert task.prev == Neighbour(k - 1) && task.next == Neighbour(k + 1);
      if task.prev != null {
        task.prev.next := task.next;
      }
      if task == head {
        head := head.next;
        head.prev := null;
      }
      if task.next != null {
        task.next.prev := task.prev;
      }
      if task == tail {
        tail := tail.prev;
        tail.next := null;
      }
    }

    /** The task at a position, or null past the ends. */
    ghost function Neighbour(i: int): Task?
      reads this
    {
      if 0 <= i < |tasks| then tasks[i] else null
    }

    /** Without the bypassed task the links fit the shorter sequence. */
    ghost method Forget(task: Task, k: nat)
      requires numTasks + 1 == |tasks| && k < |tasks| && tasks[k] == task && RoundRobin.Distinct(tasks)
      requires if |tasks| == 1 then head == null && tail == null
               else head == tasks[if k == 0 then 1 else 0] && tail == tasks[if k == |tasks| - 1 then |tasks| - 2 else |tasks| - 1]
      requires forall i {:trigger tasks[i].next} :: 0 <= i < |tasks| && i != k ==>
        tasks[i].next == if i == k - 1 then Neighbour(k + 1) else Neighbour(i + 1)
      requires forall i {:trigger tasks[i].prev} :: 0 <= i < |tasks| && i != k ==>
        tasks[i].prev == if i == k + 1 then Neighbour(k - 1) else Neighbour(i - 1)
      modifies this`tasks
      ensures Valid() && tasks == old(tasks)[..k] + old(tasks)[k + 1..]
    {
      ghost var ts := tasks;
      DistinctDrop(ts, k);
      tasks := ts[..k] + ts[k + 1..];
      forall i | 0 <= i < |tasks| - 1
        ensures tasks[i].next == tasks[i + 1] && tasks[i + 1].prev == tasks[i]
      {
        var a, b := if i < k then i else i + 1, if i + 1 < k then i + 1 else i + 2;
        assert tasks[i] == ts[a] && tasks[i + 1] == ts[b] && a != k && b != k;
      }
    }

    /** remove_task. A queue of at most one task tells whether the task is in it; a longer one expects that it is. */
    method RemoveTask(task: Task, ghost k: nat) returns (r: Task?)
      requires Valid() && (|tasks| > 1 ==> task in tasks) && (task in tasks ==> k < |tasks| && tasks[k] == task)
      modifies this, tasks`next, tasks`prev
      ensures Valid()
      ensures task !in old(tasks) ==> r == null && tasks == old(tasks)
      ensures task in old(tasks) ==>
        r == task && tasks == old(tasks)[..k] + old(tasks)[k + 1..] && task.next == null && task.prev == null
    {
      if numTasks <= 1 {
        if task == head {
          head, tail := null, null;
        } else {
          return null;
        }
      } else {
        Bypass(task, k);
      }
      DistinctDrop(tasks, k);
      task.next := null;
      task.prev := null;
      numTasks := numTasks - 1;
      Forget(task, k);
      return task;
    }

    /** next_task: the head, which goes to the tail; null when the queue is empty. */
    method NextTask() returns (top: Task?)
      requires Valid()
      modifies this, tasks`next, tasks`prev
      ensures Valid()
      ensures old(tasks) == [] ==> top == null && tasks == []
      ensures old(tasks) != [] ==> top == old(tasks)[0] && tasks == RoundRobin.Turned(old(tasks))
    {
      HeadIsFirst();
      hide TaskQueue.Valid;
      if head == null {
        return null;
      }
      WithoutFirst(tasks);
      ghost var first, rest := tasks[0], tasks[1..];
      top := RemoveTask(head, 0);
      PushTail(top);
    }

    lemma HeadIsFirst()
      requires Valid()
      ensures if tasks == [] then head == null else head == tasks[0] && tasks[0] in tasks && tasks[0] !in tasks[1..]
    {
    }

    ghost function ActiveTasks(): set<Task>
      reads this, tasks
    {
      set t | t in tasks && t.active
    }

    /** The loop of schedule: the first active task, with the queue turned until just past it. */
    method PickTask() returns (to: Task)
      requires Valid() && RoundRobin.First(tasks, ActiveTasks()) < |tasks|
      modifies this, tasks`next, tasks`prev
      ensures Valid() && to == old(tasks)[RoundRobin.First(old(tasks), old(ActiveTasks()))]
      ensures tasks == RoundRobin.Scheduled(old(tasks), old(ActiveTasks()))
      ensures ActiveTasks() == old(ActiveTasks())
    {
      hide TaskQueue.Valid, RoundRobin.Distinct, RoundRobin.First, RoundRobin.Turned;
      ghost var ts, act := tasks, ActiveTasks();
      ghost var n := RoundRobin.First(ts, act);
      var t := NextTask();
      ghost var i := 1;
      Turn(ts, 0);
      assert ts[0..] + ts[..0] == ts;
      while t != null && !t.active
        invariant Valid() && 1 <= i <= n + 1 && t == ts[i - 1]
        invariant tasks == ts[i..] + ts[..i]
        invariant forall u :: u in ts ==> (u.active <==> u in act)
        decreases n + 1 - i
      {
        assert ts[i - 1] in ts && i - 1 != n;
        Turn(ts, i);
        SameMembers(ts, i);
        t := NextTask();
        i := i + 1;
      }
      assert ts[i - 1] in ts && i - 1 == n;
      SameMembers(ts, i);
      to := t;
    }
  }

  lemma WithoutFirst<T>(q: seq<T>)
    requires q != []
    ensures q[..0] + q[0 + 1..] == q[1..] && (forall x :: x in q[1..] ==> x in q) && RoundRobin.Turned(q) == q[1..] + [q[0]]
  {
  }

  lemma DistinctDrop<T>(q: seq<T>, k: nat)
    requires RoundRobin.Distinct(q) && k < |q|
    ensures RoundRobin.Distinct(q[..k] + q[k + 1..])
    ensures forall i :: 0 <= i < |q| && i != k ==> q[i] != q[k]
  {
  }

  lemma SameMembers<T>(q: seq<T>, i: nat)
    requires i <= |q|
    ensures forall x :: x in q[i..] + q[..i] <==> x in q
  {
    assert q == q[..i] + q[i..];
  }

  lemma Turn<T>(q: seq<T>, i: nat)
    requires i < |q|
    ensures q[i..] + q[..i] != [] && (q[i..] + q[..i])[0] == q[i]
    ensures RoundRobin.Turned(q[i..] + q[..i]) == q[i + 1..] + q[..i + 1]
  {
  }
}
