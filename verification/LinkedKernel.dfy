/**
  The processes of ProcessTable.dfy over the linked runqueue of Runqueue.dfy: every step is
  made on both, and the links go on standing for the queue.
 */
module LinkedKernel {
  import opened Processes
  import opened ProcessTable
  import opened Runqueue
  import RoundRobin

  predicate IsActive(procs: map<nat, Pcb>, p: nat) {
    p in procs && procs[p].status == Active
  }

  /** The linked tasks are those of the queue, and active as the control blocks say. */
  ghost predicate Mirrors(ts: seq<Task>, act: set<Task>, procs: map<nat, Pcb>, queue: seq<nat>) {
    && |ts| == |queue|
    && forall i :: 0 <= i < |ts| ==> ts[i].process == queue[i] && (ts[i] in act <==> IsActive(procs, queue[i]))
  }

  /** Each process has its task in the queue. */
  ghost predicate Owned(taskOf: map<nat, Task>, ts: seq<Task>, procs: map<nat, Pcb>) {
    && taskOf.Keys == procs.Keys
    && forall p :: p in taskOf ==> taskOf[p] in ts && taskOf[p].process == p
  }

  // ---------------------------------------------------------------- the two queues side by side

  lemma MirrorsAt(ts: seq<Task>, act: set<Task>, procs: map<nat, Pcb>, queue: seq<nat>, i: nat)
    requires Mirrors(ts, act, procs, queue) && i < |queue|
    ensures |ts| == |queue| && ts[i].process == queue[i]
  {
  }

  /** The task of a process is where the process is in the queue. */
  lemma TaskAt(ts: seq<Task>, act: set<Task>, procs: map<nat, Pcb>, queue: seq<nat>, t: Task, i: nat)
    requires Mirrors(ts, act, procs, queue) && Distinct(queue) && t in ts && i < |queue| && t.process == queue[i]
    ensures i < |ts| && ts[i] == t
  {
    var j :| 0 <= j < |ts| && ts[j] == t;
  }

  lemma {:induction false} MirrorsFirst(ts: seq<Task>, act: set<Task>, procs: map<nat, Pcb>, queue: seq<nat>)
    requires Mirrors(ts, act, procs, queue)
    ensures RoundRobin.First(ts, act) == FirstActive(procs, queue)
    decreases |ts|
  {
    if ts != [] && ts[0] !in act {
      MirrorsFirst(ts[1..], act, procs, queue[1..]);
    }
  }

  lemma MirrorsTurned(ts: seq<Task>, act: set<Task>, procs: map<nat, Pcb>, queue: seq<nat>, i: nat)
    requires Mirrors(ts, act, procs, queue) && i <= |ts|
    ensures Mirrors(ts[i..] + ts[..i], act, procs, queue[i..] + queue[..i])
  {
    hide IsActive;
    var us, q := ts[i..] + ts[..i], queue[i..] + queue[..i];
    forall k | 0 <= k < |us| ensures us[k].process == q[k] && (us[k] in act <==> IsActive(procs, q[k])) {
      var j := if k < |ts| - i then i + k else k - (|ts| - i);
      assert us[k] == ts[j] && q[k] == queue[j];
    }
  }

  /** A task is put in front for a process that is active. */
  lemma MirrorsPushed(ts: seq<Task>, act: set<Task>, procs: map<nat, Pcb>, queue: seq<nat>, t: Task)
    requires Mirrors(ts, act, procs, queue) && t !in ts && IsActive(procs, t.process)
    ensures Mirrors([t] + ts, act + {t}, procs, [t.process] + queue)
  {
    hide IsActive;
    var us, q := [t] + ts, [t.process] + queue;
    forall k | 0 <= k < |us| ensures us[k].process == q[k] && (us[k] in act + {t} <==> IsActive(procs, q[k])) {
      assert k > 0 ==> us[k] == ts[k - 1] && ts[k - 1] in ts && q[k] == queue[k - 1];
    }
  }

  /** The task at a position is taken out. */
  lemma MirrorsDropped(ts: seq<Task>, act: set<Task>, procs: map<nat, Pcb>, queue: seq<nat>, i: nat)
    requires Mirrors(ts, act, procs, queue) && i < |ts|
    ensures Mirrors(ts[..i] + ts[i + 1..], act, procs, queue[..i] + queue[i + 1..])
  {
    hide IsActive;
    var us, q := ts[..i] + ts[i + 1..], queue[..i] + queue[i + 1..];
    forall k | 0 <= k < |us| ensures us[k].process == q[k] && (us[k] in act <==> IsActive(procs, q[k])) {
      var j := if k < i then k else k + 1;
      assert us[k] == ts[j] && q[k] == queue[j];
    }
  }

  /** Only what the queue mentions matters of the control blocks and the active tasks. */
  lemma MirrorsChanged(ts: seq<Task>, act: set<Task>, procs: map<nat, Pcb>, queue: seq<nat>, act': set<Task>, procs': map<nat, Pcb>)
    requires Mirrors(ts, act, procs, queue)
    requires forall i :: 0 <= i < |queue| && i < |ts| ==>
      ((ts[i] in act <==> ts[i] in act') <==> (IsActive(procs, queue[i]) <==> IsActive(procs', queue[i])))
    ensures Mirrors(ts, act', procs', queue)
  {
  }

  // ---------------------------------------------------------------- what the steps do to queue and status

  lemma SpawnStatus(s: State, start: int)
    requires Inv(s) && CanSpawn(s, start)
    ensures var s', pid := Spawn(s, start), MaxPid(s.queue) + 1;
      && s'.queue == [pid] + s.queue && pid !in s.procs && s'.procs.Keys == s.procs.Keys + {pid} && IsActive(s'.procs, pid)
      && forall p :: p in s.procs ==> (IsActive(s'.procs, p) <==> IsActive(s.procs, p))
  {
    hide Forest, OneChild, Shown, InControl, ResumesRight, CallsOpen, LogRight;
    NewPidIsFresh(s);
    SpawnFields(s, start);
  }

  lemma ExecuteStatus(s: State, start: int)
    requires Inv(s) && s.current != KERNEL && s.current in s.serial && 0 <= s.procs[s.current].terminal < |s.inTerminal|
    requires CanExecute(s, start)
    ensures var s', pid := Execute(s, start), MaxPid(s.queue) + 1;
      && s'.queue == [pid] + s.queue && pid !in s.procs && s'.procs.Keys == s.procs.Keys + {pid} && IsActive(s'.procs, pid)
      && s'.current == pid && s.current in s.procs && !IsActive(s'.procs, s.current)
      && forall p :: p in s.procs && p != s.current ==> (IsActive(s'.procs, p) <==> IsActive(s.procs, p))
  {
    hide Forest, OneChild, Shown, ResumesRight, CallsOpen, LogRight;
    NewPidIsFresh(s);
    ExecuteFields(s, start);
  }

  lemma HaltStatus(s: State, status: int)
    requires Inv(s) && Callable(s) && s.current != KERNEL
    ensures var s', parent := Halt(s, status), s.procs[s.current].parent;
      && s'.queue == Removed(s.queue, s.current) && s'.procs.Keys == s.procs.Keys - {s.current}
      && s'.current == parent && parent in s.procs && parent != s.current
      && (IsActive(s'.procs, parent) <==> parent != KERNEL || IsActive(s.procs, KERNEL))
      && forall p :: p in s.procs && p != s.current && p != parent ==> (IsActive(s'.procs, p) <==> IsActive(s.procs, p))
  {
    hide Forest, OneChild, Shown, ResumesRight, CallsOpen, LogRight;
    HaltReady(s);
    HaltIs(s, status);
  }

  lemma ScheduleStatus(s: State)
    requires Callable(s) && FirstActive(s.procs, s.queue) < |s.queue|
    ensures var s', i := Schedule(s), FirstActive(s.procs, s.queue);
      && s'.queue == s.queue[i + 1..] + s.queue[..i + 1] && s'.current == s.queue[i] && s'.procs.Keys == s.procs.Keys
      && forall p :: IsActive(s'.procs, p) <==> IsActive(s.procs, p)
  {
    hide FirstActive;
  }

  /** One call of schedule on both queues. */
  lemma MirrorsScheduled(ts: seq<Task>, act: set<Task>, s: State)
    requires Mirrors(ts, act, s.procs, s.queue) && Callable(s) && FirstActive(s.procs, s.queue) < |s.queue|
    ensures RoundRobin.First(ts, act) < |ts| && ts[RoundRobin.First(ts, act)].process == Schedule(s).current
    ensures Mirrors(RoundRobin.Scheduled(ts, act), act, Schedule(s).procs, Schedule(s).queue)
  {
    hide Mirrors, FirstActive, Schedule, RoundRobin.First, IsActive;
    var i := FirstActive(s.procs, s.queue);
    MirrorsFirst(ts, act, s.procs, s.queue);
    MirrorsAt(ts, act, s.procs, s.queue, i);
    MirrorsTurned(ts, act, s.procs, s.queue, i + 1);
    ScheduleStatus(s);
    MirrorsChanged(RoundRobin.Scheduled(ts, act), act, s.procs, Schedule(s).queue, act, Schedule(s).procs);
  }

  // ---------------------------------------------------------------- what every step keeps

  /** A state of the processes and a linked queue that stands for its runqueue. */
  ghost predicate Coupled(s: State, ts: seq<Task>, act: set<Task>, taskOf: map<nat, Task>) {
    Inv(s) && Mirrors(ts, act, s.procs, s.queue) && Owned(taskOf, ts, s.procs)
  }

  lemma BootCoupled(t: Task)
    requires t.process == KERNEL
    ensures Coupled(Boot(), [t], {}, map[KERNEL := t])
  {
    BootInv();
  }

  lemma SpawnCoupled(s: State, ts: seq<Task>, act: set<Task>, taskOf: map<nat, Task>, start: int, t: Task)
    requires Coupled(s, ts, act, taskOf) && CanSpawn(s, start) && t !in ts && t.process == MaxPid(s.queue) + 1
    ensures Coupled(Spawn(s, start), [t] + ts, act + {t}, taskOf[t.process := t])
  {
    hide Inv, Mirrors, Spawn, CanSpawn, MaxPid, IsActive;
    SpawnKeeps(s, start);
    SpawnStatus(s, start);
    QueueLive(s);
    MirrorsChanged(ts, act, s.procs, s.queue, act, Spawn(s, start).procs);
    MirrorsPushed(ts, act, Spawn(s, start).procs, s.queue, t);
  }

  lemma SpawnFailCoupled(s: State, ts: seq<Task>, act: set<Task>, taskOf: map<nat, Task>, start: int)
    requires Coupled(s, ts, act, taskOf) && !CanSpawn(s, start) && s.current == KERNEL
    ensures Coupled(Spawn(s, start), ts, act, taskOf)
  {
    hide Inv, Mirrors, Owned;
    SpawnFailureIff(s, start);
  }

  lemma QueueLive(s: State)
    requires Inv(s)
    ensures (forall i :: 0 <= i < |s.queue| ==> s.queue[i] in s.procs) && Distinct(s.queue)
  {
    assert forall i :: 0 <= i < |s.queue| ==> s.queue[i] in s.queue;
  }

  /** After an execute the new task is in front and that of its parent is idle. */
  lemma ExecuteCoupled(s: State, ts: seq<Task>, act: set<Task>, taskOf: map<nat, Task>, start: int, t: Task)
    requires Coupled(s, ts, act, taskOf) && s.current != KERNEL && CanExecute(s, start)
    requires t !in ts && t.process == MaxPid(s.queue) + 1
    ensures Callable(s) && s.current in taskOf && taskOf[s.current] != t
    ensures Coupled(Execute(s, start), [t] + ts, act + {t} - {taskOf[s.current]}, taskOf[t.process := t])
  {
    hide Inv, Mirrors, Execute, CanExecute, MaxPid, IsActive;
    InvCallable(s);
    ExecuteKeeps(s, start);
    ExecuteStatus(s, start);
    QueueLive(s);
    var s', own := Execute(s, start), taskOf[s.current];
    IdledTask(ts, act, s.procs, s.queue, own, s'.procs);
    MirrorsPushed(ts, act - {own}, s'.procs, s.queue, t);
    assert act - {own} + {t} == act + {t} - {own};
  }

  /** The status of one process changes, and that of its task with it. */
  lemma IdledTask(ts: seq<Task>, act: set<Task>, procs: map<nat, Pcb>, queue: seq<nat>, own: Task, procs': map<nat, Pcb>)
    requires Mirrors(ts, act, procs, queue) && Distinct(queue) && own in ts && (forall i :: 0 <= i < |queue| ==> queue[i] in procs)
    requires !IsActive(procs', own.process)
    requires forall i :: 0 <= i < |queue| && queue[i] != own.process ==> (IsActive(procs', queue[i]) <==> IsActive(procs, queue[i]))
    ensures Mirrors(ts, act - {own}, procs', queue)
  {
    hide IsActive;
  }

  lemma WokenTask(ts: seq<Task>, act: set<Task>, procs: map<nat, Pcb>, queue: seq<nat>, own: Task, procs': map<nat, Pcb>)
    requires Mirrors(ts, act, procs, queue) && Distinct(queue) && own in ts && (forall i :: 0 <= i < |queue| ==> queue[i] in procs)
    requires IsActive(procs', own.process)
    requires forall i :: 0 <= i < |queue| && queue[i] != own.process ==> (IsActive(procs', queue[i]) <==> IsActive(procs, queue[i]))
    ensures Mirrors(ts, act + {own}, procs', queue)
  {
    hide IsActive;
  }

  lemma ExecuteFailCoupled(s: State, ts: seq<Task>, act: set<Task>, taskOf: map<nat, Task>, start: int)
    requires Coupled(s, ts, act, taskOf) && s.current != KERNEL && !CanExecute(s, start)
    ensures Callable(s) && Coupled(Execute(s, start), ts, act, taskOf)
  {
    hide Inv, Mirrors, Owned;
    InvCallable(s);
    ExecuteKeeps(s, start);
  }

  lemma ScheduleCoupled(s: State, ts: seq<Task>, act: set<Task>, taskOf: map<nat, Task>)
    requires Coupled(s, ts, act, taskOf) && FirstActive(s.procs, s.queue) < |s.queue|
    ensures Callable(s)
    ensures RoundRobin.First(ts, act) < |ts| && ts[RoundRobin.First(ts, act)].process == Schedule(s).current
    ensures Coupled(Schedule(s), RoundRobin.Scheduled(ts, act), act, taskOf)
    ensures forall t :: t in RoundRobin.Scheduled(ts, act) ==> t in ts
  {
    hide Inv, Mirrors, FirstActive, Schedule, RoundRobin.First, RoundRobin.Scheduled, IsActive;
    InvCallable(s);
    ScheduleKeeps(s);
    ScheduleStatus(s);
    MirrorsScheduled(ts, act, s);
    ScheduledMembers(ts, act);
  }

  lemma ScheduledMembers<T>(q: seq<T>, act: set<T>)
    requires RoundRobin.First(q, act) < |q|
    ensures forall x :: x in q ==> x in RoundRobin.Scheduled(q, act)
    ensures forall x :: x in RoundRobin.Scheduled(q, act) ==> x in q
  {
    SameMembers(q, RoundRobin.First(q, act) + 1);
  }

  /** Where the task of the running process is, and that of its parent. */
  lemma HaltTasks(s: State, ts: seq<Task>, act: set<Task>, taskOf: map<nat, Task>) returns (i: nat)
    requires Coupled(s, ts, act, taskOf) && s.current != KERNEL
    ensures Callable(s) && s.current in taskOf && s.procs[s.current].parent in taskOf
    ensures i < |ts| && ts[i] == taskOf[s.current] && Removed(s.queue, s.current) == s.queue[..i] + s.queue[i + 1..]
    ensures |ts| == |s.queue| && taskOf[s.procs[s.current].parent] in ts && taskOf[s.procs[s.current].parent] != ts[i]
  {
    hide Inv;
    InvCallable(s);
    CurrentQueued(s);
    QueueLive(s);
    i := RemovedAt(s.queue, s.current);
    TaskAt(ts, act, s.procs, s.queue, taskOf[s.current], i);
  }

  lemma CurrentQueued(s: State)
    requires Inv(s)
    ensures s.current in s.queue && s.current in s.procs
  {
  }

  /** After a halt the task of the child is gone, and that of a parent other than the kernel is active. */
  lemma HaltCoupled(s: State, ts: seq<Task>, act: set<Task>, taskOf: map<nat, Task>, status: int, i: nat)
    requires Coupled(s, ts, act, taskOf) && Callable(s) && s.current != KERNEL && s.current in taskOf
    requires i < |ts| && ts[i] == taskOf[s.current] && |ts| == |s.queue|
    requires Removed(s.queue, s.current) == s.queue[..i] + s.queue[i + 1..]
    ensures var parent := s.procs[s.current].parent;
      && parent in taskOf && Halt(s, status).current == parent
      && Coupled(Halt(s, status), ts[..i] + ts[i + 1..],
           act - {ts[i]} + (if parent == KERNEL then {} else {taskOf[parent]}), taskOf - {s.current})
  {
    hide Inv, Mirrors, Halt, IsActive, Distinct, Callable;
    HaltKeeps(s, status);
    HaltStatus(s, status);
    HaltMirrors(s, ts, act, taskOf, status, i);
    QueueLive(s);
    DroppedMembers(ts, act, s.procs, s.queue, i);
  }

  lemma HaltMirrors(s: State, ts: seq<Task>, act: set<Task>, taskOf: map<nat, Task>, status: int, i: nat)
    requires Coupled(s, ts, act, taskOf) && Callable(s) && s.current != KERNEL && s.current in taskOf
    requires i < |ts| && ts[i] == taskOf[s.current] && |ts| == |s.queue|
    ensures var parent := s.procs[s.current].parent;
      && parent in taskOf
      && Mirrors(ts[..i] + ts[i + 1..], act - {ts[i]} + (if parent == KERNEL then {} else {taskOf[parent]}),
           Halt(s, status).procs, s.queue[..i] + s.queue[i + 1..])
  {
    hide Inv, Mirrors, Halt, IsActive, Distinct;
    HaltStatus(s, status);
    QueueLive(s);
    var s', parent := Halt(s, status), s.procs[s.current].parent;
    var us, q, own := ts[..i] + ts[i + 1..], s.queue[..i] + s.queue[i + 1..], taskOf[parent];
    MirrorsAt(ts, act, s.procs, s.queue, i);
    MirrorsDropped(ts, act, s.procs, s.queue, i);
    DroppedMembers(ts, act, s.procs, s.queue, i);
    if parent == KERNEL {
      MirrorsChanged(us, act, s.procs, q, act - {ts[i]}, s'.procs);
      assert act - {ts[i]} + {} == act - {ts[i]};
    } else {
      WokenTask(us, act, s.procs, q, own, s'.procs);
      MirrorsChanged(us, act + {own}, s'.procs, q, act - {ts[i]} + {own}, s'.procs);
    }
  }

  /** Dropping a task of a queue without repetitions takes out that task and its process only. */
  lemma DroppedMembers(ts: seq<Task>, act: set<Task>, procs: map<nat, Pcb>, queue: seq<nat>, i: nat)
    requires Mirrors(ts, act, procs, queue) && Distinct(queue) && i < |ts| && forall j :: 0 <= j < |queue| ==> queue[j] in procs
    ensures var us, q := ts[..i] + ts[i + 1..], queue[..i] + queue[i + 1..];
      && Distinct(q) && (forall j :: 0 <= j < |q| ==> q[j] in procs)
      && (forall t :: t in us <==> t in ts && t != ts[i])
      && (forall t :: t in us ==> t.process != ts[i].process)
      && (forall j :: 0 <= j < |q| ==> q[j] != queue[i])
  {
  }

  // ---------------------------------------------------------------- the code

  class System {
    const k: Kernel
    const rq: TaskQueue
    var taskOf: map<nat, Task>

    ghost predicate Valid()
      reads this, k, rq, rq.tasks
    {
      rq.Valid() && Coupled(k.View(), rq.tasks, rq.ActiveTasks(), taskOf)
    }

    ghost function Tasks(): set<Task>
      reads rq
    {
      set t | t in rq.tasks
    }

    /** The kernel as its own only process, idled. */
    constructor ()
      ensures Valid() && k.View() == Boot() && fresh(k) && fresh(rq) && fresh(Tasks())
    {
      k := new Kernel();
      rq := new TaskQueue();
      new;
      Start();
    }

    /** The task of the kernel. */
    method Start()
      requires rq.Valid() && rq.tasks == [] && k.View() == Boot()
      modifies this`taskOf, rq
      ensures Valid() && fresh(Tasks())
    {
      hide Coupled, Inv, Boot, TaskQueue.Valid;
      var task := new Task(KERNEL);
      task.active := false;
      rq.PushHead(task);
      taskOf := map[KERNEL := task];
      BootCoupled(task);
      assert [task] + [] == [task];
      assert rq.ActiveTasks() == {};
    }

    /** add_process: a task for a process, active, at the head. */
    method AddTask(pid: nat) returns (task: Task)
      requires rq.Valid()
      modifies this`taskOf, rq, Tasks()`next, Tasks()`prev
      ensures rq.Valid() && fresh(task) && task.process == pid
      ensures rq.tasks == [task] + old(rq.tasks) && rq.ActiveTasks() == old(rq.ActiveTasks()) + {task}
      ensures taskOf == old(taskOf)[pid := task]
    {
      task := new Task(pid);
      rq.PushHead(task);
      hide TaskQueue.Valid;
      taskOf := taskOf[pid := task];
    }

    method Spawn(start: int)
      requires Valid() && (CanSpawn(k.View(), start) || k.current == KERNEL)
      modifies this`taskOf, k, rq, Tasks()`next, Tasks()`prev
      ensures Valid() && k.View() == Processes.Spawn(old(k.View()), start)
      ensures fresh(Tasks() - old(Tasks()))
    {
      hide Coupled, Processes.Spawn, CanSpawn, TaskQueue.Valid, MaxPid;
      ghost var s, ts, act, owners := k.View(), rq.tasks, rq.ActiveTasks(), taskOf;
      var r := k.KernelSpawn(start);
      if r.Some? {
        var task := AddTask(r.value);
        SpawnCoupled(s, ts, act, owners, start, task);
      } else {
        SpawnFailCoupled(s, ts, act, owners, start);
      }
    }

    /** Execute up to the program's start: the child's task is added and the parent's idled. */
    method Execute(start: int)
      requires Valid() && k.current != KERNEL
      modifies this`taskOf, k, rq, Tasks()
      ensures Callable(old(k.View())) && Valid() && k.View() == Processes.Execute(old(k.View()), start)
      ensures fresh(Tasks() - old(Tasks()))
    {
      hide Coupled, Processes.Execute, CanExecute, TaskQueue.Valid, MaxPid, Tables, Callable;
      ghost var s, ts, act, owners := k.View(), rq.tasks, rq.ActiveTasks(), taskOf;
      CoupledReady(s, ts, act, owners);
      var parent := k.current;
      var r := k.SyscallExecute(start);
      if r == -1 {
        ExecuteFailCoupled(s, ts, act, owners, start);
      } else {
        ExecuteNext(s, start);
        var task := AddTask(k.current);
        ExecuteCoupled(s, ts, act, owners, start, task);
        SetActive(taskOf[parent], false);
      }
    }

    /** idle_task and activate_task. */
    method SetActive(task: Task, active: bool)
      requires rq.Valid() && task in rq.tasks
      modifies task`active
      ensures rq.Valid() && rq.ActiveTasks() == if active then old(rq.ActiveTasks()) + {task} else old(rq.ActiveTasks()) - {task}
    {
      task.active := active;
    }

    /** Halt and the return from execute that it causes: the child's task goes, the parent's is active again. */
    method Halt(status: int)
      requires Valid() && k.current != KERNEL
      modifies this`taskOf, k, rq, Tasks()
      ensures Callable(old(k.View())) && Valid() && k.View() == Processes.Halt(old(k.View()), status)
      ensures fresh(Tasks() - old(Tasks()))
    {
      hide Coupled, Processes.Halt, TaskQueue.Valid, Callable;
      ghost var s, ts, act, owners := k.View(), rq.tasks, rq.ActiveTasks(), taskOf;
      ghost var i := HaltTasks(s, ts, act, owners);
      HaltCoupled(s, ts, act, owners, status, i);
      DroppedOne(ts, i);
      var child := k.current;
      k.SyscallHalt(status);
      DropTask(taskOf[child], i);
      assert act - {ts[i]} + {} == act - {ts[i]};
      if k.current != KERNEL {
        SetActive(taskOf[k.current], true);
      }
      taskOf := taskOf - {child};
    }

    /** remove_task and free_task. */
    method DropTask(task: Task, ghost i: nat)
      requires rq.Valid() && i < |rq.tasks| && rq.tasks[i] == task
      modifies rq, Tasks()`next, Tasks()`prev
      ensures rq.Valid() && rq.tasks == old(rq.tasks)[..i] + old(rq.tasks)[i + 1..]
      ensures rq.ActiveTasks() == old(rq.ActiveTasks()) - {task}
    {
      hide TaskQueue.Valid;
      WithoutOne(rq, i);
      var _ := rq.RemoveTask(task, i);
    }

    /** schedule: the linked queue picks the task of the process that becomes current. */
    method DoSchedule() returns (to: Task)
      requires Valid() && FirstActive(k.procs, k.queue) < |k.queue|
      modifies k, rq, Tasks()`next, Tasks()`prev
      ensures Callable(old(k.View())) && Valid() && k.View() == Schedule(old(k.View())) && to.process == k.current
      ensures fresh(Tasks() - old(Tasks()))
    {
      hide Coupled, FirstActive, Schedule, RoundRobin.First, RoundRobin.Scheduled, Callable, TaskQueue.Valid;
      ScheduleCoupled(k.View(), rq.tasks, rq.ActiveTasks(), taskOf);
      to := rq.PickTask();
      k.DoSchedule();
    }

    /** Every step of the processes, made on the linked queue. */
    method Perform(a: Action)
      requires Valid() && Enabled(k.View(), a)
      modifies this`taskOf, k, rq, Tasks()
      ensures Callable(old(k.View())) && Valid() && k.View() == Step(old(k.View()), a)
      ensures fresh(Tasks() - old(Tasks()))
    {
      hide Valid, Callable, Tasks, Kernel.View, Processes.Spawn, Processes.Execute, Processes.Halt, Schedule, CanSpawn, FirstActive;
      ValidReady();
      match a
      case DoSpawn(start) => Spawn(start);
      case DoExecute(start) => Execute(start);
      case DoHalt(status) => Halt(status);
      case DoSchedule => var _ := DoSchedule();
    }

    lemma ValidReady()
      requires Valid()
      ensures Callable(k.View())
      ensures k.View().current == k.current && k.View().procs == k.procs && k.View().queue == k.queue
    {
      CoupledReady(k.View(), rq.tasks, rq.ActiveTasks(), taskOf);
    }

    /** A whole run on the linked queue. */
    method Run(acts: seq<Action>, ghost s': State)
      requires Valid() && Inv(k.View()) && Reaches(k.View(), acts, s')
      modifies this`taskOf, k, rq, Tasks()
      ensures Valid() && k.View() == s'
    {
      hide Valid, Inv, Callable, Enabled, Step;
      var i := 0;
      assert acts[0..] == acts;
      while i < |acts|
        invariant 0 <= i <= |acts| && Valid() && Inv(k.View()) && Reaches(k.View(), acts[i..], s')
        invariant fresh(Tasks() - old(Tasks()))
      {
        assert acts[i..][0] == acts[i] && acts[i..][1..] == acts[i + 1..];
        StepKeeps(k.View(), acts[i]);
        Perform(acts[i]);
        i := i + 1;
      }
    }
  }

  lemma CoupledReady(s: State, ts: seq<Task>, act: set<Task>, taskOf: map<nat, Task>)
    requires Coupled(s, ts, act, taskOf)
    ensures Callable(s) && Tables(s) && s.current in taskOf && taskOf[s.current] in ts
  {
    InvCallable(s);
  }

  lemma ExecuteNext(s: State, start: int)
    requires Callable(s) && s.current != KERNEL && CanExecute(s, start)
    ensures Processes.Execute(s, start).current == MaxPid(s.queue) + 1
  {
  }

  lemma DroppedOne<T>(q: seq<T>, i: nat)
    requires i < |q|
    ensures forall x :: x in q[..i] + q[i + 1..] ==> x in q
    ensures forall x :: x in q && x != q[i] ==> x in q[..i] + q[i + 1..]
  {
    assert q == q[..i] + [q[i]] + q[i + 1..];
  }

  lemma WithoutOne(rq: TaskQueue, i: nat)
    requires rq.Valid() && i < |rq.tasks|
    ensures rq.tasks[i] in rq.tasks
    ensures forall t :: t in rq.tasks[..i] + rq.tasks[i + 1..] <==> t in rq.tasks && t != rq.tasks[i]
  {
    DistinctDrop(rq.tasks, i);
  }
}
