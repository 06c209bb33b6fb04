/**
  The code of student-distrib/task.c and student-distrib/syscall.c that creates, switches
  and ends processes. The runqueue is a sequence here; LinkedKernel.dfy puts the linked tasks
  in its place.
  Each operation is proved to make the step of the same name in Processes.dfy.
 */
module ProcessTable {
  import opened Machine
  import opened Processes
  import RoundRobin

  /** The live processes whose task is active. */
  function ActiveSet(s: State): set<nat> {
    set p | p in s.procs && s.procs[p].status == Active
  }

  /** The step of schedule turns the runqueue as RoundRobin.dfy describes, so its fairness holds here. */
  lemma {:induction false} FirstActiveIsFirst(s: State, queue: seq<nat>)
    ensures FirstActive(s.procs, queue) == RoundRobin.First(queue, ActiveSet(s))
    decreases |queue|
  {
    if queue != [] && queue[0] !in ActiveSet(s) {
      FirstActiveIsFirst(s, queue[1..]);
    }
  }

  lemma ScheduleTurns(s: State, to: nat)
    requires FirstActive(s.procs, s.queue) < |s.queue| && to == s.queue[FirstActive(s.procs, s.queue)]
    requires User(s, to) && s.procs[to].status == Active && s.current in s.procs && s.serial.Keys == s.procs.Keys
    ensures RoundRobin.First(s.queue, ActiveSet(s)) < |s.queue|
    ensures Schedule(s).queue == RoundRobin.Scheduled(s.queue, ActiveSet(s))
    ensures Schedule(s).current == s.queue[RoundRobin.First(s.queue, ActiveSet(s))]
    ensures ActiveSet(Schedule(s)) == ActiveSet(s)
  {
    hide FirstActive, Schedule, SameButResume, DidSwitch, ActiveSet;
    FirstActiveIsFirst(s, s.queue);
    ScheduleIs(s, to);
    SameActives(s, Schedule(s));
  }

  lemma ScheduleIsRoundRobin(s: State)
    requires Inv(s) && FirstActive(s.procs, s.queue) < |s.queue|
    ensures RoundRobin.First(s.queue, ActiveSet(s)) < |s.queue|
    ensures Schedule(s).queue == RoundRobin.Scheduled(s.queue, ActiveSet(s))
    ensures Schedule(s).current == s.queue[RoundRobin.First(s.queue, ActiveSet(s))]
    ensures ActiveSet(Schedule(s)) == ActiveSet(s)
  {
    hide FirstActive, Schedule, ActiveSet, OneChild, Shown, ResumesRight, LogRight, CallsOpen, Forest;
    ScheduleTarget(s);
    ScheduleTurns(s, s.queue[FirstActive(s.procs, s.queue)]);
  }

  lemma SameActives(s: State, s': State)
    requires SameButResume(s, s')
    ensures ActiveSet(s') == ActiveSet(s)
  {
  }

  class Kernel {
    var procs: map<nat, Pcb>
    var queue: seq<nat>
    var current: nat
    var loaded: nat
    var stack: nat
    var inTerminal: seq<Option<nat>>

    ghost var serial: map<nat, nat>
    ghost var ran: set<nat>
    ghost var running: nat
    ghost var created: nat
    ghost var log: seq<Event>
    ghost var wild: bool

    ghost function View(): State
      reads this
    {
      State(procs, queue, current, loaded, stack, inTerminal, serial, ran, running, created, log, wild)
    }

    /** The kernel as its own only process, idle. */
    constructor ()
      ensures View() == Boot() && Inv(View())
    {
      procs := map[KERNEL := Pcb(KERNEL, NO_TERMINAL, Idle, Unset, 0)];
      queue := [KERNEL];
      current, loaded, stack := KERNEL, KERNEL, KERNEL;
      inTerminal := seq(NUM_TERMINALS, _ => None);
      serial, ran, running, created, log, wild := map[KERNEL := 0], {}, KERNEL, 1, [], false;
      BootInv();
    }

    /** The pid search of new_process. */
    method NewPid() returns (pid: nat)
      ensures pid == MaxPid(queue) + 1
    {
      pid := 0;
      var i := 0;
      while i < |queue|
        invariant 0 <= i <= |queue|
        invariant MaxPid(queue) == if MaxPid(queue[i..]) > pid then MaxPid(queue[i..]) else pid
      {
        if queue[i] > pid {
          pid := queue[i];
        }
        assert queue[i..][1..] == queue[i + 1..];
        i := i + 1;
      }
      pid := pid + 1;
    }

    method FindTerminal() returns (t: nat)
      ensures t == NewTerminal(inTerminal)
    {
      t := 0;
      while t < |inTerminal|
        invariant 0 <= t <= |inTerminal|
        invariant NewTerminal(inTerminal) == t + NewTerminal(inTerminal[t..])
      {
        if inTerminal[t] == None || inTerminal[t].value == KERNEL {
          return;
        }
        assert inTerminal[t..][1..] == inTerminal[t + 1..];
        t := t + 1;
      }
    }

    /** set_current_process: its pages and kernel stack go with it. */
    method SetCurrent(p: nat)
      modifies this`current, this`loaded, this`stack
      ensures current == p && loaded == p && stack == p
    {
      current := p;
      loaded := p;
      stack := p;
    }

    /** The part of setup_process that has the pages of the new process loaded; start is 0 if the program does not load. */
    method LoadProgram(pid: nat, start: int) returns (ok: bool)
      modifies this`loaded
      ensures loaded == current && (ok <==> start != 0)
    {
      loaded := pid;
      ok := start != 0;
      loaded := current;
    }

    /** add_process and set_current_process for a process whose control block is filled in. */
    method Admit(pid: nat, pcb: Pcb)
      requires pid == MaxPid(queue) + 1 && 0 <= pcb.terminal < |inTerminal| && pcb.status == Active && pcb.retVal == 0
      modifies this
      ensures View() == SetUp(old(View()), pcb.parent, pcb.terminal, pcb.resume)
    {
      hide MaxPid;
      procs := procs[pid := pcb];
      inTerminal := inTerminal[pcb.terminal := Some(pid)];
      queue := [pid] + queue;
      SetCurrent(pid);
      serial := serial[pid := created];
      created := created + 1;
    }

    /** kernel_spawn; start is where the shell would begin, or 0 if it cannot be loaded. */
    method KernelSpawn(start: int) returns (r: Option<nat>)
      modifies this
      ensures View() == Spawn(old(View()), start)
      ensures r == if CanSpawn(old(View()), start) then Some(MaxPid(old(queue)) + 1) else None
    {
      hide MaxPid, NewTerminal, SetUp;
      ghost var s := View();
      var before := current;
      current := KERNEL;
      var pid := NewPid();
      if pid >= MAX_PROCESSES {
        return None;
      }
      var t := FindTerminal();
      if t == |inTerminal| {
        return None;
      }
      var ok := LoadProgram(pid, start);
      if !ok {
        return None;
      }
      SetUpReloaded(s, KERNEL, KERNEL, KERNEL, t, FreshStart(start));
      Admit(pid, Pcb(KERNEL, t, Active, FreshStart(start), 0));
      ran := ran - {pid};
      current := before;
      return Some(pid);
    }

    /** syscall_execute up to the jump into the program, or its return of -1. */
    method SyscallExecute(start: int) returns (r: int)
      requires Tables(View()) && Callable(View()) && current != KERNEL
      modifies this
      ensures View() == Execute(old(View()), start)
      ensures r == -1 <==> start == 0 || exists p :: p in old(procs) && p >= MAX_PROCESSES - 1
      ensures r == -1 <==> !CanExecute(old(View()), start)
    {
      LargestPid(View());
      NewPidIsFresh(View());
      hide Tables, MaxPid, SetUp, Entering;
      ghost var s := View();
      SetUpHas(s, current, procs[current].terminal);
      SetUpReloaded(s, current, current, current, procs[current].terminal, Unset);
      var pid := NewPid();
      if pid >= MAX_PROCESSES {
        return -1;
      }
      var ok := LoadProgram(pid, start);
      if !ok {
        return -1;
      }
      var parent := current;
      Admit(pid, Pcb(parent, procs[parent].terminal, Active, Unset, 0));
      IdleParent(parent);
      return 0;
    }

    /** The part of syscall_execute after setup_process, up to the jump into the program. */
    method IdleParent(parent: nat)
      requires parent in procs && parent in serial && current in serial
      modifies this
      ensures View() == Entering(old(View()), parent)
    {
      procs := procs[parent := procs[parent].(status := Idle, resume := ExecuteReturn)];
      ran, running, log := ran + {current}, current, log + [Executed(serial[parent], serial[current])];
    }

    /** close_process: the task leaves the runqueue. */
    method RemoveTask(p: nat)
      modifies this`queue
      ensures queue == Removed(old(queue), p)
    {
      var i := 0;
      while i < |queue| && queue[i] != p
        invariant 0 <= i <= |queue|
        invariant Removed(queue, p) == queue[..i] + Removed(queue[i..], p)
      {
        assert queue[i..][1..] == queue[i + 1..];
        assert queue[..i] + ([queue[i]] + Removed(queue[i + 1..], p)) == queue[..i + 1] + Removed(queue[i + 1..], p);
        i := i + 1;
      }
      if i < |queue| {
        assert queue[i..][1..] == queue[i + 1..];
        queue := queue[..i] + queue[i + 1..];
      } else {
        assert queue[..i] + [] == queue;
      }
    }

    /** The part of execute that runs when a child has halted. */
    method ReturnFromExecute() returns (value: int)
      requires current in procs && current in serial
      modifies this
      ensures View() == JumpTo(old(View()), ExecuteReturn) && value == old(procs[current].retVal)
    {
      var p := current;
      procs := procs[p := procs[p].(status := Active)];
      if 0 <= procs[p].terminal < |inTerminal| {
        inTerminal := inTerminal[procs[p].terminal := Some(p)];
      }
      value := procs[p].retVal;
      running, log := p, log + [Returned(serial[p], value)];
    }

    /** syscall_halt up to its jump. */
    method CloseChild(status: int) returns (target: Resume)
      requires Callable(View()) && current != KERNEL
      modifies this
      ensures View() == Ended(old(View()), status)
      ensures target == old(procs[procs[current].parent].resume)
    {
      var child := current;
      var parent := procs[child].parent;
      assert parent in procs && child in serial && 0 <= procs[child].terminal < |inTerminal|;
      hide Removed, Callable;
      target := procs[parent].resume;
      SetCurrent(parent);
      if parent == KERNEL {
        inTerminal := inTerminal[procs[child].terminal := Some(KERNEL)];
      }
      RemoveTask(child);
      Discard(child, parent, status);
    }

    /** The control block of a closed process goes, and its status to its parent. */
    method Discard(child: nat, parent: nat, status: int)
      requires child in serial && parent in procs
      modifies this`procs, this`log, this`serial
      ensures procs == (old(procs) - {child})[parent := old(procs[parent]).(retVal := status)]
      ensures log == old(log) + [Halted(old(serial[child]), status)] && serial == old(serial) - {child}
    {
      procs := (procs - {child})[parent := procs[parent].(retVal := status)];
      log := log + [Halted(serial[child], status)];
      serial := serial - {child};
    }

    /** syscall_halt and the jump that ends it. */
    method SyscallHalt(status: int)
      requires Callable(View()) && current != KERNEL
      modifies this
      ensures View() == Halt(old(View()), status)
    {
      EndedCallable(View(), status);
      hide Ended, Callable;
      var target := CloseChild(status);
      match target
      case ExecuteReturn => var _ := ReturnFromExecute();
      case SwitchBack => running := current;
      case _ => wild := true;
    }

    /** The loop of schedule: take tasks from the head to the tail until an active one comes by. */
    method NextActive() returns (to: nat)
      requires FirstActive(procs, queue) < |queue|
      modifies this`queue
      ensures var i := FirstActive(procs, old(queue));
        to == old(queue)[i] && queue == old(queue)[i + 1..] + old(queue)[..i + 1]
    {
      ghost var q, n := queue, FirstActive(procs, queue);
      to := queue[0];
      queue := queue[1..] + [to];
      ghost var i := 1;
      assert queue == q[1..] + q[..1];
      while !(to in procs && procs[to].status == Active)
        invariant 1 <= i <= n + 1 && to == q[i - 1]
        invariant queue == q[i..] + q[..i]
        decreases n + 1 - i
      {
        assert i - 1 != n;
        ghost var r := q[i..];
        assert queue[0] == r[0] == q[i];
        to := queue[0];
        queue := queue[1..] + [to];
        RotateOne(q, i);
        i := i + 1;
      }
      assert i - 1 == n;
    }

    /** task_switch. */
    method SwitchTask(to: nat)
      requires current in procs && to in procs && to in serial
      modifies this
      ensures View() == TaskSwitch(old(View()), to)
    {
      var target := procs[to].resume;
      procs := procs[current := procs[current].(resume := SwitchBack)];
      SetCurrent(to);
      running, ran, log := to, ran + {to}, log + [Entered(serial[to], target != SwitchBack)];
      wild := wild || target == Unset || target == ExecuteReturn;
    }

    method DoSchedule()
      requires Callable(View()) && FirstActive(procs, queue) < |queue|
      modifies this
      ensures View() == Schedule(old(View()))
    {
      var to := NextActive();
      hide FirstActive, TaskSwitch;
      assert View() == Rotated(old(View()));
      if to != current {
        SwitchTask(to);
      }
    }
  }

  /** What was current and loaded before a process is set up makes no difference. */
  lemma SetUpReloaded(s: State, c: nat, p: nat, parent: nat, t: nat, resume: Resume)
    requires t < |s.inTerminal|
    ensures SetUp(s.(current := c, loaded := p), parent, t, resume) == SetUp(s, parent, t, resume)
    ensures SetUp(s, parent, t, resume).ran == s.ran
  {
  }

  lemma SetUpHas(s: State, parent: nat, t: int)
    requires 0 <= t < |s.inTerminal| && parent in s.procs && parent in s.serial
    ensures var s1 := SetUp(s, parent, t, Unset); parent in s1.procs && parent in s1.serial && s1.current in s1.serial
  {
    hide MaxPid;
  }

  /** After the child is closed the parent is there to jump to. */
  lemma EndedCallable(s: State, status: int)
    requires Callable(s) && s.current != KERNEL
    ensures var s1, parent := Ended(s, status), s.procs[s.current].parent;
      s1.current == parent && parent in s1.procs && parent in s1.serial
  {
    hide Removed;
  }

  lemma RotateOne(q: seq<nat>, i: nat)
    requires i < |q|
    ensures (q[i..] + q[..i])[1..] + [q[i]] == q[i + 1..] + q[..i + 1]
  {
  }
}
