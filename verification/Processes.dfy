/**
  The life of processes (student-distrib/task.c, student-distrib/syscall.c and new_terminal
  in student-distrib/keyboard.c): spawning shells, execute, halt and task switches, as
  atomic steps over process control blocks, the runqueue and the terminals.
 */
module Processes {
  import opened Machine

  const NUM_TERMINALS: nat := 10
  const KERNEL: nat := 0
  const NO_TERMINAL: int := -1

  datatype Status = Active | Idle

  /** Where a process goes on when control comes back to it. */
  datatype Resume = Unset | FreshStart(addr: int) | SwitchBack | ExecuteReturn

  datatype Pcb = Pcb(parent: nat, terminal: int, status: Status, resume: Resume, retVal: int)

  datatype Option<T> = None | Some(value: T)

  /** What happened, by the serial number that each process gets when it is created. */
  datatype Event =
    | Executed(parent: nat, child: nat)
    | Halted(child: nat, status: int)
    | Returned(parent: nat, value: int)
    | Entered(process: nat, userFrame: bool)

  /**
    procs holds the live processes, those with a task in the queue; loaded and stack are the
    pids whose page directory and kernel stack the processor has. The last six fields are
    history: serial numbers, which processes have run, whose context is on the processor,
    the events so far, and whether a jump ever went to an address that was not meant.
   */
  datatype State = State(
    procs: map<nat, Pcb>,
    queue: seq<nat>,
    current: nat,
    loaded: nat,
    stack: nat,
    inTerminal: seq<Option<nat>>,
    serial: map<nat, nat>,
    ran: set<nat>,
    running: nat,
    created: nat,
    log: seq<Event>,
    wild: bool)

  // ---------------------------------------------------------------- lookups

  /** The largest pid in the queue, and at least 0. */
  function MaxPid(queue: seq<nat>): (m: nat)
    ensures forall i :: 0 <= i < |queue| ==> queue[i] <= m
  {
    if queue == [] then 0
    else
      var m := MaxPid(queue[1..]);
      if queue[0] > m then queue[0] else m
  }

  predicate Vacant(t: Option<nat>) {
    t == None || t == Some(KERNEL)
  }

  /** new_terminal: the first terminal that shows nothing or only the kernel. */
  function NewTerminal(ts: seq<Option<nat>>): (i: nat)
    ensures i <= |ts|
    ensures i < |ts| ==> Vacant(ts[i])
    ensures forall j :: 0 <= j < i ==> !Vacant(ts[j])
  {
    if ts == [] || Vacant(ts[0]) then 0 else 1 + NewTerminal(ts[1..])
  }

  /** First position in the queue of an active task, or the length of the queue. */
  function FirstActive(procs: map<nat, Pcb>, queue: seq<nat>): (i: nat)
    ensures i <= |queue|
    ensures i < |queue| ==> queue[i] in procs && procs[queue[i]].status == Active
    ensures forall j :: 0 <= j < i ==> queue[j] !in procs || procs[queue[j]].status != Active
  {
    if queue == [] || (queue[0] in procs && procs[queue[0]].status == Active) then 0
    else 1 + FirstActive(procs, queue[1..])
  }

  function Removed(queue: seq<nat>, p: nat): seq<nat> {
    if queue == [] then [] else if queue[0] == p then queue[1..] else [queue[0]] + Removed(queue[1..], p)
  }

  // ---------------------------------------------------------------- steps

  /** setup_process for a child of parent in terminal t; the new process becomes current. */
  function SetUp(s: State, parent: nat, t: nat, resume: Resume): State
    requires t < |s.inTerminal|
  {
    var pid := MaxPid(s.queue) + 1;
    s.(procs := s.procs[pid := Pcb(parent, t, Active, resume, 0)],
       queue := [pid] + s.queue,
       current := pid,
       loaded := pid,
       stack := pid,
       inTerminal := s.inTerminal[t := Some(pid)],
       serial := s.serial[pid := s.created],
       created := s.created + 1)
  }

  /** kernel_spawn succeeds: there is a pid, a terminal, and the shell can be loaded (start is not 0). */
  predicate CanSpawn(s: State, start: int) {
    && MaxPid(s.queue) + 1 < MAX_PROCESSES
    && NewTerminal(s.inTerminal) < |s.inTerminal|
    && start != 0
  }

  /** A new process gets as far as loading its program, which load_pages brackets. */
  predicate TriesToLoad(s: State, shell: bool) {
    MaxPid(s.queue) + 1 < MAX_PROCESSES && (shell ==> NewTerminal(s.inTerminal) < |s.inTerminal|)
  }

  /** Only current_process is put back afterwards, not the page directory and the kernel stack. */
  function Spawn(s: State, start: int): State {
    if CanSpawn(s, start)
    then
      var pid := MaxPid(s.queue) + 1;
      var s1 := SetUp(s, KERNEL, NewTerminal(s.inTerminal), FreshStart(start));
      s1.(current := s.current, ran := s.ran - {pid})
    else s.(current := KERNEL, loaded := if TriesToLoad(s, true) then KERNEL else s.loaded)
  }

  predicate CanExecute(s: State, start: int) {
    MaxPid(s.queue) + 1 < MAX_PROCESSES && start != 0
  }

  /** The parent of the current process is idled, and the current process runs. */
  function Entering(s: State, parent: nat): State
    requires parent in s.procs && parent in s.serial && s.current in s.serial
  {
    s.(procs := s.procs[parent := s.procs[parent].(status := Idle, resume := ExecuteReturn)],
       ran := s.ran + {s.current},
       running := s.current,
       log := s.log + [Executed(s.serial[parent], s.serial[s.current])])
  }

  /**
    A process of a terminal executes a program; on failure the call returns -1, with the
    caller's pages loaded if others were.
   */
  function Execute(s: State, start: int): State
    requires s.current in s.procs && s.current in s.serial && 0 <= s.procs[s.current].terminal < |s.inTerminal|
  {
    if CanExecute(s, start)
    then Entering(SetUp(s, s.current, s.procs[s.current].terminal, Unset), s.current)
    else s.(loaded := if TriesToLoad(s, false) then s.current else s.loaded)
  }

  /** The jump to where the parent left off. */
  function JumpTo(s: State, target: Resume): State
    requires s.current in s.procs && s.current in s.serial
  {
    var p := s.current;
    match target
    case ExecuteReturn =>
      s.(procs := s.procs[p := s.procs[p].(status := Active)],
         inTerminal := if 0 <= s.procs[p].terminal < |s.inTerminal| then s.inTerminal[s.procs[p].terminal := Some(p)] else s.inTerminal,
         running := p,
         log := s.log + [Returned(s.serial[p], s.procs[p].retVal)])
    case SwitchBack => s.(running := p)
    case _ => s.(wild := true)
  }

  /** What halt does before its jump: the parent becomes current, the child is closed, the status is stored. */
  function Ended(s: State, status: int): State
    requires s.current in s.procs && s.current in s.serial
    requires s.procs[s.current].parent in s.procs && s.procs[s.current].parent in s.serial
    requires 0 <= s.procs[s.current].terminal < |s.inTerminal| && s.procs[s.current].parent != s.current
  {
    var child, parent := s.current, s.procs[s.current].parent;
    s.(current := parent,
       loaded := parent,
       stack := parent,
       inTerminal := if parent == KERNEL then s.inTerminal[s.procs[child].terminal := Some(KERNEL)] else s.inTerminal,
       queue := Removed(s.queue, child),
       procs := (s.procs - {child})[parent := s.procs[parent].(retVal := status)],
       serial := s.serial - {child},
       log := s.log + [Halted(s.serial[child], status)])
  }

  function Halt(s: State, status: int): State
    requires s.current in s.procs && s.current in s.serial
    requires s.procs[s.current].parent in s.procs && s.procs[s.current].parent in s.serial
    requires 0 <= s.procs[s.current].terminal < |s.inTerminal| && s.procs[s.current].parent != s.current
  {
    JumpTo(Ended(s, status), s.procs[s.procs[s.current].parent].resume)
  }

  function TaskSwitch(s: State, to: nat): State
    requires s.current in s.procs && to in s.procs && to in s.serial
  {
    var target := s.procs[to].resume;
    s.(procs := s.procs[s.current := s.procs[s.current].(resume := SwitchBack)],
       current := to,
       loaded := to,
       stack := to,
       running := to,
       ran := s.ran + {to},
       log := s.log + [Entered(s.serial[to], target != SwitchBack)],
       wild := s.wild || target == Unset || target == ExecuteReturn)
  }

  /** The queue turned past its first active task. */
  function Rotated(s: State): State
    requires FirstActive(s.procs, s.queue) < |s.queue|
  {
    var i := FirstActive(s.procs, s.queue);
    s.(queue := s.queue[i + 1..] + s.queue[..i + 1])
  }

  /** schedule: rotate the queue past its first active task and switch to it unless it is current. */
  function Schedule(s: State): State
    requires FirstActive(s.procs, s.queue) < |s.queue|
    requires s.current in s.procs && forall p :: p in s.procs ==> p in s.serial
  {
    var to := s.queue[FirstActive(s.procs, s.queue)];
    if to == s.current then Rotated(s) else TaskSwitch(Rotated(s), to)
  }

  // ---------------------------------------------------------------- the invariant

  /** The tables fit together: the queue lists the live processes once each, pids and serial numbers are unique. */
  ghost predicate Tables(s: State) {
    && |s.inTerminal| == NUM_TERMINALS
    && KERNEL in s.procs
    && s.serial.Keys == s.procs.Keys
    && (forall p :: p in s.queue <==> p in s.procs)
    && Distinct(s.queue)
    && (forall p :: p in s.procs ==> p < MAX_PROCESSES && s.serial[p] < s.created)
    && (forall p, q :: p in s.procs && q in s.procs && s.serial[p] == s.serial[q] ==> p == q)
  }

  ghost predicate Child(s: State, c: nat, p: nat) {
    c in s.procs && c != KERNEL && s.procs[c].parent == p
  }

  /** Parent links lead through live processes of the same terminal to the kernel, and pids grow away from it. */
  ghost predicate Forest(s: State)
    requires KERNEL in s.procs
  {
    && s.procs[KERNEL].terminal == NO_TERMINAL && s.procs[KERNEL].status == Idle
    && forall c, p :: Child(s, c, p) ==>
         && p in s.procs && p < c
         && 0 <= s.procs[c].terminal < NUM_TERMINALS
         && (p != KERNEL ==> s.procs[p].status == Idle && s.procs[p].terminal == s.procs[c].terminal)
  }

  ghost predicate HasChild(s: State, p: nat) {
    exists c :: Child(s, c, p)
  }

  /** A process waits exactly for one child; two shells never share a terminal. */
  ghost predicate OneChild(s: State) {
    && (forall p :: p in s.procs && p != KERNEL && s.procs[p].status == Idle ==> HasChild(s, p))
    && (forall c, d, p :: Child(s, c, p) && Child(s, d, p) && p != KERNEL ==> c == d)
    && (forall c, d :: Child(s, c, KERNEL) && Child(s, d, KERNEL) && s.procs[c].terminal == s.procs[d].terminal ==> c == d)
  }

  ghost predicate User(s: State, p: nat) {
    p in s.procs && p != KERNEL
  }

  /** Each terminal shows its active process, and an active process is shown by its terminal. */
  ghost predicate Shown(s: State)
    requires |s.inTerminal| == NUM_TERMINALS
  {
    && (forall t :: 0 <= t < NUM_TERMINALS && !Vacant(s.inTerminal[t]) ==>
          var p := s.inTerminal[t].value;
          User(s, p) && s.procs[p].status == Active && s.procs[p].terminal == t)
    && (forall p :: User(s, p) && s.procs[p].status == Active ==>
          0 <= s.procs[p].terminal < NUM_TERMINALS && s.inTerminal[s.procs[p].terminal] == Some(p))
  }

  /** The process on the processor is the current one, it may run, and no jump has gone astray. */
  ghost predicate InControl(s: State) {
    && s.current in s.procs && s.running == s.current && !s.wild
    && (s.current != KERNEL ==> s.procs[s.current].status == Active && s.current in s.ran)
  }

  /** Where each process that is not running goes on. */
  ghost predicate ResumesRight(s: State)
    requires KERNEL in s.procs
  {
    && (s.current != KERNEL ==> s.procs[KERNEL].resume == SwitchBack)
    && (forall p :: User(s, p) && s.procs[p].status == Idle ==> s.procs[p].resume == ExecuteReturn && p in s.ran)
    && (forall p :: User(s, p) && s.procs[p].status == Active && p != s.current ==>
          if p in s.ran then s.procs[p].resume == SwitchBack else s.procs[p].resume.FreshStart?)
  }

  predicate Concerns(e: Event, parent: nat) {
    (e.Executed? && e.parent == parent) || (e.Returned? && e.parent == parent)
  }

  /** Since event j, by which parent executed child, the parent has neither executed again nor returned. */
  ghost predicate OpenCall(log: seq<Event>, j: nat, parent: nat, child: nat) {
    j < |log| && log[j] == Executed(parent, child) && forall k :: j < k < |log| ==> !Concerns(log[k], parent)
  }

  ghost predicate Waiting(log: seq<Event>, parent: nat, child: nat) {
    exists j: nat :: OpenCall(log, j, parent, child)
  }

  /** A return at i gives back the status with which the very child of the last open execute halted. */
  ghost predicate OwnStatus(log: seq<Event>, i: nat)
    requires i < |log|
  {
    log[i].Returned? ==>
      && i > 0 && log[i - 1].Halted? && log[i - 1].status == log[i].value
      && Waiting(log[..i], log[i].parent, log[i - 1].child)
  }

  ghost predicate LogRight(log: seq<Event>) {
    forall i: nat :: i < |log| ==> OwnStatus(log, i)
  }

  ghost predicate CallsOpen(s: State) {
    forall c, p :: Child(s, c, p) && p != KERNEL && c in s.serial && p in s.serial ==> Waiting(s.log, s.serial[p], s.serial[c])
  }

  ghost predicate Inv(s: State) {
    Tables(s) && Forest(s) && OneChild(s) && Shown(s) && InControl(s) && ResumesRight(s) && LogRight(s.log) && CallsOpen(s)
  }

  // ---------------------------------------------------------------- log facts

  lemma WaitingAppend(log: seq<Event>, e: Event, parent: nat, child: nat)
    requires Waiting(log, parent, child) && !Concerns(e, parent)
    ensures Waiting(log + [e], parent, child)
  {
    var j: nat :| OpenCall(log, j, parent, child);
    assert OpenCall(log + [e], j, parent, child);
  }

  lemma WaitingStarts(log: seq<Event>, parent: nat, child: nat)
    ensures Waiting(log + [Executed(parent, child)], parent, child)
  {
    assert OpenCall(log + [Executed(parent, child)], |log|, parent, child);
  }

  lemma LogAppend(log: seq<Event>, e: Event)
    requires LogRight(log)
    requires e.Returned? ==>
      && log != [] && log[|log| - 1].Halted? && log[|log| - 1].status == e.value
      && Waiting(log, e.parent, log[|log| - 1].child)
    ensures LogRight(log + [e])
  {
    var l := log + [e];
    forall i: nat | i < |l| ensures OwnStatus(l, i) {
      if i < |log| {
        assert OwnStatus(log, i) && l[..i] == log[..i];
      } else {
        assert l[..i] == log;
      }
    }
  }

  // ---------------------------------------------------------------- queue facts

  ghost predicate Distinct(queue: seq<nat>) {
    forall i, j :: 0 <= i < j < |queue| ==> queue[i] != queue[j]
  }

  lemma {:induction false} RemovedIs(queue: seq<nat>, p: nat)
    requires Distinct(queue)
    ensures Distinct(Removed(queue, p))
    ensures forall q :: q in Removed(queue, p) <==> q in queue && q != p
    decreases |queue|
  {
    if queue != [] {
      var r := queue[1..];
      assert queue == [queue[0]] + r;
      assert queue[0] !in r;
      if queue[0] != p {
        RemovedIs(r, p);
        var t := Removed(r, p);
        assert Removed(queue, p) == [queue[0]] + t;
        assert forall q :: q in Removed(queue, p) <==> q == queue[0] || q in t;
        assert forall j :: 0 <= j < |t| ==> t[j] in t;
      }
    }
  }

  lemma RotatedIs(queue: seq<nat>, i: nat)
    requires Distinct(queue) && i <= |queue|
    ensures Distinct(queue[i..] + queue[..i])
    ensures forall q :: q in queue[i..] + queue[..i] <==> q in queue
  {
    assert queue == queue[..i] + queue[i..];
  }

  // ---------------------------------------------------------------- terminals hold chains

  /** A process and its ancestors below the kernel, leaf first. */
  ghost function Chain(s: State, p: nat): seq<nat>
    requires Tables(s) && Forest(s)
    decreases p
  {
    if p == KERNEL || p !in s.procs then []
    else
      assert Child(s, p, s.procs[p].parent);
      [p] + Chain(s, s.procs[p].parent)
  }

  lemma {:induction false} ChainClosed(s: State, p: nat, q: nat)
    requires Tables(s) && Forest(s) && q in Chain(s, p)
    ensures User(s, q) && s.procs[q].terminal == s.procs[p].terminal && q <= p && p in s.procs
    ensures s.procs[q].parent != KERNEL ==> s.procs[q].parent in Chain(s, p)
    ensures q != p ==> s.procs[q].status == Idle
    decreases p
  {
    var r := s.procs[p].parent;
    assert Child(s, p, r);
    if q == p {
      if r != KERNEL {
        assert Chain(s, r)[0] == r;
      }
    } else {
      ChainClosed(s, r, q);
      if q == r {
        assert s.procs[r].status == Idle;
      }
    }
  }

  /** From any process the children lead down to an active one, which has the process among its ancestors. */
  lemma {:induction false} DownToLeaf(s: State, p: nat) returns (leaf: nat)
    requires Tables(s) && Forest(s) && OneChild(s) && User(s, p)
    ensures User(s, leaf) && s.procs[leaf].status == Active
    ensures s.procs[leaf].terminal == s.procs[p].terminal
    ensures p in Chain(s, leaf)
    decreases MAX_PROCESSES - p
  {
    if s.procs[p].status == Active {
      leaf := p;
      assert Chain(s, p)[0] == p;
    } else {
      assert HasChild(s, p);
      var c :| Child(s, c, p);
      leaf := DownToLeaf(s, c);
      ChainClosed(s, leaf, c);
    }
  }

  /**
    The processes of a terminal are one chain: the process it shows, which alone is active,
    and its ancestors up to a shell; a vacant terminal has none.
   */
  lemma TerminalIsChain(s: State, t: nat)
    requires Inv(s) && t < NUM_TERMINALS
    ensures Vacant(s.inTerminal[t]) ==> forall p :: User(s, p) ==> s.procs[p].terminal != t
    ensures !Vacant(s.inTerminal[t]) ==>
      var leaf := s.inTerminal[t].value;
      && (forall p :: User(s, p) && s.procs[p].terminal == t <==> p in Chain(s, leaf))
      && (forall p :: p in Chain(s, leaf) ==> (s.procs[p].status == Active <==> p == leaf))
  {
    forall p | User(s, p) && s.procs[p].terminal == t
      ensures !Vacant(s.inTerminal[t]) && p in Chain(s, s.inTerminal[t].value)
    {
      var leaf := DownToLeaf(s, p);
    }
    if !Vacant(s.inTerminal[t]) {
      var leaf := s.inTerminal[t].value;
      forall p | p in Chain(s, leaf)
        ensures User(s, p) && s.procs[p].terminal == t && (s.procs[p].status == Active <==> p == leaf)
      {
        ChainClosed(s, leaf, p);
      }
    }
  }

  // ---------------------------------------------------------------- every step keeps the invariant

  lemma NewPidIsFresh(s: State)
    requires Tables(s)
    ensures MaxPid(s.queue) + 1 !in s.procs && MaxPid(s.queue) + 1 != KERNEL
    ensures forall p :: p in s.procs ==> p < MaxPid(s.queue) + 1
  {
    forall p | p in s.procs ensures p < MaxPid(s.queue) + 1 {
      var i :| 0 <= i < |s.queue| && s.queue[i] == p;
    }
  }

  lemma SetUpTables(s: State, s': State, pid: nat)
    requires Tables(s) && pid < MAX_PROCESSES && pid !in s.procs
    requires |s'.inTerminal| == NUM_TERMINALS && s'.queue == [pid] + s.queue
    requires s'.procs.Keys == s.procs.Keys + {pid}
    requires s'.serial == s.serial[pid := s.created] && s'.created == s.created + 1
    ensures Tables(s')
  {
    hide Distinct;
    DistinctCons(s.queue, pid);
  }

  lemma DistinctCons(queue: seq<nat>, p: nat)
    requires Distinct(queue) && p !in queue
    ensures Distinct([p] + queue) && forall q :: q in [p] + queue <==> q == p || q in queue
  {
    assert forall i :: 0 <= i < |queue| ==> queue[i] in queue;
  }

  /** The terminal that a new shell gets has no process left in it. */
  lemma NewTerminalIsFree(s: State)
    requires Inv(s) && NewTerminal(s.inTerminal) < NUM_TERMINALS
    ensures forall p :: User(s, p) ==> s.procs[p].terminal != NewTerminal(s.inTerminal)
  {
    TerminalIsChain(s, NewTerminal(s.inTerminal));
  }

  /** What a new shell changes. */
  ghost predicate Spawned(s: State, s': State, pid: nat, t: nat, start: int) {
    && pid !in s.procs && pid != KERNEL && KERNEL in s.procs && t < |s.inTerminal|
    && s'.procs == s.procs[pid := Pcb(KERNEL, t, Active, FreshStart(start), 0)]
    && s'.current == s.current && s'.running == s.running && s'.wild == s.wild && s'.log == s.log
    && s'.inTerminal == s.inTerminal[t := Some(pid)]
    && s'.ran == s.ran - {pid}
    && s'.serial == s.serial[pid := s.created]
  }

  lemma SpawnForest(s: State, s': State, pid: nat, t: nat, start: int)
    requires Spawned(s, s', pid, t, start) && Forest(s) && t < NUM_TERMINALS
    ensures Forest(s')
  {
    forall c, p | Child(s', c, p)
      ensures p in s'.procs && p < c && 0 <= s'.procs[c].terminal < NUM_TERMINALS
      ensures p != KERNEL ==> s'.procs[p].status == Idle && s'.procs[p].terminal == s'.procs[c].terminal
    {
      if c != pid {
        assert Child(s, c, p);
      }
    }
  }

  lemma SpawnOneChild(s: State, s': State, pid: nat, t: nat, start: int)
    requires Spawned(s, s', pid, t, start) && Forest(s) && OneChild(s)
    requires forall p :: User(s, p) ==> s.procs[p].terminal != t
    ensures OneChild(s')
  {
    assert forall c, p :: Child(s', c, p) <==> Child(s, c, p) || (c == pid && p == KERNEL);
    forall p | p in s'.procs && p != KERNEL && s'.procs[p].status == Idle ensures HasChild(s', p) {
      assert HasChild(s, p);
      var c :| Child(s, c, p);
      assert Child(s', c, p);
    }
    forall c, d | Child(s', c, KERNEL) && Child(s', d, KERNEL) && s'.procs[c].terminal == s'.procs[d].terminal ensures c == d {
      assert c != pid ==> User(s, c);
      assert d != pid ==> User(s, d);
    }
  }

  lemma SpawnShown(s: State, s': State, pid: nat, t: nat, start: int)
    requires Spawned(s, s', pid, t, start) && |s.inTerminal| == NUM_TERMINALS && Shown(s) && Vacant(s.inTerminal[t])
    ensures Shown(s')
  {
    assert forall p :: User(s', p) <==> User(s, p) || p == pid;
  }

  lemma SpawnResumes(s: State, s': State, pid: nat, t: nat, start: int)
    requires Spawned(s, s', pid, t, start) && InControl(s) && ResumesRight(s)
    ensures InControl(s') && ResumesRight(s')
  {
    assert forall p :: User(s', p) <==> User(s, p) || p == pid;
  }

  lemma SpawnCalls(s: State, s': State, pid: nat, t: nat, start: int)
    requires Spawned(s, s', pid, t, start) && CallsOpen(s) && Forest(s) && s.serial.Keys == s.procs.Keys
    ensures CallsOpen(s')
  {
    forall c, p | Child(s', c, p) && p != KERNEL && c in s'.serial && p in s'.serial
      ensures Waiting(s'.log, s'.serial[p], s'.serial[c])
    {
      assert Child(s, c, p);
    }
  }

  lemma SpawnIs(s: State, start: int)
    requires Tables(s) && CanSpawn(s, start)
    ensures Spawned(s, Spawn(s, start), MaxPid(s.queue) + 1, NewTerminal(s.inTerminal), start)
    ensures Tables(Spawn(s, start))
  {
    NewPidIsFresh(s);
    SpawnFields(s, start);
    hide Spawn, SetUp, CanSpawn, MaxPid, NewTerminal, Spawned;
    SetUpTables(s, Spawn(s, start), MaxPid(s.queue) + 1);
  }

  lemma SpawnFields(s: State, start: int)
    requires CanSpawn(s, start) && |s.inTerminal| == NUM_TERMINALS && KERNEL in s.procs
    requires MaxPid(s.queue) + 1 !in s.procs
    ensures var s', pid := Spawn(s, start), MaxPid(s.queue) + 1;
      && pid < MAX_PROCESSES && Spawned(s, s', pid, NewTerminal(s.inTerminal), start)
      && |s'.inTerminal| == NUM_TERMINALS && s'.queue == [pid] + s.queue && s'.procs.Keys == s.procs.Keys + {pid}
      && s'.serial == s.serial[pid := s.created] && s'.created == s.created + 1
  {
    hide MaxPid, NewTerminal;
  }

  lemma SpawnKeeps(s: State, start: int)
    requires Inv(s) && CanSpawn(s, start)
    ensures Inv(Spawn(s, start))
  {
    hide Forest, OneChild, Shown, InControl, ResumesRight, CallsOpen, LogRight, Spawned, Child, User, Spawn;
    var pid, t, s' := MaxPid(s.queue) + 1, NewTerminal(s.inTerminal), Spawn(s, start);
    NewTerminalIsFree(s);
    SpawnIs(s, start);
    assert s'.log == s.log by {
      SpawnedLog(s, s', pid, t, start);
    }
    hide Tables;
    SpawnForest(s, s', pid, t, start);
    SpawnOneChild(s, s', pid, t, start);
    SpawnShown(s, s', pid, t, start);
    SpawnResumes(s, s', pid, t, start);
    SpawnCalls(s, s', pid, t, start);
  }

  lemma SpawnedLog(s: State, s': State, pid: nat, t: nat, start: int)
    requires Spawned(s, s', pid, t, start)
    ensures s'.log == s.log
  {
  }

  /** What a successful execute changes. */
  ghost predicate DidExecute(s: State, s': State, pid: nat, parent: nat) {
    && pid !in s.procs && pid != KERNEL && parent in s.procs && parent != KERNEL && parent == s.current
    && s.procs[parent].status == Active && 0 <= s.procs[parent].terminal < |s.inTerminal|
    && s.serial.Keys == s.procs.Keys
    && s'.procs == s.procs[pid := Pcb(parent, s.procs[parent].terminal, Active, Unset, 0)]
                          [parent := s.procs[parent].(status := Idle, resume := ExecuteReturn)]
    && s'.current == pid && s'.running == pid && s'.wild == s.wild
    && s'.log == s.log + [Executed(s.serial[parent], s.created)]
    && s'.inTerminal == s.inTerminal[s.procs[parent].terminal := Some(pid)]
    && s'.ran == s.ran + {pid}
    && s'.serial == s.serial[pid := s.created]
  }

  lemma ExecuteChildren(s: State, s': State, pid: nat, parent: nat)
    requires DidExecute(s, s', pid, parent) && KERNEL in s.procs && Forest(s)
    ensures forall c, p :: Child(s', c, p) <==> Child(s, c, p) || (c == pid && p == parent)
    ensures forall c :: !Child(s, c, parent)
    ensures forall p :: User(s', p) <==> User(s, p) || p == pid
  {
    assert forall p :: p in s.procs && p != parent ==> s'.procs[p] == s.procs[p];
  }

  lemma ExecuteForest(s: State, s': State, pid: nat, parent: nat)
    requires DidExecute(s, s', pid, parent) && KERNEL in s.procs && Forest(s) && parent < pid && |s.inTerminal| == NUM_TERMINALS
    ensures Forest(s')
  {
    ExecuteChildren(s, s', pid, parent);
  }

  lemma ExecuteOneChild(s: State, s': State, pid: nat, parent: nat)
    requires DidExecute(s, s', pid, parent) && KERNEL in s.procs && Forest(s) && OneChild(s)
    ensures OneChild(s')
  {
    ExecuteChildren(s, s', pid, parent);
    assert Child(s', pid, parent);
    forall p | p in s'.procs && p != KERNEL && s'.procs[p].status == Idle ensures HasChild(s', p) {
      if p != parent {
        assert HasChild(s, p);
        var c :| Child(s, c, p);
        assert Child(s', c, p);
      }
    }
  }

  lemma ExecuteShown(s: State, s': State, pid: nat, parent: nat)
    requires DidExecute(s, s', pid, parent) && |s.inTerminal| == NUM_TERMINALS && Shown(s)
    ensures Shown(s')
  {
    assert User(s, parent);
    assert forall p :: User(s', p) <==> User(s, p) || p == pid;
  }

  lemma ExecuteResumes(s: State, s': State, pid: nat, parent: nat)
    requires DidExecute(s, s', pid, parent) && KERNEL in s.procs && InControl(s) && ResumesRight(s)
    ensures InControl(s') && ResumesRight(s')
  {
    assert forall p :: User(s', p) <==> User(s, p) || p == pid;
  }

  lemma ExecuteCalls(s: State, s': State, pid: nat, parent: nat)
    requires DidExecute(s, s', pid, parent) && Tables(s) && Forest(s) && CallsOpen(s) && LogRight(s.log)
    ensures CallsOpen(s') && LogRight(s'.log)
  {
    var e := Executed(s.serial[parent], s.created);
    LogAppend(s.log, e);
    ExecuteChildren(s, s', pid, parent);
    forall c, p | Child(s', c, p) && p != KERNEL && c in s'.serial && p in s'.serial
      ensures Waiting(s'.log, s'.serial[p], s'.serial[c])
    {
      if c == pid {
        WaitingStarts(s.log, s.serial[parent], s.created);
      } else {
        WaitingAppend(s.log, e, s.serial[p], s.serial[c]);
      }
    }
  }

  lemma ExecuteIs(s: State, start: int)
    requires Tables(s) && Forest(s) && InControl(s) && s.current != KERNEL
    ensures s.current in s.serial && 0 <= s.procs[s.current].terminal < |s.inTerminal|
    ensures CanExecute(s, start) ==>
      && DidExecute(s, Execute(s, start), MaxPid(s.queue) + 1, s.current)
      && Tables(Execute(s, start)) && s.current < MaxPid(s.queue) + 1
  {
    hide Execute, DidExecute, SetUp, MaxPid, Forest, CanExecute, Distinct;
    ExecuteReady(s);
    if CanExecute(s, start) {
      NewPidIsFresh(s);
      ExecuteFields(s, start);
      SetUpTables(s, Execute(s, start), MaxPid(s.queue) + 1);
    }
  }

  lemma ExecuteReady(s: State)
    requires Tables(s) && Forest(s) && s.current in s.procs && s.current != KERNEL
    ensures s.current in s.serial && 0 <= s.procs[s.current].terminal < |s.inTerminal|
  {
    assert Child(s, s.current, s.procs[s.current].parent);
  }

  lemma ExecuteFields(s: State, start: int)
    requires CanExecute(s, start) && |s.inTerminal| == NUM_TERMINALS && s.serial.Keys == s.procs.Keys
    requires s.current in s.procs && s.current != KERNEL && s.current in s.serial && 0 <= s.procs[s.current].terminal < |s.inTerminal|
    requires s.procs[s.current].status == Active && MaxPid(s.queue) + 1 !in s.procs
    ensures var s', pid := Execute(s, start), MaxPid(s.queue) + 1;
      && DidExecute(s, s', pid, s.current)
      && pid < MAX_PROCESSES
      && |s'.inTerminal| == NUM_TERMINALS && s'.queue == [pid] + s.queue && s'.procs.Keys == s.procs.Keys + {pid}
      && s'.serial == s.serial[pid := s.created] && s'.created == s.created + 1
  {
    hide MaxPid;
  }

  /** Execute can be called by every user process, and leaves the invariant as it was. */
  lemma ExecuteKeeps(s: State, start: int)
    requires Inv(s) && s.current != KERNEL
    ensures s.current in s.serial && 0 <= s.procs[s.current].terminal < |s.inTerminal|
    ensures Inv(Execute(s, start))
  {
    ExecuteIs(s, start);
    hide Forest, OneChild, Shown, InControl, ResumesRight, CallsOpen, LogRight, DidExecute, Child, User;
    if CanExecute(s, start) {
      hide Execute;
      var pid, parent, s' := MaxPid(s.queue) + 1, s.current, Execute(s, start);
      ExecuteForest(s, s', pid, parent);
      ExecuteOneChild(s, s', pid, parent);
      ExecuteShown(s, s', pid, parent);
      ExecuteResumes(s, s', pid, parent);
      ExecuteCalls(s, s', pid, parent);
    } else {
      InvReloaded(s, Execute(s, start).loaded);
    }
  }

  // halt

  /** What a halt changes when the parent is the kernel, and when it is a user process waiting in execute. */
  ghost predicate DidHalt(s: State, s': State, child: nat, parent: nat, status: int) {
    && child in s.procs && child != KERNEL && child == s.current && parent in s.procs && parent != child
    && s.procs[child].parent == parent && s.procs[child].status == Active
    && s.serial.Keys == s.procs.Keys && 0 <= s.procs[child].terminal < |s.inTerminal|
    && s'.procs.Keys == s.procs.Keys - {child}
    && (forall p :: p in s.procs && p != child && p != parent ==> s'.procs[p] == s.procs[p])
    && s'.procs[parent] == s.procs[parent].(retVal := status, status := if parent == KERNEL then s.procs[parent].status else Active)
    && s'.current == parent && s'.running == parent && s'.wild == s.wild && s'.ran == s.ran
    && s'.inTerminal == s.inTerminal[s.procs[child].terminal := Some(parent)]
    && s'.serial == s.serial - {child}
    && s'.log == s.log + [Halted(s.serial[child], status)]
                 + (if parent == KERNEL then [] else [Returned(s.serial[parent], status)])
  }

  /** A user process that runs has all that a halt needs; its parent is the kernel or waits in execute. */
  lemma HaltReady(s: State)
    requires Tables(s) && Forest(s) && InControl(s) && ResumesRight(s) && s.current != KERNEL
    ensures var parent := s.procs[s.current].parent;
      && parent in s.procs && parent != s.current
      && s.current in s.serial && parent in s.serial && 0 <= s.procs[s.current].terminal < |s.inTerminal|
      && s.procs[parent].resume == (if parent == KERNEL then SwitchBack else ExecuteReturn)
      && (parent != KERNEL ==> s.procs[parent].terminal == s.procs[s.current].terminal)
  {
    var parent := s.procs[s.current].parent;
    assert Child(s, s.current, parent);
    assert parent != KERNEL ==> User(s, parent);
  }

  /** The jump that ends a halt goes where the parent left off: into its execute, or back to the kernel. */
  lemma HaltIs(s: State, status: int)
    requires s.current in s.procs && s.current != KERNEL && s.procs[s.current].status == Active
    requires s.serial.Keys == s.procs.Keys
    requires var parent := s.procs[s.current].parent;
      && parent in s.procs && parent != s.current
      && s.current in s.serial && parent in s.serial && 0 <= s.procs[s.current].terminal < |s.inTerminal|
      && s.procs[parent].resume == (if parent == KERNEL then SwitchBack else ExecuteReturn)
      && (parent != KERNEL ==> s.procs[parent].terminal == s.procs[s.current].terminal)
    ensures DidHalt(s, Halt(s, status), s.current, s.procs[s.current].parent, status)
    ensures Halt(s, status).queue == Removed(s.queue, s.current) && Halt(s, status).created == s.created
  {
    var child, parent, s' := s.current, s.procs[s.current].parent, Halt(s, status);
    var l := s.log + [Halted(s.serial[child], status)];
    assert l + [] == l;
    assert s'.procs.Keys == s.procs.Keys - {child};
  }

  lemma HaltTables(s: State, s': State, child: nat)
    requires Tables(s) && child in s.procs && child != KERNEL
    requires |s'.inTerminal| == NUM_TERMINALS && s'.queue == Removed(s.queue, child)
    requires s'.procs.Keys == s.procs.Keys - {child}
    requires s'.serial == s.serial - {child} && s'.created == s.created
    ensures Tables(s')
  {
    RemovedIs(s.queue, child);
  }

  lemma HaltChildren(s: State, s': State, child: nat, parent: nat, status: int)
    requires DidHalt(s, s', child, parent, status) && KERNEL in s.procs && Forest(s)
    ensures forall c, p :: Child(s', c, p) <==> Child(s, c, p) && c != child
    ensures forall c :: !Child(s, c, child)
    ensures forall p :: User(s', p) <==> User(s, p) && p != child
  {
  }

  lemma HaltForest(s: State, s': State, child: nat, parent: nat, status: int)
    requires DidHalt(s, s', child, parent, status) && KERNEL in s.procs && Forest(s) && OneChild(s)
    ensures Forest(s')
  {
    HaltChildren(s, s', child, parent, status);
    assert Child(s, child, parent);
    forall c, p | Child(s', c, p)
      ensures p in s'.procs && p < c && 0 <= s'.procs[c].terminal < NUM_TERMINALS
      ensures p != KERNEL ==> s'.procs[p].status == Idle && s'.procs[p].terminal == s'.procs[c].terminal
    {
      assert Child(s, c, p) && p != child;
    }
  }

  lemma HaltOneChild(s: State, s': State, child: nat, parent: nat, status: int)
    requires DidHalt(s, s', child, parent, status) && KERNEL in s.procs && Forest(s) && OneChild(s)
    ensures OneChild(s')
  {
    HaltChildren(s, s', child, parent, status);
    forall p | p in s'.procs && p != KERNEL && s'.procs[p].status == Idle ensures HasChild(s', p) {
      assert HasChild(s, p);
      var c :| Child(s, c, p);
      assert p != parent && c != child;
      assert Child(s', c, p);
    }
    assert forall c :: Child(s', c, KERNEL) ==> s'.procs[c].terminal == s.procs[c].terminal;
  }

  lemma HaltShown(s: State, s': State, child: nat, parent: nat, status: int)
    requires DidHalt(s, s', child, parent, status) && KERNEL in s.procs && Forest(s) && |s.inTerminal| == NUM_TERMINALS && Shown(s)
    ensures Shown(s')
  {
    HaltChildren(s, s', child, parent, status);
    assert Child(s, child, parent) && User(s, child);
  }

  lemma HaltResumes(s: State, s': State, child: nat, parent: nat, status: int)
    requires DidHalt(s, s', child, parent, status) && KERNEL in s.procs && Forest(s) && InControl(s) && ResumesRight(s)
    ensures InControl(s') && ResumesRight(s')
  {
    HaltChildren(s, s', child, parent, status);
    assert Child(s, child, parent);
    assert parent != KERNEL ==> User(s, parent) && s.procs[parent].status == Idle;
  }

  lemma HaltCalls(s: State, s': State, child: nat, parent: nat, status: int)
    requires DidHalt(s, s', child, parent, status) && Tables(s) && Forest(s) && OneChild(s) && CallsOpen(s) && LogRight(s.log)
    ensures CallsOpen(s') && LogRight(s'.log)
  {
    var h := Halted(s.serial[child], status);
    assert Child(s, child, parent);
    LogAppend(s.log, h);
    HaltChildren(s, s', child, parent, status);
    var l := s.log + [h];
    if parent != KERNEL {
      WaitingAppend(s.log, h, s.serial[parent], s.serial[child]);
      LogAppend(l, Returned(s.serial[parent], status));
    } else {
      assert l + [] == l;
    }
    forall c, p | Child(s', c, p) && p != KERNEL && c in s'.serial && p in s'.serial
      ensures Waiting(s'.log, s'.serial[p], s'.serial[c])
    {
      assert Child(s, c, p) && c != child && p != parent;
      WaitingAppend(s.log, h, s.serial[p], s.serial[c]);
      if parent != KERNEL {
        WaitingAppend(l, Returned(s.serial[parent], status), s.serial[p], s.serial[c]);
      }
    }
  }

  lemma HaltKeeps(s: State, status: int)
    requires Inv(s) && s.current != KERNEL
    ensures s.procs[s.current].parent in s.procs && s.procs[s.current].parent != s.current
    ensures s.current in s.serial && s.procs[s.current].parent in s.serial && 0 <= s.procs[s.current].terminal < |s.inTerminal|
    ensures Inv(Halt(s, status))
  {
    HaltReady(s);
    hide Forest, OneChild, Shown, ResumesRight, CallsOpen, LogRight, Child, User, Halt;
    HaltIs(s, status);
    var child, parent, s' := s.current, s.procs[s.current].parent, Halt(s, status);
    HaltTables(s, s', child);
    hide InControl, DidHalt, Tables;
    HaltForest(s, s', child, parent, status);
    HaltOneChild(s, s', child, parent, status);
    HaltShown(s, s', child, parent, status);
    HaltResumes(s, s', child, parent, status);
    HaltCalls(s, s', child, parent, status);
  }

  // schedule

  /** What a task switch changes. */
  ghost predicate DidSwitch(s: State, s': State, to: nat) {
    && to in s.procs && to != KERNEL && to != s.current && s.current in s.procs && s.procs[to].status == Active
    && s.serial.Keys == s.procs.Keys
    && s'.procs == s.procs[s.current := s.procs[s.current].(resume := SwitchBack)]
    && s'.current == to && s'.running == to && s'.ran == s.ran + {to}
    && s'.inTerminal == s.inTerminal && s'.serial == s.serial && s'.created == s.created
    && s'.log == s.log + [Entered(s.serial[to], s.procs[to].resume != SwitchBack)]
    && s'.wild == (s.wild || s.procs[to].resume == Unset || s.procs[to].resume == ExecuteReturn)
  }

  /** Control blocks as they were except for where they resume. */
  ghost predicate SameButResume(s: State, s': State) {
    && s'.procs.Keys == s.procs.Keys && s'.inTerminal == s.inTerminal
    && forall p :: p in s.procs ==> s'.procs[p] == s.procs[p].(resume := s'.procs[p].resume)
  }

  lemma SwitchStructure(s: State, s': State)
    requires SameButResume(s, s') && KERNEL in s.procs && |s.inTerminal| == NUM_TERMINALS
    requires Forest(s) && OneChild(s) && Shown(s)
    ensures Forest(s') && OneChild(s') && Shown(s')
    ensures forall c, p :: Child(s', c, p) <==> Child(s, c, p)
  {
    assert forall c, p :: Child(s', c, p) <==> Child(s, c, p);
    assert forall p :: User(s', p) <==> User(s, p);
    forall p | p in s'.procs && p != KERNEL && s'.procs[p].status == Idle ensures HasChild(s', p) {
      assert HasChild(s, p);
      var c :| Child(s, c, p);
      assert Child(s', c, p);
    }
  }

  /** The switch builds a user frame exactly when its target has never run. */
  lemma SwitchResumes(s: State, s': State, to: nat)
    requires DidSwitch(s, s', to) && KERNEL in s.procs && InControl(s) && ResumesRight(s)
    ensures InControl(s') && ResumesRight(s')
    ensures s'.log[|s.log|] == Entered(s.serial[to], to !in s.ran)
  {
    assert User(s, to);
    assert forall p :: User(s', p) <==> User(s, p);
  }

  lemma SwitchCalls(s: State, s': State, to: nat)
    requires DidSwitch(s, s', to) && CallsOpen(s) && LogRight(s.log)
    requires forall c, p :: Child(s', c, p) <==> Child(s, c, p)
    ensures CallsOpen(s') && LogRight(s'.log)
  {
    var e := Entered(s.serial[to], s.procs[to].resume != SwitchBack);
    LogAppend(s.log, e);
    forall c, p | Child(s', c, p) && p != KERNEL && c in s'.serial && p in s'.serial
      ensures Waiting(s'.log, s'.serial[p], s'.serial[c])
    {
      WaitingAppend(s.log, e, s.serial[p], s.serial[c]);
    }
  }

  lemma ScheduleTarget(s: State)
    requires Tables(s) && Forest(s) && FirstActive(s.procs, s.queue) < |s.queue|
    ensures var to := s.queue[FirstActive(s.procs, s.queue)]; User(s, to) && s.procs[to].status == Active
  {
  }

  lemma RotatedTables(s: State, s': State, i: nat)
    requires Tables(s) && i <= |s.queue| && s'.queue == s.queue[i..] + s.queue[..i]
    requires s'.procs.Keys == s.procs.Keys && s'.inTerminal == s.inTerminal && s'.serial == s.serial && s'.created == s.created
    ensures Tables(s')
  {
    RotatedIs(s.queue, i);
  }

  lemma ScheduleIs(s: State, to: nat)
    requires FirstActive(s.procs, s.queue) < |s.queue| && to == s.queue[FirstActive(s.procs, s.queue)]
    requires User(s, to) && s.procs[to].status == Active && s.current in s.procs && s.serial.Keys == s.procs.Keys
    ensures var s', i := Schedule(s), FirstActive(s.procs, s.queue) + 1;
      && s'.queue == s.queue[i..] + s.queue[..i] && s'.current == to
      && SameButResume(s, s') && s'.serial == s.serial && s'.created == s.created
      && if to == s.current then s' == s.(queue := s'.queue, loaded := s'.loaded) && s'.loaded == s.loaded else DidSwitch(s, s', to)
  {
    hide FirstActive;
    assert s.procs[s.current := s.procs[s.current].(resume := SwitchBack)].Keys == s.procs.Keys;
  }

  lemma ScheduleKeeps(s: State)
    requires Inv(s) && FirstActive(s.procs, s.queue) < |s.queue|
    ensures Inv(Schedule(s))
  {
    hide FirstActive, OneChild, Shown, LogRight, CallsOpen, ResumesRight;
    ScheduleTarget(s);
    var i := FirstActive(s.procs, s.queue);
    var to := s.queue[i];
    assert forall p :: p in s.procs ==> p in s.serial;
    var s' := Schedule(s);
    ScheduleIs(s, to);
    RotatedTables(s, s', i + 1);
    hide Schedule, Forest, SameButResume;
    SwitchStructure(s, s');
    hide Tables, Child, User;
    if to != s.current {
      hide InControl, DidSwitch;
      SwitchResumes(s, s', to);
      SwitchCalls(s, s', to);
    } else {
      StayedPut(s, s');
    }
  }

  lemma StayedPut(s: State, s': State)
    requires s' == s.(queue := s'.queue, loaded := s'.loaded) && KERNEL in s.procs && CallsOpen(s) && ResumesRight(s) && InControl(s)
    ensures CallsOpen(s') && ResumesRight(s') && InControl(s')
  {
    assert forall c, p :: Child(s', c, p) <==> Child(s, c, p);
    assert forall p :: User(s', p) <==> User(s, p);
  }

  /** The number in ret_addr, given where the label task_switch_back is. */
  function Address(r: Resume, switchBack: int): int
    requires r.FreshStart? || r.SwitchBack?
  {
    if r.SwitchBack? then switchBack else r.addr
  }

  /**
    A switch builds a user-mode frame exactly when its target has never run, and a task that
    has run goes on in the kernel where it was switched out. The code tells the two apart by
    comparing addresses, which is right exactly unless a program starts at the label.
   */
  lemma ScheduleFrame(s: State, switchBack: int)
    requires Inv(s) && FirstActive(s.procs, s.queue) < |s.queue|
    ensures var to := s.queue[FirstActive(s.procs, s.queue)];
      to != s.current ==>
        && to in s.serial
        && Schedule(s).log == s.log + [Entered(s.serial[to], to !in s.ran)]
        && (to in s.ran ==> s.procs[to].resume == SwitchBack)
        && (to !in s.ran ==> s.procs[to].resume.FreshStart?)
        && ((Address(s.procs[to].resume, switchBack) != switchBack <==> to !in s.ran) <==> s.procs[to].resume != FreshStart(switchBack))
  {
    ScheduleTarget(s);
  }

  /**
    In every state of a run the loop of schedule comes to an end exactly when a process other
    than the kernel is left.
   */
  lemma ScheduleEndsIff(s: State)
    requires Inv(s)
    ensures FirstActive(s.procs, s.queue) < |s.queue| <==> exists p :: User(s, p)
  {
    if FirstActive(s.procs, s.queue) < |s.queue| {
      ScheduleTarget(s);
    }
    if p :| User(s, p) {
      var leaf := DownToLeaf(s, p);
      assert leaf in s.queue;
    }
  }

  // ---------------------------------------------------------------- what the calls come to

  /** Room for one more pid, and an address to start from. */
  ghost predicate RoomFor(s: State, start: int) {
    start != 0 && forall p :: p in s.procs ==> p < MAX_PROCESSES - 1
  }

  /** The live processes with one more, which has the next pid after all of them. */
  ghost predicate OneMore(s: State, s': State, c: nat) {
    && c > 0 && c - 1 in s.procs && (forall p :: p in s.procs ==> p < c)
    && s'.procs.Keys == s.procs.Keys + {c} && s'.queue == [c] + s.queue
    && s'.loaded == c && s'.stack == c && s'.serial == s.serial[c := s.created] && s'.created == s.created + 1
  }

  lemma LargestPid(s: State)
    requires Tables(s)
    ensures MaxPid(s.queue) in s.procs
    ensures MaxPid(s.queue) + 1 < MAX_PROCESSES <==> forall p :: p in s.procs ==> p < MAX_PROCESSES - 1
  {
    MaxPidListed(s.queue);
    NewPidIsFresh(s);
  }

  lemma {:induction false} MaxPidListed(queue: seq<nat>)
    ensures MaxPid(queue) == 0 || MaxPid(queue) in queue
    decreases |queue|
  {
    if queue != [] {
      MaxPidListed(queue[1..]);
    }
  }

  /** An execute by a user process succeeds: the child is on the processor, in its terminal, and the caller waits for it. */
  ghost predicate ChildRuns(s: State, s': State) {
    var c, p := s'.current, s.current;
    && OneMore(s, s', c) && p in s.procs && p in s.serial && 0 <= s.procs[p].terminal < |s.inTerminal|
    && s'.running == c && s'.ran == s.ran + {c} && s'.wild == s.wild
    && s'.procs[c].parent == p && s'.procs[c].terminal == s.procs[p].terminal && s'.procs[c].status == Active
    && s'.procs[p] == s.procs[p].(status := Idle, resume := ExecuteReturn)
    && (forall q :: q in s.procs && q != p ==> s'.procs[q] == s.procs[q])
    && s'.inTerminal == s.inTerminal[s.procs[p].terminal := Some(c)]
    && s'.log == s.log + [Executed(s.serial[p], s'.serial[c])]
  }

  /**
    An execute by a user process puts a child of the caller on the processor if and only if
    the program has a start address and there is a pid left; otherwise nothing changes but
    the pages that are loaded.
   */
  lemma ExecuteRunsIff(s: State, start: int)
    requires Inv(s) && s.current != KERNEL
    ensures s.current in s.serial && 0 <= s.procs[s.current].terminal < |s.inTerminal|
    ensures RoomFor(s, start) <==> ChildRuns(s, Execute(s, start))
    ensures !RoomFor(s, start) ==> Execute(s, start) == s.(loaded := Execute(s, start).loaded)
  {
    hide Forest, OneChild, Shown, ResumesRight, CallsOpen, LogRight, MaxPid, Execute, ChildRuns, DidExecute, Distinct;
    ExecuteReady(s);
    LargestPid(s);
    NewPidIsFresh(s);
    if CanExecute(s, start) {
      ExecuteChild(s, start);
    } else {
      ExecuteRefused(s, start);
    }
  }

  lemma ExecuteChild(s: State, start: int)
    requires CanExecute(s, start) && |s.inTerminal| == NUM_TERMINALS && s.serial.Keys == s.procs.Keys
    requires s.current in s.procs && s.current in s.serial && 0 <= s.procs[s.current].terminal < |s.inTerminal|
    requires MaxPid(s.queue) in s.procs && forall p :: p in s.procs ==> p < MaxPid(s.queue) + 1
    ensures ChildRuns(s, Execute(s, start))
  {
    hide MaxPid;
  }

  lemma ExecuteRefused(s: State, start: int)
    requires !CanExecute(s, start)
    requires s.current in s.procs && s.current in s.serial && 0 <= s.procs[s.current].terminal < |s.inTerminal|
    ensures Execute(s, start) == s.(loaded := Execute(s, start).loaded) && !ChildRuns(s, Execute(s, start))
  {
    hide MaxPid;
  }

  /** A shell starts: it takes the first terminal without a process and waits for its turn. */
  ghost predicate ShellWaits(s: State, s': State, c: nat, start: int) {
    && OneMore(s, s', c)
    && s'.current == s.current && s'.running == s.running && s'.wild == s.wild && s'.log == s.log && s'.ran == s.ran - {c}
    && (forall q :: q in s.procs ==> s'.procs[q] == s.procs[q])
    && 0 <= s'.procs[c].terminal < NUM_TERMINALS == |s.inTerminal|
    && s'.procs[c] == Pcb(KERNEL, s'.procs[c].terminal, Active, FreshStart(start), 0)
    && (forall q :: User(s, q) ==> s.procs[q].terminal != s'.procs[c].terminal)
    && (forall t: nat :: t < s'.procs[c].terminal ==> InUse(s, t))
    && s'.inTerminal == s.inTerminal[s'.procs[c].terminal := Some(c)]
  }

  ghost predicate InUse(s: State, t: nat) {
    exists q :: User(s, q) && s.procs[q].terminal == t
  }

  /**
    A spawn starts a shell if and only if it can be loaded and there is a pid and a terminal
    without a process; otherwise the kernel is left as the current process.
   */
  lemma SpawnStartsIff(s: State, start: int)
    requires Inv(s)
    ensures var s' := Spawn(s, start);
      && ((exists c :: ShellWaits(s, s', c, start)) <==> RoomFor(s, start) && exists t: nat :: t < NUM_TERMINALS && !InUse(s, t))
      && (!(exists c :: ShellWaits(s, s', c, start)) ==> s' == s.(current := KERNEL, loaded := s'.loaded))
  {
    hide Forest, OneChild, Shown, InControl, ResumesRight, CallsOpen, LogRight, MaxPid, InUse, ShellWaits, Spawn, Distinct;
    LargestPid(s);
    NewPidIsFresh(s);
    forall t: nat | t < NUM_TERMINALS ensures Vacant(s.inTerminal[t]) <==> !InUse(s, t) {
      VacantIff(s, t);
    }
    if CanSpawn(s, start) {
      NewTerminalIsFree(s);
      SpawnShell(s, start);
    } else {
      SpawnRefused(s, start);
    }
  }

  lemma SpawnShell(s: State, start: int)
    requires CanSpawn(s, start) && |s.inTerminal| == NUM_TERMINALS && KERNEL in s.procs
    requires MaxPid(s.queue) in s.procs && forall p :: p in s.procs ==> p < MaxPid(s.queue) + 1
    requires forall t: nat :: t < NewTerminal(s.inTerminal) ==> InUse(s, t)
    requires forall p :: User(s, p) ==> s.procs[p].terminal != NewTerminal(s.inTerminal)
    ensures ShellWaits(s, Spawn(s, start), MaxPid(s.queue) + 1, start)
  {
    hide MaxPid, NewTerminal, InUse;
  }

  lemma SpawnRefused(s: State, start: int)
    requires !CanSpawn(s, start)
    ensures Spawn(s, start) == s.(current := KERNEL, loaded := Spawn(s, start).loaded)
    ensures forall c :: !ShellWaits(s, Spawn(s, start), c, start)
  {
    hide MaxPid, NewTerminal, InUse;
    var s' := Spawn(s, start);
    assert s'.procs == s.procs;
  }

  lemma VacantIff(s: State, t: nat)
    requires Inv(s) && t < NUM_TERMINALS
    ensures Vacant(s.inTerminal[t]) <==> !InUse(s, t)
  {
    TerminalIsChain(s, t);
    if !Vacant(s.inTerminal[t]) {
      assert User(s, s.inTerminal[t].value);
    }
  }

  /** The queue without one place. */
  ghost predicate Left(queue: seq<nat>, queue': seq<nat>, p: nat) {
    exists i :: 0 <= i < |queue| && queue[i] == p && queue' == queue[..i] + queue[i + 1..]
  }

  /**
    A process has halted: it is gone, its parent is current and has the status. A parent
    other than the kernel is active and shown again, and its execute returns that status.
   */
  ghost predicate ParentRuns(s: State, s': State, status: int) {
    var child := s.current;
    && child in s.procs && child in s.serial && s'.current == s.procs[child].parent && s'.current in s.procs && s'.current != child
    && s'.current in s.serial
    && s'.procs.Keys == s.procs.Keys - {child} && s'.serial == s.serial - {child} && Left(s.queue, s'.queue, child)
    && s'.running == s'.current && s'.loaded == s'.current && s'.stack == s'.current && s'.wild == s.wild
    && s'.procs[s'.current].retVal == status
    && s'.log == s.log + [Halted(s.serial[child], status)] + (if s'.current == KERNEL then [] else [Returned(s.serial[s'.current], status)])
    && (s'.current != KERNEL ==> s'.procs[s'.current].status == Active)
    && 0 <= s.procs[child].terminal < |s.inTerminal|
    && s'.inTerminal == s.inTerminal[s.procs[child].terminal := Some(s'.current)]
    && (forall p :: p in s.procs && p != child && p != s'.current ==> s'.procs[p] == s.procs[p])
  }

  /** Halt always does that for a user process. */
  lemma HaltReturns(s: State, status: int)
    requires Inv(s) && s.current != KERNEL
    ensures Callable(s) && ParentRuns(s, Halt(s, status), status)
  {
    hide Forest, OneChild, Shown, ResumesRight, CallsOpen, LogRight, Halt, ParentRuns, Distinct;
    InvCallable(s);
    HaltReady(s);
    HaltIs(s, status);
    var i := RemovedAt(s.queue, s.current);
    HaltLoads(s, status, Pages);
    HaltLoads(s, status, KernelStack);
    HaltParts(s, Halt(s, status), s.current, s.procs[s.current].parent, status);
  }

  lemma HaltParts(s: State, s': State, child: nat, parent: nat, status: int)
    requires DidHalt(s, s', child, parent, status) && Left(s.queue, s'.queue, child)
    requires s'.loaded == parent && s'.stack == parent && child in s.serial
    ensures ParentRuns(s, s', status)
  {
    hide Left;
  }

  lemma {:induction false} RemovedAt(queue: seq<nat>, p: nat) returns (i: nat)
    requires p in queue
    ensures i < |queue| && queue[i] == p && Removed(queue, p) == queue[..i] + queue[i + 1..]
    decreases |queue|
  {
    if queue[0] == p {
      i := 0;
    } else {
      assert queue == [queue[0]] + queue[1..];
      var j := RemovedAt(queue[1..], p);
      i := j + 1;
      assert [queue[0]] + (queue[1..][..j] + queue[1..][j + 1..]) == queue[..i] + queue[i + 1..];
    }
  }

  /**
    The queue has turned past place i, whose process has the processor, with its pages and
    its kernel stack; if it had it before, nothing else has changed.
   */
  ghost predicate TurnOf(s: State, s': State, i: nat) {
    && i < |s.queue| && s'.queue == s.queue[i + 1..] + s.queue[..i + 1]
    && s'.current == s.queue[i] && s'.running == s'.current
    && (s'.current == s.current ==> s' == s.(queue := s'.queue))
    && (s'.current != s.current ==> s'.loaded == s'.current && s'.stack == s'.current && s'.ran == s.ran + {s'.current})
    && s'.procs.Keys == s.procs.Keys && s'.inTerminal == s.inTerminal && s'.serial == s.serial
    && (forall p :: p in s.procs && p != s.current ==> s'.procs[p] == s.procs[p])
    && (s'.current != s.current && s.current in s.procs ==> s'.procs[s.current] == s.procs[s.current].(resume := SwitchBack))
  }

  /** A call of schedule gives the turn to the first active task in the queue. */
  lemma ScheduleGives(s: State, i: nat)
    requires Inv(s) && i < |s.queue|
    requires s.queue[i] in s.procs && s.procs[s.queue[i]].status == Active
    requires forall j :: 0 <= j < i ==> s.queue[j] in s.procs && s.procs[s.queue[j]].status == Idle
    ensures FirstActive(s.procs, s.queue) < |s.queue| && Callable(s) && TurnOf(s, Schedule(s), i)
  {
    hide OneChild, Shown, ResumesRight, CallsOpen, LogRight, FirstActive, Schedule, TurnOf, Forest;
    InvCallable(s);
    assert i == FirstActive(s.procs, s.queue);
    TurnTaken(s, i);
  }

  lemma TurnTaken(s: State, i: nat)
    requires i == FirstActive(s.procs, s.queue) < |s.queue| && Callable(s) && s.running == s.current
    ensures TurnOf(s, Schedule(s), i)
  {
    hide FirstActive;
  }

  // ---------------------------------------------------------------- runs

  /** The state once the kernel has idled itself, before the first interrupt. */
  function Boot(): State {
    State(map[KERNEL := Pcb(KERNEL, NO_TERMINAL, Idle, Unset, 0)], [KERNEL], KERNEL, KERNEL, KERNEL,
      seq(NUM_TERMINALS, _ => None), map[KERNEL := 0], {}, KERNEL, 1, [], false)
  }

  lemma BootInv()
    ensures Inv(Boot())
  {
    var s := Boot();
    assert forall c, p :: !Child(s, c, p);
    assert forall p :: !User(s, p);
  }

  datatype Action = DoSpawn(start: int) | DoExecute(start: int) | DoHalt(status: int) | DoSchedule

  /**
    Only user processes make system calls, and the scheduler is entered only while some
    task is active. A spawn that fails is left out unless the kernel is current: see SpawnFailureIff.
   */
  predicate Enabled(s: State, a: Action) {
    match a
    case DoSpawn(start) => CanSpawn(s, start) || s.current == KERNEL
    case DoExecute(_) => s.current != KERNEL
    case DoHalt(_) => s.current != KERNEL
    case DoSchedule => FirstActive(s.procs, s.queue) < |s.queue|
  }

  ghost predicate Callable(s: State) {
    && s.current in s.procs && (forall p :: p in s.procs ==> p in s.serial)
    && (s.current != KERNEL ==>
         && 0 <= s.procs[s.current].terminal < |s.inTerminal|
         && s.procs[s.current].parent in s.procs && s.procs[s.current].parent != s.current)
  }

  ghost function Step(s: State, a: Action): State
    requires Callable(s) && Enabled(s, a)
  {
    match a
    case DoSpawn(start) => Spawn(s, start)
    case DoExecute(start) => Execute(s, start)
    case DoHalt(status) => Halt(s, status)
    case DoSchedule => Schedule(s)
  }

  lemma InvCallable(s: State)
    requires Inv(s)
    ensures Callable(s)
  {
    if s.current != KERNEL {
      HaltReady(s);
    }
  }

  /** The invariant says nothing of the loaded pages. */
  lemma InvReloaded(s: State, p: nat)
    requires Inv(s)
    ensures Inv(s.(loaded := p))
  {
    hide Forest, OneChild, Shown, CallsOpen, ResumesRight, LogRight;
    var s' := s.(loaded := p);
    SwitchStructure(s, s');
    StayedPut(s, s');
  }

  lemma StepKeeps(s: State, a: Action)
    requires Inv(s) && Enabled(s, a)
    ensures Callable(s) && Inv(Step(s, a))
  {
    InvCallable(s);
    match a
    case DoSpawn(start) =>
      if CanSpawn(s, start) {
        SpawnKeeps(s, start);
      } else {
        SpawnFailureIff(s, start);
      }
    case DoExecute(start) => ExecuteKeeps(s, start);
    case DoHalt(status) => HaltKeeps(s, status);
    case DoSchedule => ScheduleKeeps(s);
  }

  /**
    A spawn that fails leaves the kernel as the current process. That keeps the invariant
    exactly when the kernel was current before: otherwise the processor runs a process that
    is not the current one.
   */
  lemma SpawnFailureIff(s: State, start: int)
    requires Inv(s) && !CanSpawn(s, start)
    ensures Inv(Spawn(s, start)) <==> s.current == KERNEL
  {
    var s' := Spawn(s, start);
    if s.current == KERNEL {
      InvReloaded(s, s'.loaded);
    }
  }

  /** States reached by enabled actions, one after the other. */
  ghost predicate Reaches(s: State, acts: seq<Action>, s': State)
    requires Inv(s)
    decreases |acts|
  {
    if acts == [] then s' == s
    else Enabled(s, acts[0]) && (StepKeeps(s, acts[0]); Reaches(Step(s, acts[0]), acts[1..], s'))
  }

  ghost predicate FromBoot(acts: seq<Action>, s: State) {
    BootInv();
    Reaches(Boot(), acts, s)
  }

  lemma {:induction false} RunsKeep(s: State, acts: seq<Action>, s': State)
    requires Inv(s) && Reaches(s, acts, s')
    ensures Inv(s')
    decreases |acts|
  {
    if acts != [] {
      hide Inv, Callable, Enabled, Step;
      StepKeeps(s, acts[0]);
      RunsKeep(Step(s, acts[0]), acts[1..], s');
    }
  }

  /** Every state of every run from boot satisfies the invariant. */
  lemma EveryRunIsSafe(acts: seq<Action>, s: State)
    requires FromBoot(acts, s)
    ensures Inv(s)
  {
    BootInv();
    RunsKeep(Boot(), acts, s);
  }

  lemma {:induction false} ReachesAppend(s: State, acts: seq<Action>, s1: State, a: Action)
    requires Inv(s) && Reaches(s, acts, s1) && Enabled(s1, a)
    ensures Inv(s1) && Callable(s1) && Reaches(s, acts + [a], Step(s1, a))
    decreases |acts|
  {
    hide Inv, Callable, Enabled, Step;
    if acts == [] {
      StepKeeps(s, a);
      assert acts + [a] == [a] && [a][1..] == [];
      assert Reaches(Step(s, a), [], Step(s, a));
    } else {
      StepKeeps(s, acts[0]);
      ReachesAppend(Step(s, acts[0]), acts[1..], s1, a);
      assert (acts + [a])[1..] == acts[1..] + [a];
    }
  }

  lemma FromBootAppend(acts: seq<Action>, s: State, a: Action)
    requires FromBoot(acts, s) && Enabled(s, a)
    ensures Inv(s) && Callable(s) && FromBoot(acts + [a], Step(s, a)) && Inv(Step(s, a))
  {
    hide Inv, Callable, Enabled, Step, Reaches, Boot;
    BootInv();
    ReachesAppend(Boot(), acts, s, a);
    StepKeeps(s, a);
  }

  lemma SpawnRun(acts: seq<Action>, s: State, start: int)
    requires FromBoot(acts, s) && CanSpawn(s, start)
    ensures FromBoot(acts + [DoSpawn(start)], Spawn(s, start)) && Inv(Spawn(s, start))
  {
    hide Inv, FromBoot, CanSpawn, Spawn;
    FromBootAppend(acts, s, DoSpawn(start));
  }

  lemma ScheduleRun(acts: seq<Action>, s: State)
    requires FromBoot(acts, s) && FirstActive(s.procs, s.queue) < |s.queue|
    ensures Inv(s) && s.current in s.procs && forall p :: p in s.procs ==> p in s.serial
    ensures FromBoot(acts + [DoSchedule], Schedule(s)) && Inv(Schedule(s))
  {
    hide Inv, FromBoot, FirstActive, Schedule;
    FromBootAppend(acts, s, DoSchedule);
  }

  lemma HaltRun(acts: seq<Action>, s: State, status: int)
    requires FromBoot(acts, s) && s.current != KERNEL
    ensures Inv(s) && Callable(s)
    ensures FromBoot(acts + [DoHalt(status)], Halt(s, status)) && Inv(Halt(s, status))
  {
    hide Inv, FromBoot, Halt;
    FromBootAppend(acts, s, DoHalt(status));
  }

  lemma BootReached()
    ensures FromBoot([], Boot())
  {
    BootInv();
  }

  lemma {:induction false} NewTerminalIs(ts: seq<Option<nat>>, n: nat)
    requires n <= |ts| && (forall t :: 0 <= t < n ==> !Vacant(ts[t])) && (n < |ts| ==> Vacant(ts[n]))
    ensures NewTerminal(ts) == n
    decreases n
  {
    if n > 0 {
      NewTerminalIs(ts[1..], n - 1);
    }
  }

  /** What starting shells from boot leads to: each takes the next terminal and goes to the head of the queue. */
  ghost predicate ShellsStarted(s: State, n: nat) {
    && s.current == KERNEL && |s.inTerminal| == NUM_TERMINALS && n <= NUM_TERMINALS
    && MaxPid(s.queue) == n
    && (forall t :: 0 <= t < NUM_TERMINALS ==> (Vacant(s.inTerminal[t]) <==> t >= n))
    && (n > 0 ==> s.queue != [] && s.queue[0] == n && n in s.procs && s.procs[n].status == Active)
  }

  lemma BootShells()
    ensures ShellsStarted(Boot(), 0)
  {
    assert MaxPid(Boot().queue) == 0;
  }

  lemma OneMoreShell(s: State, n: nat, start: int)
    requires ShellsStarted(s, n) && n < NUM_TERMINALS && start != 0
    ensures CanSpawn(s, start) && ShellsStarted(Spawn(s, start), n + 1)
  {
    NewTerminalIs(s.inTerminal, n);
    hide NewTerminal;
    assert ([n + 1] + s.queue)[1..] == s.queue;
  }

  function SpawnActions(start: int, n: nat): seq<Action> {
    seq(n, _ => DoSpawn(start))
  }

  lemma {:induction false} ManyShells(start: int, n: nat) returns (s: State)
    requires start != 0 && n <= NUM_TERMINALS
    ensures FromBoot(SpawnActions(start, n), s) && ShellsStarted(s, n)
    decreases n
  {
    hide FromBoot, ShellsStarted, Spawn, CanSpawn, Boot;
    if n == 0 {
      s := Boot();
      BootReached();
      BootShells();
      assert SpawnActions(start, 0) == [];
    } else {
      var s0 := ManyShells(start, n - 1);
      OneMoreShell(s0, n - 1, start);
      SpawnRun(SpawnActions(start, n - 1), s0, start);
      assert SpawnActions(start, n - 1) + [DoSpawn(start)] == SpawnActions(start, n);
      s := Spawn(s0, start);
    }
  }

  lemma NextShellRuns(s: State, n: nat)
    requires ShellsStarted(s, n) && n > 0
    ensures FirstActive(s.procs, s.queue) < |s.queue|
    ensures s.current in s.procs && (forall p :: p in s.procs ==> p in s.serial) ==>
      Schedule(s).current == n && Schedule(s).inTerminal == s.inTerminal && Schedule(s).procs.Keys == s.procs.Keys
  {
  }

  lemma NoTerminalLeft(s0: State, s: State, start: int)
    requires ShellsStarted(s0, NUM_TERMINALS) && s.inTerminal == s0.inTerminal
    ensures !CanSpawn(s, start)
  {
  }

  /** Such a run: a shell in each of the ten terminals, the last of which gets the processor when one more is asked for. */
  lemma SpawnFailureHappens(start: int) returns (acts: seq<Action>, s: State)
    requires start != 0
    ensures acts == SpawnActions(start, NUM_TERMINALS) + [DoSchedule] && FromBoot(acts, s)
    ensures !CanSpawn(s, start) && !Inv(Spawn(s, start))
  {
    hide Inv, FromBoot, ShellsStarted, Schedule, CanSpawn, Spawn, FirstActive;
    var n := NUM_TERMINALS;
    var s0 := ManyShells(start, n);
    NextShellRuns(s0, n);
    ScheduleRun(SpawnActions(start, n), s0);
    acts, s := SpawnActions(start, n) + [DoSchedule], Schedule(s0);
    NoTerminalLeft(s0, s, start);
    SpawnFailureIff(s, start);
  }

  lemma ExecuteRun(acts: seq<Action>, s: State, start: int)
    requires FromBoot(acts, s) && s.current != KERNEL
    ensures Inv(s) && s.current in s.procs && s.current in s.serial && 0 <= s.procs[s.current].terminal < |s.inTerminal|
    ensures FromBoot(acts + [DoExecute(start)], Execute(s, start))
  {
    hide Inv, FromBoot, Execute;
    FromBootAppend(acts, s, DoExecute(start));
  }

  lemma ShellPids(s: State, n: nat)
    requires Inv(s) && ShellsStarted(s, n)
    ensures forall p :: p in s.procs ==> p <= n
  {
    hide Forest, OneChild, Shown, InControl, ResumesRight, CallsOpen, LogRight, MaxPid;
    NewPidIsFresh(s);
  }

  /** Programs run: after some shells, a schedule and an execute, a child of the last shell has the processor. */
  lemma FirstExecuteRuns(start: int, n: nat, program: int) returns (s: State)
    requires start != 0 && program != 0 && 1 <= n <= NUM_TERMINALS
    ensures FromBoot(SpawnActions(start, n) + [DoSchedule] + [DoExecute(program)], s)
    ensures s.current == n + 1 && n + 1 in s.procs && s.procs[n + 1].parent == n && s.procs[n + 1].status == Active
    ensures n in s.procs && s.procs[n].status == Idle
  {
    hide Inv, FromBoot, ShellsStarted, Schedule, CanSpawn, Spawn, FirstActive, Execute;
    var s0 := ManyShells(start, n);
    NextShellRuns(s0, n);
    ScheduleRun(SpawnActions(start, n), s0);
    ShellPids(s0, n);
    var s1 := Schedule(s0);
    ExecuteRun(SpawnActions(start, n) + [DoSchedule], s1, program);
    s := Execute(s1, program);
    assert forall p :: p in s1.procs ==> p in s1.procs.Keys;
    ExecuteRunsIff(s1, program);
    assert ChildRuns(s1, s);
  }

  lemma HaltKeys(s: State, status: int)
    requires Inv(s) && Callable(s) && s.current != KERNEL
    ensures Halt(s, status).procs.Keys == s.procs.Keys - {s.current}
  {
    HaltReady(s);
    hide Forest, OneChild, Shown, ResumesRight, CallsOpen, LogRight;
    HaltIs(s, status);
  }

  lemma FirstShell(start: int)
    requires start != 0
    ensures CanSpawn(Boot(), start) && Spawn(Boot(), start).procs.Keys == {KERNEL, 1}
  {
    assert MaxPid(Boot().queue) == 0 && NewTerminal(Boot().inTerminal) == 0;
  }

  /** A run after which schedule never returns: the only shell has gone. */
  lemma LastShellGone(start: int, status: int) returns (s: State)
    requires start != 0
    ensures FromBoot([DoSpawn(start), DoSchedule, DoHalt(status)], s)
    ensures FirstActive(s.procs, s.queue) == |s.queue|
  {
    hide Inv, FirstActive, Boot, FromBoot, Spawn, CanSpawn, Schedule, Halt, ShellsStarted;
    BootReached();
    BootShells();
    FirstShell(start);
    OneMoreShell(Boot(), 0, start);
    SpawnRun([], Boot(), start);
    assert [] + [DoSpawn(start)] == [DoSpawn(start)];
    var s0 := Spawn(Boot(), start);
    NextShellRuns(s0, 1);
    ScheduleRun([DoSpawn(start)], s0);
    assert [DoSpawn(start)] + [DoSchedule] == [DoSpawn(start), DoSchedule];
    var s1 := Schedule(s0);
    HaltRun([DoSpawn(start), DoSchedule], s1, status);
    assert [DoSpawn(start), DoSchedule] + [DoHalt(status)] == [DoSpawn(start), DoSchedule, DoHalt(status)];
    s := Halt(s1, status);
    HaltKeys(s1, status);
    assert s.procs.Keys == {KERNEL};
    assert forall p :: User(s, p) ==> p in s.procs.Keys;
    ScheduleEndsIff(s);
  }

  // ---------------------------------------------------------------- pages and kernel stack

  /** Whose page directory the processor has, or whose kernel stack. */
  datatype Part = Pages | KernelStack

  function Held(s: State, part: Part): nat {
    match part
    case Pages => s.loaded
    case KernelStack => s.stack
  }

  /** An action that loads the part for the process that is current after it. */
  ghost predicate Reloads(s: State, a: Action, part: Part) {
    match a
    case DoSpawn(start) => part == Pages && !CanSpawn(s, start) && TriesToLoad(s, true)
    case DoExecute(start) => if part == Pages then TriesToLoad(s, false) else CanExecute(s, start)
    case DoHalt(_) => true
    case DoSchedule => FirstActive(s.procs, s.queue) < |s.queue| && s.queue[FirstActive(s.procs, s.queue)] != s.current
  }

  ghost predicate Spawns(s: State, a: Action) {
    a.DoSpawn? && CanSpawn(s, a.start)
  }

  lemma SpawnLoads(s: State, start: int, part: Part)
    requires Tables(s) && s.current in s.procs && Held(s, part) in s.procs
    ensures var s' := Spawn(s, start);
      && Held(s', part) in s'.procs
      && (CanSpawn(s, start) ==>
           Held(s', part) == MaxPid(s.queue) + 1 && s'.current == s.current && s.current != MaxPid(s.queue) + 1)
      && (!CanSpawn(s, start) ==>
           && s'.current == KERNEL
           && Held(s', part) == if part == Pages && TriesToLoad(s, true) then KERNEL else Held(s, part))
  {
    NewPidIsFresh(s);
    hide MaxPid, NewTerminal;
  }

  lemma ExecuteLoads(s: State, start: int, part: Part)
    requires s.current in s.procs && s.current in s.serial && 0 <= s.procs[s.current].terminal < |s.inTerminal|
    requires Held(s, part) in s.procs
    ensures var s', loads := Execute(s, start), if part == Pages then TriesToLoad(s, false) else CanExecute(s, start);
      && Held(s', part) in s'.procs
      && Held(s', part) == (if loads then s'.current else Held(s, part))
      && (!loads ==> s'.current == s.current)
  {
    hide MaxPid;
  }

  lemma HaltLoads(s: State, status: int, part: Part)
    requires s.current in s.procs && s.current in s.serial
    requires s.procs[s.current].parent in s.procs && s.procs[s.current].parent in s.serial
    requires 0 <= s.procs[s.current].terminal < |s.inTerminal| && s.procs[s.current].parent != s.current
    ensures Held(Halt(s, status), part) == Halt(s, status).current && Halt(s, status).current in Halt(s, status).procs
  {
    hide Removed;
  }

  lemma ScheduleLoads(s: State, part: Part)
    requires Inv(s) && FirstActive(s.procs, s.queue) < |s.queue| && Held(s, part) in s.procs
    ensures s.current in s.procs && forall p :: p in s.procs ==> p in s.serial
    ensures var s', to := Schedule(s), s.queue[FirstActive(s.procs, s.queue)];
      && Held(s', part) in s'.procs && s'.current == to && Held(s', part) == (if to == s.current then Held(s, part) else to)
  {
    hide FirstActive, Forest, OneChild, Shown, CallsOpen, ResumesRight, LogRight;
    ScheduleTarget(s);
  }

  /**
    A shell that starts leaves its own pages and kernel stack loaded, whichever process
    called: the caller runs on with them until the next action that loads them. What is
    loaded always belongs to a live process.
   */
  lemma StepLoads(s: State, a: Action, part: Part)
    requires Inv(s) && Callable(s) && Enabled(s, a) && Held(s, part) in s.procs
    ensures Held(Step(s, a), part) in Step(s, a).procs
    ensures Spawns(s, a) ==> Held(Step(s, a), part) == MaxPid(s.queue) + 1 && Held(Step(s, a), part) != Step(s, a).current
    ensures Held(Step(s, a), part) == Step(s, a).current <==>
      !Spawns(s, a) && (Reloads(s, a, part) || Held(s, part) == s.current)
  {
    hide Inv, CanSpawn, Spawn, Execute, Halt, Schedule, FirstActive, TriesToLoad, Tables, MaxPid, Held;
    match a
    case DoSpawn(start) =>
      InvTables(s);
      SpawnLoads(s, start, part);
    case DoExecute(start) =>
      ExecuteLoads(s, start, part);
    case DoHalt(status) => HaltLoads(s, status, part);
    case DoSchedule => ScheduleLoads(s, part);
  }

  lemma InvTables(s: State)
    requires Inv(s)
    ensures Tables(s)
  {
  }

  /** Whether the last action of a run that spawned a shell or loaded the part did the latter. */
  ghost predicate Settled(s: State, acts: seq<Action>, part: Part, before: bool)
    requires Inv(s)
    decreases |acts|
  {
    if acts == [] || !Enabled(s, acts[0]) then before
    else
      StepKeeps(s, acts[0]);
      Settled(Step(s, acts[0]), acts[1..], part, !Spawns(s, acts[0]) && (Reloads(s, acts[0], part) || before))
  }

  ghost predicate SettledFromBoot(acts: seq<Action>, part: Part) {
    BootInv();
    Settled(Boot(), acts, part, true)
  }

  lemma {:induction false} RunsLoad(s: State, acts: seq<Action>, s': State, part: Part)
    requires Inv(s) && Reaches(s, acts, s') && Held(s, part) in s.procs
    ensures Held(s', part) in s'.procs
    ensures Held(s', part) == s'.current <==> Settled(s, acts, part, Held(s, part) == s.current)
    decreases |acts|
  {
    if acts != [] {
      hide Inv, Callable, Enabled, Step, Spawns, Reloads, Held;
      InvCallable(s);
      StepKeeps(s, acts[0]);
      StepLoads(s, acts[0], part);
      RunsLoad(Step(s, acts[0]), acts[1..], s', part);
    }
  }

  /**
    In every run from boot the current process has its own pages, or its own kernel stack,
    exactly when no shell was started since that part was last loaded for a process that
    became or stayed current.
   */
  lemma HeldIsCurrentIff(acts: seq<Action>, s: State, part: Part)
    requires FromBoot(acts, s)
    ensures Held(s, part) == s.current <==> SettledFromBoot(acts, part)
    ensures Held(s, part) in s.procs
  {
    BootInv();
    RunsLoad(Boot(), acts, s, part);
  }
}
