/** The process and thread tables as one state, with the kernel's atomic steps on it.
  *
  * There is one CPU, and interrupts are off in system calls, so a step is a whole system call, one round of
  * wait's loop, a timer yield, or one round of the scheduler's loop.
  */
module Tables {
  import opened Basics
  import opened Processes

  /** Who has the CPU: the scheduler loop, or the code of the current thread. */
  datatype Control = Scheduling | ThreadCode

  /** What a run did, for stating properties over its whole length. */
  datatype Event =
    | Forked(parent: nat, child: nat)
    | Exit(pid: nat, status: int)
    | Reaped(parent: nat, child: nat, status: int)

  datatype State = State(
    procs: seq<Option<Process>>,
    threads: seq<Thread>,
    current: Option<nat>,
    cr3: nat,
    kernelTable: nat,
    control: Control,
    log: seq<Event>
  )

  const NO_THREADS: seq<Option<nat>> := [None, None, None, None, None, None, None, None]

  /** What free_process leaves in a slot; such a slot is not free for a new process. */
  const REAPED := Process(0, None, ProcessState.Unused, NO_THREADS, 0, None, 0, false, 0)

  function OneThread(t: nat): seq<Option<nat>> {
    [Some(t), None, None, None, None, None, None, None]
  }

  // ---- Invariant

  ghost predicate Sizes(s: State) {
    |s.procs| == NPROCESS && |s.threads| == NTHREAD
  }

  /** The process in slot p, if it has one that was not reaped. */
  predicate InUse(s: State, p: nat) {
    p < |s.procs| && s.procs[p].Some? && !s.procs[p].value.state.Unused?
  }

  function ThreadOf(s: State, p: nat): nat {
    if p < |s.procs| && s.procs[p].Some? && |s.procs[p].value.threads| > 0 && s.procs[p].value.threads[0].Some?
    then s.procs[p].value.threads[0].value else 0
  }

  predicate Ready(th: Thread) {
    th.state.Runnable? || th.state.Running?
  }

  /** A process has one thread, which points back to it and is alive or a zombie as the process is. */
  ghost predicate ProcessOk(s: State, p: nat)
    requires Sizes(s)
  {
    p < NPROCESS && s.procs[p].Some? ==>
      var pr, t := s.procs[p].value, ThreadOf(s, p);
      if pr.state.Unused? then pr == REAPED
      else
        && pr.pid == p && pr.nthread == 1 && pr.threads == OneThread(t) && t < NTHREAD
        && s.threads[t].pid == Some(p)
        && pr.pageTable.Some? && pr.pageTable.value != s.kernelTable
        && (if pr.state.Alive? then Ready(s.threads[t]) else s.threads[t].state.Zombie?)
  }

  /** A thread that can run, or has exited, belongs to the process that lists it, or is the input thread. */
  ghost predicate ThreadOk(s: State, t: nat)
    requires Sizes(s)
  {
    t < NTHREAD && (Ready(s.threads[t]) || s.threads[t].state.Zombie?) ==>
      match s.threads[t].pid
      case None => t == 0
      case Some(p) => InUse(s, p) && ThreadOf(s, p) == t
  }

  ghost predicate TablesDistinct(s: State)
    requires Sizes(s)
  {
    forall p: nat, q: nat | p < q < NPROCESS && InUse(s, p) && InUse(s, q) ::
      s.procs[p].value.pageTable != s.procs[q].value.pageTable
  }

  /** The input thread (slot 0) and init (process 0, thread 1) can always run. */
  ghost predicate Immortals(s: State)
    requires Sizes(s)
  {
    && s.threads[0].pid == None && Ready(s.threads[0])
    && InUse(s, 0) && s.procs[0].value.state.Alive? && ThreadOf(s, 0) == 1
  }

  /** The address space a thread runs in. */
  function TableFor(s: State, t: nat): nat {
    if t < |s.threads| && s.threads[t].pid.Some? && InUse(s, s.threads[t].pid.value)
       && s.procs[s.threads[t].pid.value].value.pageTable.Some?
    then s.procs[s.threads[t].pid.value].value.pageTable.value else s.kernelTable
  }

  /** Only the current thread can be Running; thread code runs in its own address space, the scheduler
    * in the kernel's. */
  ghost predicate ControlOk(s: State)
    requires Sizes(s)
  {
    && (s.current.Some? ==> s.current.value < NTHREAD)
    && (forall t: nat | t < NTHREAD && s.threads[t].state.Running? :: s.current == Some(t))
    && (match s.control
        case Scheduling => s.cr3 == s.kernelTable
        case ThreadCode =>
          && s.current.Some? && s.threads[s.current.value].state.Running?
          && s.cr3 == TableFor(s, s.current.value))
  }

  ghost predicate Inv(s: State) {
    && Sizes(s)
    && (forall p: nat {:trigger ProcessOk(s, p)} :: ProcessOk(s, p))
    && (forall t: nat {:trigger ThreadOk(s, t)} :: ThreadOk(s, t))
    && TablesDistinct(s)
    && Immortals(s)
    && ControlOk(s)
  }

  // ---- Scanning the tables

  /** The first slot below n from i on that is None. */
  function FirstFree(procs: seq<Option<Process>>, i: nat, n: nat): (r: Option<nat>)
    requires n <= |procs|
    ensures r.Some? ==> i <= r.value < n && procs[r.value].None? && forall j | i <= j < r.value :: procs[j].Some?
    ensures r.None? ==> forall j | i <= j < n :: procs[j].Some?
    decreases n - i
  {
    if i >= n then None else if procs[i].None? then Some(i) else FirstFree(procs, i + 1, n)
  }

  function FirstUnused(threads: seq<Thread>, i: nat, n: nat): (r: Option<nat>)
    requires n <= |threads|
    ensures r.Some? ==> i <= r.value < n && threads[r.value].state.Unused?
    ensures r.Some? ==> forall j | i <= j < r.value :: !threads[j].state.Unused?
    ensures r.None? ==> forall j | i <= j < n :: !threads[j].state.Unused?
    decreases n - i
  {
    if i >= n then None else if threads[i].state.Unused? then Some(i) else FirstUnused(threads, i + 1, n)
  }

  /** The last slot of each table is never used. */
  function NextPid(s: State): Option<nat>
    requires Sizes(s)
  {
    FirstFree(s.procs, 0, NPROCESS - 1)
  }

  function NextTid(s: State): Option<nat>
    requires Sizes(s)
  {
    FirstUnused(s.threads, 0, NTHREAD - 1)
  }

  // ---- Steps

  /** alloc_proc: a pid, and a thread in state Embryo. */
  function AllocThread(s: State, p: nat, t: nat, kstack: nat): State
    requires Sizes(s) && t < NTHREAD
  {
    s.(threads := s.threads[t := Thread(t, Some(p), Embryo, kstack)])
  }

  function NewProcess(p: nat, ppid: Option<nat>, t: nat, table: nat, heapSize: nat): Process {
    Process(p, ppid, Alive, OneThread(t), 1, Some(table), 0, false, heapSize)
  }

  /** A new process p with thread t is entered and made runnable. */
  function Enter(s: State, pr: Process, t: nat, kstack: nat): State
    requires Sizes(s) && t < NTHREAD && pr.pid < NPROCESS
  {
    s.(procs := s.procs[pr.pid := Some(pr)],
       threads := s.threads[t := Thread(t, Some(pr.pid), Runnable, kstack)])
  }

  lemma EnterInv(s: State, p: nat, ppid: Option<nat>, t: nat, table: nat, heapSize: nat, kstack: nat)
    requires Inv(s) && p < NPROCESS && t < NTHREAD
    requires s.procs[p].None? && s.threads[t].state.Unused?
    requires NewTable(s, table)
    ensures Inv(Enter(s, NewProcess(p, ppid, t, table, heapSize), t, kstack))
  {
    var s' := Enter(s, NewProcess(p, ppid, t, table, heapSize), t, kstack);
    forall q: nat ensures ProcessOk(s', q) {
      assert ProcessOk(s, q);
    }
    forall u: nat ensures ThreadOk(s', u) {
      assert ThreadOk(s, u);
    }
    CurrentOk(s);
  }

  /** The current thread belongs to a process that is there, or is the input thread. */
  lemma CurrentOk(s: State)
    requires Inv(s)
    ensures s.control.ThreadCode? ==>
      var c := s.current.value;
      && ThreadOk(s, c)
      && (s.threads[c].pid.Some? ==> ProcessOk(s, s.threads[c].pid.value) && InUse(s, s.threads[c].pid.value))
  {
    if s.control.ThreadCode? {
      assert ThreadOk(s, s.current.value);
    }
  }

  /** A failed fork leaves a thread in state Embryo behind. */
  lemma AllocThreadInv(s: State, p: nat, t: nat, kstack: nat)
    requires Inv(s) && t < NTHREAD && s.threads[t].state.Unused?
    ensures Inv(AllocThread(s, p, t, kstack))
  {
    var s' := AllocThread(s, p, t, kstack);
    forall q: nat ensures ProcessOk(s', q) {
      assert ProcessOk(s, q);
    }
    forall u: nat ensures ThreadOk(s', u) {
      assert ThreadOk(s, u);
    }
    CurrentOk(s);
  }

  function CurrentPid(s: State): Option<nat> {
    if s.current.Some? && s.current.value < |s.threads| then s.threads[s.current.value].pid else None
  }

  /** The code of a process is running, so that the next step can be a system call. */
  ghost predicate InProcess(s: State) {
    && Sizes(s) && s.control.ThreadCode? && CurrentPid(s).Some?
    && InUse(s, CurrentPid(s).value) && ThreadOf(s, CurrentPid(s).value) < NTHREAD
  }

  /** A thread that runs and has a pid is the thread of a process that is alive: current_process never fails. */
  lemma CurrentProcess(s: State)
    requires Inv(s) && s.control.ThreadCode? && CurrentPid(s).Some?
    ensures InProcess(s) && ThreadOf(s, CurrentPid(s).value) == s.current.value
    ensures var pr := s.procs[CurrentPid(s).value].value;
      pr.state.Alive? && pr.pid == CurrentPid(s).value && pr.pageTable == Some(s.cr3)
  {
    CurrentOk(s);
  }

  /** fork by the current process; table is the copied address space, or None if the copy failed. */
  function ForkStep(s: State, table: Option<nat>, kstack: nat): State
    requires InProcess(s)
  {
    var parent := CurrentPid(s).value;
    var p, t := NextPid(s), NextTid(s);
    if p.None? || t.None? then s
    else if table.None? then AllocThread(s, p.value, t.value, kstack)
    else
      var pr := NewProcess(p.value, Some(s.procs[parent].value.pid), t.value,
        table.value, s.procs[parent].value.heapSize);
      Enter(s, pr, t.value, kstack).(log := s.log + [Forked(s.procs[parent].value.pid, p.value)])
  }

  /** The scheduler takes over from a system call; the thread's state is left alone. */
  function SyscallYield(s: State): State {
    s.(cr3 := s.kernelTable, control := Scheduling)
  }

  /** exit by the current process, which is not init: process and thread become zombies. */
  function ExitStep(s: State, status: int): State
    requires InProcess(s)
  {
    var p := CurrentPid(s).value;
    var t := ThreadOf(s, p);
    SyscallYield(s.(procs := s.procs[p := Some(s.procs[p].value.(state := ProcessState.Zombie, exitStatus := status))],
                    threads := s.threads[t := s.threads[t].(state := ThreadState.Zombie)],
                    log := s.log + [Exit(p, status)]))
  }

  lemma ExitInv(s: State, status: int)
    requires Inv(s) && InProcess(s) && CurrentPid(s) != Some(0)
    ensures Inv(ExitStep(s, status))
  {
    CurrentOk(s);
    var p := CurrentPid(s).value;
    var s' := ExitStep(s, status);
    assert ProcessOk(s, 0);
    forall q: nat ensures ProcessOk(s', q) {
      assert ProcessOk(s, q);
    }
    forall u: nat ensures ThreadOk(s', u) {
      assert ThreadOk(s, u);
    }
  }

  predicate IsChild(procs: seq<Option<Process>>, i: nat, parent: nat) {
    i < |procs| && procs[i].Some? && procs[i].value.ppid == Some(parent)
  }

  /** The first zombie child from i on, below n. */
  function ZombieChild(procs: seq<Option<Process>>, parent: nat, i: nat, n: nat): (r: Option<nat>)
    requires n <= |procs|
    ensures r.Some? ==> i <= r.value < n && IsChild(procs, r.value, parent) && procs[r.value].value.state.Zombie?
    ensures r.Some? ==> forall j: nat | i <= j < r.value && IsChild(procs, j, parent) :: !procs[j].value.state.Zombie?
    ensures r.None? ==> forall j: nat | i <= j < n && IsChild(procs, j, parent) :: !procs[j].value.state.Zombie?
    decreases n - i
  {
    if i >= n then None
    else if IsChild(procs, i, parent) && procs[i].value.state.Zombie? then Some(i)
    else ZombieChild(procs, parent, i + 1, n)
  }

  const FREE_THREAD := Thread(0, None, ThreadState.Unused, 0)

  /** free_process: the child's thread and slot are cleared. */
  function Reap(s: State, c: nat): State
    requires c < |s.procs|
  {
    s.(procs := s.procs[c := Some(REAPED)],
       threads := if ThreadOf(s, c) < |s.threads| then s.threads[ThreadOf(s, c) := FREE_THREAD] else s.threads)
  }

  datatype WaitResult = Child(pid: nat, status: int) | NoChild | WasKilled | Waiting

  /** One round of wait's loop by the current process. */
  function WaitRound(s: State, killed: bool): (State, WaitResult)
    requires InProcess(s)
  {
    var parent := s.procs[CurrentPid(s).value].value.pid;
    var c := ZombieChild(s.procs, parent, 0, NPROCESS - 1);
    if c.Some? then
      var child := s.procs[c.value].value;
      (Reap(s, c.value).(log := s.log + [Reaped(parent, child.pid, child.exitStatus)]),
       Child(child.pid, child.exitStatus))
    else if forall i: nat | i < NPROCESS - 1 :: !IsChild(s.procs, i, parent) then (s, NoChild)
    else if killed then (s, WasKilled)
    else (SyscallYield(s), Waiting)
  }

  lemma ReapInv(s: State, c: nat)
    requires Inv(s) && InUse(s, c) && s.procs[c].value.state.Zombie?
    ensures ProcessOk(s, c) && ThreadOf(s, c) < NTHREAD && Inv(Reap(s, c))
  {
    assert ProcessOk(s, c);
    var s' := Reap(s, c);
    forall q: nat ensures ProcessOk(s', q) {
      assert ProcessOk(s, q);
    }
    forall u: nat ensures ThreadOk(s', u) {
      assert ThreadOk(s, u);
    }
    CurrentOk(s);
  }

  lemma SyscallYieldInv(s: State)
    requires Inv(s)
    ensures Inv(SyscallYield(s))
  {
    var s' := SyscallYield(s);
    forall q: nat ensures ProcessOk(s', q) {
      assert ProcessOk(s, q);
    }
    forall u: nat ensures ThreadOk(s', u) {
      assert ThreadOk(s, u);
    }
  }

  lemma LogInv(s: State, log: seq<Event>)
    requires Inv(s)
    ensures Inv(s.(log := log))
  {
    var s' := s.(log := log);
    forall q: nat ensures ProcessOk(s', q) {
      assert ProcessOk(s, q);
    }
    forall u: nat ensures ThreadOk(s', u) {
      assert ThreadOk(s, u);
    }
  }

  lemma WaitInv(s: State, killed: bool)
    requires Inv(s) && InProcess(s)
    ensures Inv(WaitRound(s, killed).0)
  {
    CurrentOk(s);
    var parent := s.procs[CurrentPid(s).value].value.pid;
    var c := ZombieChild(s.procs, parent, 0, NPROCESS - 1);
    if c.Some? {
      ReapInv(s, c.value);
      var child := s.procs[c.value].value;
      LogInv(Reap(s, c.value), s.log + [Reaped(parent, child.pid, child.exitStatus)]);
    } else {
      SyscallYieldInv(s);
    }
  }

  /** The first slot from i on, below n, whose process has this pid. */
  function SlotOfPid(procs: seq<Option<Process>>, pid: nat, i: nat, n: nat): (r: Option<nat>)
    requires n <= |procs|
    ensures r.Some? ==> i <= r.value < n && procs[r.value].Some? && procs[r.value].value.pid == pid
    ensures r.Some? ==> forall j: nat | i <= j < r.value && procs[j].Some? :: procs[j].value.pid != pid
    ensures r.None? ==> forall j: nat | i <= j < n && procs[j].Some? :: procs[j].value.pid != pid
    decreases n - i
  {
    if i >= n then None
    else if procs[i].Some? && procs[i].value.pid == pid then Some(i)
    else SlotOfPid(procs, pid, i + 1, n)
  }

  /** kill only marks a process, which exits when it next enters or leaves the kernel. */
  function KillStep(s: State, pid: nat): (State, bool)
    requires Sizes(s)
  {
    var i := SlotOfPid(s.procs, pid, 0, NPROCESS - 1);
    if i.None? then (s, false)
    else (s.(procs := s.procs[i.value := Some(s.procs[i.value].value.(killed := true))]), true)
  }

  /** kill finds exactly the process with that pid: a reaped slot, which holds pid 0, is never taken for one. */
  lemma KillTarget(s: State, pid: nat)
    requires Inv(s)
    ensures SlotOfPid(s.procs, pid, 0, NPROCESS - 1) == if pid < NPROCESS - 1 && InUse(s, pid) then Some(pid) else None
  {
    var i := SlotOfPid(s.procs, pid, 0, NPROCESS - 1);
    if i.Some? {
      assert ProcessOk(s, i.value);
      assert ProcessOk(s, 0);
    } else if pid < NPROCESS - 1 {
      assert ProcessOk(s, pid);
    }
  }

  lemma KillInv(s: State, pid: nat)
    requires Inv(s)
    ensures Inv(KillStep(s, pid).0)
  {
    KillTarget(s, pid);
    var s' := KillStep(s, pid).0;
    forall q: nat ensures ProcessOk(s', q) {
      assert ProcessOk(s, q);
    }
    forall u: nat ensures ThreadOk(s', u) {
      assert ThreadOk(s, u);
    }
  }

  /** The commit of exec: the process runs in its new address space from now on. */
  function ExecStep(s: State, table: nat, heapSize: nat): State
    requires InProcess(s)
  {
    var p := CurrentPid(s).value;
    s.(procs := s.procs[p := Some(s.procs[p].value.(pageTable := Some(table), heapSize := heapSize))], cr3 := table)
  }

  /** No address space has this root yet. */
  ghost predicate NewTable(s: State, table: nat) {
    table != s.kernelTable && forall q: nat | q < |s.procs| && InUse(s, q) :: s.procs[q].value.pageTable != Some(table)
  }

  lemma ExecInv(s: State, table: nat, heapSize: nat)
    requires Inv(s) && InProcess(s) && NewTable(s, table)
    ensures Inv(ExecStep(s, table, heapSize))
  {
    CurrentOk(s);
    var s' := ExecStep(s, table, heapSize);
    forall q: nat ensures ProcessOk(s', q) {
      assert ProcessOk(s, q);
    }
    forall u: nat ensures ThreadOk(s', u) {
      assert ThreadOk(s, u);
    }
  }

  lemma ForkInv(s: State, table: Option<nat>, kstack: nat)
    requires Inv(s) && InProcess(s) && (table.Some? ==> NewTable(s, table.value))
    ensures Inv(ForkStep(s, table, kstack))
  {
    CurrentOk(s);
    var parent := CurrentPid(s).value;
    var p, t := NextPid(s), NextTid(s);
    if p.Some? && t.Some? {
      if table.None? {
        AllocThreadInv(s, p.value, t.value, kstack);
      } else {
        var ppid, heapSize := Some(s.procs[parent].value.pid), s.procs[parent].value.heapSize;
        EnterInv(s, p.value, ppid, t.value, table.value, heapSize, kstack);
        LogInv(Enter(s, NewProcess(p.value, ppid, t.value, table.value, heapSize), t.value, kstack),
          s.log + [Forked(s.procs[parent].value.pid, p.value)]);
      }
    }
  }
}
