/** The kernel's tables, page tables and frames together: the system calls as they run, loop by loop,
  * against the steps of Tables and Scheduler and the ledger of frames. */
module Kernel {
  import opened Basics
  import opened PageTree
  import opened AddressSpace
  import opened FrameAlloc
  import opened TableEntries
  import opened TableRights
  import opened Walker
  import opened KernelHalves
  import opened TreeNodes
  import opened UserMemory
  import opened TreeCopy
  import opened HeapGrowth
  import opened UserBytes
  import opened Syscalls
  import opened Elf
  import opened Argv
  import opened Exec
  import opened Processes
  import opened Tables
  import opened Scheduler
  import opened Runs
  import opened Histories
  import opened Records
  import opened FrameLedger

  datatype KernelError =
    | TableFull | TooManyThreads | BadThread | ActiveTable | OutOfFrames | BadImage(error: ExecError)
    | HeapFull | InitExiting | IndexPanic

  /** What the check for a mark of kill leads to; Panics stands for the panic when init is marked. */
  datatype KilledCheck = GoesOn | Exited | Panics

  function AddThread(process: Process, tid: nat): Result<Process, KernelError>
    requires |process.threads| == NTHREAD_PER_PROCESS
  {
    if process.nthread >= NTHREAD_PER_PROCESS then Err(TooManyThreads)
    else Ok(process.(threads := process.threads[process.nthread := Some(tid)], nthread := process.nthread + 1))
  }

  function SetIf(th: Thread, change: bool, state: ThreadState): Thread {
    if change then th.(state := state) else th
  }

  class Kernel {
    const pm: PhysMem
    const fa: FrameAllocator
    const kernelTable: nat
    const processTable: array<Option<Process>>
    const threadTable: array<Thread>
    var currentTid: Option<nat>
    var cr3: nat
    ghost var control: Control
    ghost var log: seq<Event>
    ghost var owner: map<nat, Owner>
    ghost const kernelHalf: seq<Entry>

    ghost function Model(): State
      reads this, processTable, threadTable
    {
      State(processTable[..], threadTable[..], currentTid, cr3, kernelTable, control, log)
    }

    ghost predicate Valid()
      reads this, processTable, threadTable, pm, fa
    {
      && processTable.Length == NPROCESS && threadTable.Length == NTHREAD
      && fa.Valid()
      && Inv(Model())
      && Ledger(Model(), pm.mem, fa.out, owner, kernelHalf)
    }

    /** The state in which the scheduler starts.  The input thread has slot 0; init has its image, made from
      * the frames that were not yet in use before. */
    constructor (pm: PhysMem, fa: FrameAllocator, kernelTable: nat, init: ExecImage, kstack0: nat, kstack1: nat,
                 ghost before: set<nat>)
      requires fa.Valid() && kernelTable in before && before <= fa.out && init.heapSize <= USER_TOP
      requires Shut(pm.mem, before, KernelHalf(pm.mem, init.pageTable))
      requires Tree(pm.mem, init.pageTable, 4) && Frames(pm.mem, init.pageTable, 4) == fa.out - before
      requires TablesOpen(pm.mem, init.pageTable)
      ensures Valid() && this.pm == pm && this.fa == fa && this.kernelTable == kernelTable
      ensures Model() == Boot(kernelTable, init.pageTable, init.heapSize, kstack0, kstack1)
      ensures OwnedBy(owner, 0) == fa.out - before && KernelFrames(owner) == before && LostFrames(owner) == {}
      ensures kernelHalf == KernelHalf(pm.mem, init.pageTable)
      ensures fresh(processTable) && fresh(threadTable)
    {
      hide Inv, Ledger, Tree, Frames, FrameAllocator.Valid, KernelHalf, Reowned, OwnedBy, LostFrames, Boot, TablesOpen;
      this.pm, this.fa, this.kernelTable := pm, fa, kernelTable;
      processTable := new Option<Process>[NPROCESS](_ => None);
      threadTable := new Thread[NTHREAD](_ => FREE_THREAD);
      currentTid, cr3, control, log := None, kernelTable, Scheduling, [];
      owner := Reowned(map f | f in before :: Kernels, fa.out, 0, fa.out - before);
      kernelHalf := KernelHalf(pm.mem, init.pageTable);
      new;
      threadTable[0] := Thread(0, None, Runnable, kstack0);
      threadTable[1] := Thread(1, Some(0), Runnable, kstack1);
      processTable[0] := Some(NewProcess(0, None, 1, init.pageTable, init.heapSize));
      BootTables(processTable[..], threadTable[..], kernelTable, init, kstack0, kstack1);
      BootLedger(pm.mem, fa, before, kernelTable, init, kstack0, kstack1);
      IsValid(this);
    }

    /** The first process slot that was never used. */
    method NextPid() returns (r: Option<nat>)
      requires processTable.Length == NPROCESS && threadTable.Length == NTHREAD
      ensures r == Tables.NextPid(Model())
    {
      for i := 0 to NPROCESS - 1
        invariant FirstFree(processTable[..], 0, NPROCESS - 1) == FirstFree(processTable[..], i, NPROCESS - 1)
      {
        if processTable[i].None? {
          return Some(i);
        }
      }
      r := None;
    }

    method NextTid() returns (r: Option<nat>)
      requires processTable.Length == NPROCESS && threadTable.Length == NTHREAD
      ensures r == Tables.NextTid(Model())
    {
      for i := 0 to NTHREAD - 1
        invariant FirstUnused(threadTable[..], 0, NTHREAD - 1) == FirstUnused(threadTable[..], i, NTHREAD - 1)
      {
        if threadTable[i].state.Unused? {
          return Some(i);
        }
      }
      r := None;
    }

    /** A process with its first thread, which is entered in the thread table; the process is not entered yet. */
    method AllocProc(kstack: nat) returns (r: Result<Process, KernelError>)
      requires processTable.Length == NPROCESS && threadTable.Length == NTHREAD
      modifies threadTable
      ensures r.Ok? <==> old(Tables.NextPid(Model()).Some? && Tables.NextTid(Model()).Some?)
      ensures r.Err? ==> Model() == old(Model())
      ensures r.Ok? ==> var (pid, tid) := (old(Tables.NextPid(Model())).value, old(Tables.NextTid(Model())).value);
        && Model() == AllocThread(old(Model()), pid, tid, kstack)
        && r.value == NewProcess(pid, None, tid, 0, 0).(pageTable := None)
        && r.value.pid == pid && r.value.ppid == None && r.value.state.Alive? && !r.value.killed
        && r.value.threads == OneThread(tid) && r.value.heapSize == 0 && r.value.exitStatus == 0
        && threadTable[..] == old(threadTable[..])[tid := Thread(tid, Some(pid), Embryo, kstack)]
    {
      var pid := NextPid();
      if pid.None? {
        return Err(TableFull);
      }
      var tid := NextTid();
      if tid.None? {
        return Err(TableFull);
      }
      r := AddThread(Process(pid.value, None, Alive, NO_THREADS, 0, None, 0, false, 0), tid.value);
      ghost var before := threadTable[..];
      threadTable[tid.value] := Thread(tid.value, Some(pid.value), Embryo, kstack);
      assert threadTable[..] == before[tid.value := Thread(tid.value, Some(pid.value), Embryo, kstack)];
    }

    /** Marks every thread that the process lists as runnable, up to the first one beyond the table.  The
      * check lets a thread id of exactly NTHREAD pass; marking that one panics, which IndexPanic stands for. */
    method MarkThreadsAsRunnable(process: Process) returns (r: Result<(), KernelError>)
      requires threadTable.Length == NTHREAD
      modifies threadTable
      ensures r == MarkResult(process.threads)
      ensures forall u | 0 <= u < NTHREAD ::
        threadTable[u] ==
          SetIf(old(threadTable[u]), Some(u) in process.threads[..FirstBeyond(process.threads)], Runnable)
    {
      hide FirstBeyond;
      for i := 0 to |process.threads|
        invariant i <= FirstBeyond(process.threads)
        invariant forall u | 0 <= u < NTHREAD ::
          threadTable[u] == SetIf(old(threadTable[u]), Some(u) in process.threads[..i], Runnable)
      {
        var element := process.threads[i];
        if element.Some? {
          if element.value > NTHREAD {
            return Err(BadThread);
          }
          if element.value == NTHREAD {
            return Err(IndexPanic);
          }
          threadTable[element.value] := threadTable[element.value].(state := Runnable);
        }
      }
      assert process.threads[..|process.threads|] == process.threads;
      r := Ok(());
    }

    /** Enters a process with one thread, which can run from now on. */
    method EnterProcess(process: Process, ghost tid: nat)
      requires processTable.Length == NPROCESS && threadTable.Length == NTHREAD
      requires process.pid < NPROCESS && tid < NTHREAD && process.threads == OneThread(tid)
      modifies processTable, threadTable
      ensures Model() == old(Model().(procs := Model().procs[process.pid := Some(process)],
                                      threads := Model().threads[tid := Model().threads[tid].(state := Runnable)]))
    {
      ghost var procs, threads := processTable[..], threadTable[..];
      processTable[process.pid] := Some(process);
      OneListed(tid);
      var marked := MarkThreadsAsRunnable(process);
      assert processTable[..] == procs[process.pid := Some(process)];
      assert threadTable[..] == threads[tid := threads[tid].(state := Runnable)];
    }

    /** Marks the process's own threads as zombies. */
    method MarkThreadsAsZombie(process: Process)
      requires threadTable.Length == NTHREAD && forall t | Some(t) in process.threads :: t < NTHREAD
      modifies threadTable
      ensures forall u | 0 <= u < NTHREAD ::
        threadTable[u] ==
        SetIf(old(threadTable[u]), Some(u) in process.threads && old(threadTable[u]).pid == Some(process.pid),
              ThreadState.Zombie)
    {
      for i := 0 to |process.threads|
        invariant forall u | 0 <= u < NTHREAD ::
          threadTable[u] ==
          SetIf(old(threadTable[u]), Some(u) in process.threads[..i] && old(threadTable[u]).pid == Some(process.pid),
                ThreadState.Zombie)
      {
        var element := process.threads[i];
        if element.Some? {
          assert Some(element.value) in process.threads;
          if threadTable[element.value].pid == Some(process.pid) {
            threadTable[element.value] := threadTable[element.value].(state := ThreadState.Zombie);
          }
        }
      }
      assert process.threads[..|process.threads|] == process.threads;
    }

    // ---- The scheduler

    method FindNextRunnableThread() returns (r: Option<nat>)
      requires threadTable.Length == NTHREAD && (currentTid.Some? ==> currentTid.value < NTHREAD)
      ensures r == FindNext(threadTable[..], currentTid)
    {
      var current := if currentTid.Some? then currentTid.value else NTHREAD - 1;
      for i := 1 to NTHREAD + 1
        invariant FindNext(threadTable[..], currentTid) == FindFrom(threadTable[..], current, i)
      {
        var tid := (current + i) % NTHREAD;
        if threadTable[tid].state.Runnable? {
          return Some(tid);
        }
      }
      r := None;
    }

    /** Switches to the page table a thread runs on: its process's, or the kernel's for a kernel thread.  A
      * thread whose process is missing or has no page table makes the kernel panic, which ok = false stands for. */
    method SwitchPageTable(tid: nat) returns (ok: bool)
      requires Sizes(Model()) && tid < NTHREAD
      modifies this`cr3
      ensures ok <==> OwnTable(Model(), tid).Some?
      ensures cr3 == if ok then OwnTable(Model(), tid).value else old(cr3)
    {
      var pid := threadTable[tid].pid;
      if pid.Some? {
        if pid.value >= NPROCESS || processTable[pid.value].None? || processTable[pid.value].value.pageTable.None? {
          return false;
        }
        cr3 := processTable[pid.value].value.pageTable.value;
      } else {
        cr3 := kernelTable;
      }
      ok := true;
    }

    /** One round of the scheduler's loop, up to the context switch. */
    method SchedulerRound()
      requires Valid() && control.Scheduling?
      modifies this, threadTable
      ensures Valid() && Model() == ScheduleStep(old(Model()))
      ensures owner == old(owner)
    {
      hide Inv, Ledger, FrameAllocator.Valid, TableFor;
      ghost var s := Model();
      RunnableFacts(s);
      var next := FindNextRunnableThread();
      if next.None? {
        return;
      }
      threadTable[next.value] := threadTable[next.value].(state := Running);
      if currentTid.Some? {
        if threadTable[currentTid.value].state.Running? {
          threadTable[currentTid.value] := threadTable[currentTid.value].(state := Runnable);
        }
      }
      assert threadTable[..] == Picked(s.threads, s.current, next.value);
      currentTid := next;
      NextHasTable(s, Model(), next.value);
      var switched := SwitchPageTable(next.value);
      // the source panics otherwise
      assert switched;
      control := ThreadCode;
      NextHasTable(s, Model(), next.value);
      ScheduledState(s, Model(), next.value);
      ScheduleInv(s);
      SameSpacesLedger(s, Model(), pm.mem, fa.out, owner, kernelHalf);
    }

    /** The timer tick: the scheduler takes over from the current thread, which stays runnable. */
    method OnYield()
      requires Valid() && control.ThreadCode?
      modifies this, threadTable
      ensures Valid() && Model() == TimerYield(old(Model()))
      ensures owner == old(owner) && currentTid == old(currentTid) && cr3 == kernelTable
      ensures currentTid.Some? && currentTid.value < NTHREAD && threadTable[..] ==
        old(threadTable[..])[currentTid.value := old(threadTable[currentTid.value]).(state := Runnable)]
    {
      hide Inv, Ledger, FrameAllocator.Valid;
      ghost var s := Model();
      RunningFacts(s);
      cr3 := kernelTable;
      if currentTid.None? {
        return;
      }
      // the source panics unless the current thread is Running
      assert threadTable[currentTid.value].state.Running?;
      threadTable[currentTid.value] := threadTable[currentTid.value].(state := Runnable);
      control := Scheduling;
      assert Model().threads == TimerYield(s).threads;
      TimerInv(s);
      SameSpacesLedger(s, Model(), pm.mem, fa.out, owner, kernelHalf);
    }

    /** A system call gives up the CPU; the thread's state is left alone. */
    method OnSyscallYield()
      requires Valid()
      modifies this
      ensures Valid() && Model() == SyscallYield(old(Model()))
      ensures owner == old(owner)
    {
      hide Inv, Ledger, FrameAllocator.Valid;
      ghost var s := Model();
      cr3 := kernelTable;
      control := Scheduling;
      SyscallYieldInv(s);
      SameSpacesLedger(s, Model(), pm.mem, fa.out, owner, kernelHalf);
    }

    // ---- System calls

    /** fork: the child gets the next pid and thread and a copy of the parent's address space; copy is that
      * copy's root, or None.  When the copy runs out of frames, the frames taken for it are lost, and so is
      * the child's thread. */
    method Fork(kstack: nat) returns (r: Result<nat, KernelError>, ghost copy: Option<nat>)
      requires Valid() && InProcess(Model())
      modifies this, processTable, threadTable, pm, fa
      ensures Valid() && Model() == ForkStep(old(Model()), copy, kstack)
      ensures copy.Some? ==> NewTable(old(Model()), copy.value)
      ensures ForkResult(old(Model()), r, copy)
      ensures ForkMemory(old(Model()), old(pm.mem), old(fa.out), fa.all, pm.mem, copy)
      ensures ForkOwners(old(Model()), old(owner), old(fa.out), copy, fa.out, owner)
      ensures r.Ok? ==>
        && copy.Some? && r.value < NPROCESS && old(processTable[r.value]).None? && processTable[r.value].Some?
        && ChildOf(old(Model()), processTable[r.value].value, r.value, copy.value)
        && HasThread(processTable[r.value].value, old(threadTable[..]), threadTable[..], kstack)
        && processTable[..] == old(processTable[..])[r.value := processTable[r.value]]
      ensures r.Err? ==> processTable[..] == old(processTable[..])
      ensures r.Err? ==>
        || threadTable[..] == old(threadTable[..])
        || LostThread(old(threadTable[..]), threadTable[..], kstack)
    {
      hide Inv, Ledger, FrameAllocator.Valid, Tree, Frames, View, KernelHalf, SameProgram, SameView, SameTree, Reowned,
        OwnedBy, LostFrames, ForkStep, NewTable, ForkOwners, FirstFree, FirstUnused, Agree, UsableFrames, SameEntries,
        SamePaths, TablesOpen;
      ghost var s, m, out, owners := Model(), pm.mem, fa.out, owner;
      CurrentSpace(this);
      var current := processTable[threadTable[currentTid.value].pid.value].value;
      var child := AllocProc(kstack);
      if child.Err? {
        copy := None;
        ForkRefused(this, s, m, kstack);
        return Err(child.error), None;
      }
      var pid := child.value.pid;
      ghost var tid := Tables.NextTid(s).value;
      var pageTable := CopyUvm(pm, fa, cr3, current.pageTable.value);
      copy := pageTable;
      owner := Reowned(owner, fa.out, pid, if copy.Some? then fa.out - out else {});
      if copy.Some? {
        CopyOpen(m, cr3, pm.mem, copy.value);
      }
      OutInAll(fa);
      ForkLedger(s, m, out, owners, pm.mem, fa.out, kernelHalf, copy, kstack);
      if copy.Some? {
        FreshRoot(s, m, out, owners, pm.mem, fa.out, kernelHalf, copy.value);
      }
      ForkInv(s, copy, kstack);
      if pageTable.None? {
        ForkCopyFailed(s, kstack);
        assert LostThread(s.threads, threadTable[..], kstack);
        return Err(OutOfFrames), None;
      }
      var process := child.value.(pageTable := pageTable, ppid := Some(current.pid), heapSize := current.heapSize);
      EnterProcess(process, tid);
      log := log + [Forked(current.pid, pid)];
      ForkState(s, Model(), copy.value, kstack);
      ForkedChild(s, copy.value, kstack);
      return Ok(pid), copy;
    }

    /** exit: process and thread become zombies, and the scheduler takes over.  Nothing is freed yet.  Init
      * does not exit: the call returns with an error, on which its caller panics. */
    method Exit(status: int) returns (r: Result<(), KernelError>)
      requires Valid() && InProcess(Model())
      modifies this, processTable, threadTable
      ensures r.Err? <==> CurrentPid(old(Model())) == Some(0)
      ensures Valid() && Model() == if r.Ok? then ExitStep(old(Model()), status) else old(Model())
      ensures owner == old(owner)
      ensures r.Ok? ==> Dead(old(Model()), Model(), status)
    {
      hide Inv, Ledger, FrameAllocator.Valid, Tree, Frames, KernelHalf, OwnedBy, ExitStep;
      ghost var s := Model();
      CurrentSpace(this);
      var pid := threadTable[currentTid.value].pid.value;
      if pid == 0 {
        return Err(InitExiting);
      }
      var process := processTable[pid].value.(state := ProcessState.Zombie, exitStatus := status);
      processTable[pid] := Some(process);
      log := log + [Tables.Exit(pid, status)];
      assert process.threads[0] == Some(currentTid.value);
      MarkThreadsAsZombie(process);
      assert processTable[..] == s.procs[pid := Some(process)];
      assert threadTable[..] ==
        s.threads[currentTid.value := s.threads[currentTid.value].(state := ThreadState.Zombie)];
      cr3 := kernelTable;
      control := Scheduling;
      ExitState(s, Model(), status);
      DeadNow(s, Model(), status);
      ExitInv(s, status);
      SameSpacesLedger(s, Model(), pm.mem, fa.out, owner, kernelHalf);
      r := Ok(());
    }

    /** What a mark of kill leads to, at the start and end of every system call and at a timer tick. */
    method ExitIfCurrentProcessKilled() returns (r: KilledCheck)
      requires Valid() && InProcess(Model())
      modifies this, processTable, threadTable
      ensures Valid() && owner == old(owner)
      ensures var (s, p) := (old(Model()), CurrentPid(old(Model())).value);
        && r == (if !s.procs[p].value.killed then GoesOn else if p == 0 then Panics else Exited)
        && Model() == if r.Exited? then ExitStep(s, RET_ERROR) else s
      ensures r.Exited? ==> Dead(old(Model()), Model(), -1)
    {
      hide Inv, Ledger, FrameAllocator.Valid, ExitStep, Dead;
      CurrentSpace(this);
      var killed := processTable[threadTable[currentTid.value].pid.value].value.killed;
      if !killed {
        return GoesOn;
      }
      var exited := Exit(RET_ERROR);
      r := if exited.Ok? then Exited else Panics;
    }

    /** free_process: the listed threads are cleared, the address space given back, the slot marked as reaped.
      * It refuses a thread that is out of range, not the process's own, or listed twice, and an address space
      * that is active; what was cleared before such an error stays cleared. */
    method FreeProcess(child: Process) returns (r: Result<(), KernelError>)
      requires processTable.Length == NPROCESS && threadTable.Length == NTHREAD && fa.Valid()
      requires child.pid < NPROCESS && (child.pageTable.Some? ==> Owns(pm.mem, fa.out, child.pageTable.value))
      modifies processTable, threadTable, pm, fa
      ensures fa.Valid()
      ensures r.Ok? <==> child.pageTable != Some(cr3) && OwnThreads(child.threads, child.pid, old(threadTable[..]))
      ensures r.Ok? ==>
        && processTable[..] == old(processTable[..])[child.pid := Some(REAPED)]
        && threadTable[..] == Cleared(child.threads, old(threadTable[..]))
        && (child.pageTable.Some? ==>
              && fa.out == old(fa.out) - Frames(old(pm.mem), child.pageTable.value, 4)
              && OnlyIn(old(pm.mem), pm.mem, Frames(old(pm.mem), child.pageTable.value, 4)))
      ensures r.Err? ==>
        processTable[..] == old(processTable[..]) && ClearedUntilRefused(child, old(threadTable[..]), threadTable[..])
      ensures r.Err? || child.pageTable.None? ==> unchanged(pm) && unchanged(fa)
    {
      hide FrameAllocator.Valid, Tree, Frames, OwnThreads, Cleared;
      ghost var before := threadTable[..];
      NoneListed(child.pid, before);
      for i := 0 to |child.threads|
        modifies threadTable
        invariant threadTable[..] == Cleared(child.threads[..i], before)
        invariant OwnThreads(child.threads[..i], child.pid, before)
      {
        OneMoreListed(child.threads, child.pid, before, i);
        if child.threads[i].Some? {
          var tid := child.threads[i].value;
          if tid >= NTHREAD {
            return Err(BadThread);
          }
          assert threadTable[tid] == threadTable[..][tid];
          if threadTable[tid].pid != Some(child.pid) {
            return Err(BadThread);
          }
          threadTable[tid] := FREE_THREAD;
        }
      }
      assert child.threads[..|child.threads|] == child.threads;
      if child.pageTable.Some? {
        if cr3 == child.pageTable.value {
          return Err(ActiveTable);
        }
        FreeUvm(pm, fa, child.pageTable.value);
      }
      processTable[child.pid] := Some(REAPED);
      r := Ok(());
    }

    /** How a call of wait begins: after the check for a mark the process is copied, and the copy's mark, which
      * mark.value is, stays the same for the whole call.  So it is never set. */
    method EnterWait() returns (mark: Option<bool>)
      requires Valid() && InProcess(Model())
      modifies this, processTable, threadTable
      ensures Valid() && owner == old(owner)
      ensures var (s, p) := (old(Model()), CurrentPid(old(Model())).value);
        && mark == (if s.procs[p].value.killed then None else Some(false))
        && Model() == if s.procs[p].value.killed && p != 0 then ExitStep(s, RET_ERROR) else s
    {
      hide Inv, Ledger, FrameAllocator.Valid, ExitStep;
      CurrentSpace(this);
      var check := ExitIfCurrentProcessKilled();
      if !check.GoesOn? {
        return None;
      }
      mark := Some(processTable[threadTable[currentTid.value].pid.value].value.killed);
    }

    /** wait's scan for children of the process pid: the first zombie among them, if there is one. */
    method FindChild(pid: nat) returns (zombie: Option<nat>, haveKids: bool)
      requires processTable.Length == NPROCESS && threadTable.Length == NTHREAD
      ensures zombie == ZombieChild(processTable[..], pid, 0, NPROCESS - 1)
      ensures zombie.None? ==> (haveKids <==> exists j: nat :: j < NPROCESS - 1 && IsChild(processTable[..], j, pid))
    {
      ghost var procs := processTable[..];
      haveKids := false;
      for i := 0 to NPROCESS - 1
        invariant haveKids <==> exists j: nat :: j < i && IsChild(procs, j, pid)
        invariant ZombieChild(procs, pid, 0, NPROCESS - 1) == ZombieChild(procs, pid, i, NPROCESS - 1)
      {
        if processTable[i].None? || processTable[i].value.ppid != Some(pid) {
          assert !IsChild(procs, i, pid);
          continue;
        }
        assert IsChild(procs, i, pid);
        haveKids := true;
        if processTable[i].value.state.Zombie? {
          return Some(i), true;
        }
      }
      zombie := None;
    }

    /** One round of wait's loop.  A zombie child is taken and freed; all its frames are free again. */
    method WaitRound(killed: bool) returns (r: WaitResult)
      requires Valid() && InProcess(Model())
      modifies this, processTable, threadTable, pm, fa
      ensures Valid() && (Model(), r) == Tables.WaitRound(old(Model()), killed)
      ensures r.Child? ==>
        && fa.out == old(fa.out) - OwnedBy(old(owner), r.pid)
        && owner == Reowned(old(owner), fa.out, r.pid, {}) && LostFrames(owner) == LostFrames(old(owner))
      ensures !r.Child? ==> unchanged(pm) && unchanged(fa) && owner == old(owner)
    {
      hide Inv, Ledger, FrameAllocator.Valid, Tree, Frames, KernelHalf, OwnedBy, LostFrames, Reowned, Tables.WaitRound,
        OnlyIn, OwnThreads, Cleared, ClearedUntilRefused, KernelFrames, Shut, View, Agree, ZombieChild;
      ghost var s, m, out := Model(), pm.mem, fa.out;
      CurrentSpace(this);
      var pid := threadTable[currentTid.value].pid.value;
      var zombie, haveKids := FindChild(pid);
      if zombie.Some? {
        ZombieSpace(this, zombie.value);
        var child := processTable[zombie.value].value;
        processTable[zombie.value] := None;
        OneCleared(child.threads[0].value, child.pid, threadTable[..]);
        var freed := FreeProcess(child);
        log := log + [Reaped(pid, child.pid, child.exitStatus)];
        assert processTable[..] == s.procs[child.pid := Some(REAPED)];
        WaitReaps(s, Model(), killed, child);
        owner := Reowned(owner, fa.out, child.pid, {});
        ReapLedger(s, m, out, old(owner), Model(), pm.mem, fa.out, kernelHalf, child.pid);
        WaitInv(s, killed);
        return Child(child.pid, child.exitStatus);
      }
      WaitNoZombie(s, killed, haveKids);
      if !haveKids {
        return NoChild;
      }
      if killed {
        return WasKilled;
      }
      OnSyscallYield();
      r := Waiting;
    }

    /** kill marks the process with this pid, if there is one. */
    method Kill(pid: nat) returns (found: bool)
      requires Valid() && InProcess(Model())
      modifies processTable
      ensures Valid() && (Model(), found) == KillStep(old(Model()), pid)
      ensures found <==> pid < NPROCESS - 1 && InUse(old(Model()), pid)
      ensures found ==>
        && old(processTable[pid]).Some?
        && processTable[..] == old(processTable[..])[pid := Some(old(processTable[pid]).value.(killed := true))]
      ensures !found ==> processTable[..] == old(processTable[..])
    {
      hide Inv, Ledger, FrameAllocator.Valid;
      ghost var s := Model();
      CurrentSpace(this);
      KillInv(s, pid);
      KilledNow(s, pid);
      for i := 0 to NPROCESS - 1
        invariant Model() == s && SlotOfPid(s.procs, pid, 0, NPROCESS - 1) == SlotOfPid(s.procs, pid, i, NPROCESS - 1)
      {
        if processTable[i].None? || processTable[i].value.pid != pid {
          continue;
        }
        var process := processTable[i].value;
        processTable[i] := None;
        processTable[i] := Some(process.(killed := true));
        assert processTable[..] == s.procs[i := Some(process.(killed := true))];
        SameSpacesLedger(s, Model(), pm.mem, fa.out, owner, kernelHalf);
        return true;
      }
      found := false;
      SameSpacesLedger(s, Model(), pm.mem, fa.out, owner, kernelHalf);
    }

    /** exec: the process gets a freshly built image.  The old address space is dropped but not freed, and an
      * image that could not be finished is dropped too: these frames are lost. */
    method Exec(image: seq<byte>, argv: seq<seq<byte>>) returns (r: Result<ExecImage, KernelError>,
                ghost strings: seq<nat>)
      requires Valid() && InProcess(Model()) && LoadableImage(image)
      modifies this, processTable, pm, fa
      ensures Valid() && old(fa.out) <= fa.out && Agree(old(pm.mem), pm.mem, old(fa.out))
      ensures Model() == if r.Ok? then ExecStep(old(Model()), r.value.pageTable, r.value.heapSize) else old(Model())
      ensures r.Ok? ==> NewTable(old(Model()), r.value.pageTable)
      ensures r.Ok? ==> CanBuild(image, |fa.all - old(fa.out)|)
      ensures CanBuild(image, |fa.all - old(fa.out)|) && WithinLimits(argv) ==> r.Ok?
      ensures r.Ok? && WithinLimits(argv) ==> StackFits(r.value)
      ensures r.Ok? ==> BuiltTables(pm.mem, r.value.pageTable, ImageSegments(image))
      ensures r.Ok? ==>
        && InProcess(Model()) && cr3 == r.value.pageTable
        && RecordedSize(Model()) == PagesFor(MaxEnd(ImageSegments(image))) * PAGE_SIZE
        && (StackFits(r.value) && RecordedSize(Model()) <= GUARD * PAGE_SIZE ==>
              HeapInv(pm.mem, cr3, RecordedSize(Model()), RecordedSize(Model()), GUARD))
      ensures r.Ok? && StackFits(r.value) ==> ImageBuilt(pm.mem, ImageSegments(image), argv, strings, r.value)
      ensures r.Ok? ==>
        && OwnedBy(owner, CurrentPid(Model()).value) == fa.out - old(fa.out)
        && LostFrames(owner) == LostFrames(old(owner)) + OwnedBy(old(owner), CurrentPid(Model()).value)
      ensures r.Err? ==> LostFrames(owner) == LostFrames(old(owner)) + (fa.out - old(fa.out))
    {
      hide Inv, Ledger, FrameAllocator.Valid, Tree, Frames, View, KernelHalf, OwnedBy, LostFrames, Reowned, ImageBuilt,
        WithinLimits, MaxEnd, HeadersOk, Segments, InUserHalf, ExecStep, NewTable, Agree, CanBuild, BuiltTables,
        TablesOpen;
      ghost var s, m, out, owners := Model(), pm.mem, fa.out, owner;
      CurrentSpace(this);
      var prepared;
      prepared, strings := PrepareExecImage(pm, fa, cr3, image, argv);
      ghost var pid := CurrentPid(s).value;
      OutInAll(fa);
      if prepared.Err? {
        owner := Reowned(owner, fa.out, pid, OwnedBy(owner, pid));
        ExecFailed(s, m, out, owners, pm.mem, fa.out, kernelHalf);
        return Err(BadImage(prepared.error)), strings;
      }
      var e := prepared.value;
      HeapBelowTop(image);
      BuiltOpen(pm.mem, e.pageTable, ImageSegments(image));
      FreshRoot(s, m, out, owners, pm.mem, fa.out, kernelHalf, e.pageTable);
      ExecLedger(s, m, out, owners, pm.mem, fa.out, kernelHalf, e.pageTable, e.heapSize);
      ExecInv(s, e.pageTable, e.heapSize);
      owner := Reowned(owner, fa.out, pid, fa.out - out);
      CommitExec(e);
      ExecState(s, Model(), e.pageTable, e.heapSize);
      if StackFits(e) && e.heapSize <= GUARD * PAGE_SIZE {
        HeapReady(pm.mem, ImageSegments(image), argv, strings, e);
      }
      return Ok(e), strings;
    }

    /** The commit: from now on the process has the new page table, which becomes the active one. */
    method CommitExec(e: ExecImage)
      requires processTable.Length == NPROCESS && threadTable.Length == NTHREAD && InProcess(Model())
      modifies this`cr3, processTable
      ensures Model() == ExecStep(old(Model()), e.pageTable, e.heapSize)
      ensures var p := CurrentPid(old(Model())).value;
        && old(processTable[p]).Some? && cr3 == e.pageTable
        && processTable[..] == old(processTable[..])[
             p := Some(old(processTable[p]).value.(pageTable := Some(e.pageTable), heapSize := e.heapSize))]
    {
      ghost var procs := processTable[..];
      var pid := threadTable[currentTid.value].pid.value;
      var process := processTable[pid].value;
      processTable[pid] := Some(process.(pageTable := Some(e.pageTable), heapSize := e.heapSize));
      assert processTable[..] == procs[pid := Some(process.(pageTable := Some(e.pageTable), heapSize := e.heapSize))];
      cr3 := e.pageTable;
    }

    /** copy_to_user into the current process, for whatever pointer it passed: no other process sees it, no
      * frame changes hands, and nothing is ever stored through a pointer into the kernel half. */
    method CopyOut(ptr: nat, bytes: seq<byte>) returns (r: Result<(), CopyError>)
      requires Valid() && InProcess(Model()) && ptr < WORD
      requires KernelAddress(ptr) ==> NoLargePage(pm.mem, cr3, ptr)
      requires ptr < USER_TOP < ptr + |bytes| ==> NoLargePage(pm.mem, cr3, USER_TOP)
      modifies pm, fa
      ensures Valid() && Model() == old(Model()) && unchanged(fa)
      ensures r.Ok? <==> |bytes| == 0 || (ptr != 0 && AllAllowed(old(pm.mem), cr3, UserWrite, ptr, |bytes|))
      ensures r.Ok? ==> Stored(old(pm.mem), pm.mem, cr3, ptr, bytes, |bytes|)
      ensures |bytes| > 0 && ptr >= USER_TOP ==> r.Err? && pm.mem == old(pm.mem)
      ensures forall q: nat | InUse(Model(), q) && q != CurrentPid(Model()).value ::
        SameView(old(pm.mem), pm.mem, TableOf(Model(), q))
    {
      hide Inv, Ledger, FrameAllocator.Valid, Tree, Frames, View, KernelHalf, OwnedBy, SameView, Stored, Shut,
        KernelShut, KernelFrames, AllAllowed;
      ghost var s, m := Model(), pm.mem;
      CurrentSpace(this);
      if KernelAddress(ptr) {
        ShutAddress(m, KernelFrames(owner), cr3, ptr);
      } else if ptr < USER_TOP < ptr + |bytes| {
        ShutAddress(m, KernelFrames(owner), cr3, USER_TOP);
      }
      r := CopyToUser(pm, fa, cr3, ptr, bytes);
      PageWritesLedger(s, m, fa.out, owner, kernelHalf, pm.mem, CurrentPid(s).value);
      forall q: nat | InUse(s, q) && q != CurrentPid(s).value ensures SameView(m, pm.mem, TableOf(s, q)) {
        Unseen(s, m, fa.out, owner, kernelHalf, pm.mem, CurrentPid(s).value, q);
      }
    }

    /** sbrk: works on a copy of the process, so that the size it records never changes. */
    method Sbrk(n: int) returns (r: Result<nat, KernelError>)
      requires Valid() && InProcess(Model()) && -0x8000_0000_0000_0000 <= n < 0x8000_0000_0000_0000
      modifies this`owner, pm, fa
      ensures Valid() && Model() == old(Model())
      ensures Within(old(pm.mem), pm.mem, cr3, old(fa.out), fa.out)
      ensures var size := Model().procs[CurrentPid(Model()).value].value.heapSize;
        exists size' :: HeapStep(old(pm.mem), size, pm.mem, size', cr3, n)
          && (n > 0 ==> (r.Ok? <==> size' != size)) && (r.Ok? ==> r.value == size)
      ensures n > 0 ==>
        (r.Ok? <==> CanGrow(old(pm.mem), cr3, Model().procs[CurrentPid(Model()).value].value.heapSize, n,
                    |fa.all - old(fa.out)|))
      ensures n <= 0 ==> r.Ok?
      ensures LostFrames(owner) == LostFrames(old(owner)) && TablesKept(old(pm.mem), pm.mem, cr3)
    {
      hide Inv, Ledger, FrameAllocator.Valid, Tree, Frames, View, KernelHalf, OwnedBy, LostFrames, Reowned, HeapStep,
        CanGrow, GrowthRefused, TablesKept, TablesOpen;
      ghost var s, m, out, owners := Model(), pm.mem, fa.out, owner;
      CurrentSpace(this);
      var pid := threadTable[currentTid.value].pid.value;
      var process := processTable[pid].value;
      var grown, copied := GrowProcessHeap(pm, fa, n, process);
      owner := Reowned(owner, fa.out, pid, Frames(pm.mem, cr3, 4));
      SbrkLedger(s, m, out, owners, pm.mem, fa.out, kernelHalf);
      if grown.Err? {
        return Err(HeapFull);
      }
      return Ok(process.heapSize);
    }
  }

  /** Two calls of sbrk.  If the first one maps a page, the second one, whatever it asks for, succeeds exactly
    * if it needs no page: both start from the same recorded size. */
  method SbrkTwice(k: Kernel, n: int, m: int)
    returns (first: Result<nat, KernelError>, second: Result<nat, KernelError>)
    requires k.Valid() && InProcess(k.Model())
    requires 0 < n < 0x8000_0000_0000_0000 && 0 < m < 0x8000_0000_0000_0000
    requires PagesFor(RecordedSize(k.Model())) < PagesFor(RecordedSize(k.Model()) + n)
    requires CanGrow(k.pm.mem, k.cr3, RecordedSize(k.Model()), n, |k.fa.all - k.fa.out|)
    modifies k`owner, k.pm, k.fa
    ensures k.Valid() && k.Model() == old(k.Model())
    ensures first.Ok?
    ensures var size := RecordedSize(k.Model());
      second.Ok? <==> size + m < USER_TOP && PagesFor(size + m) == PagesFor(size)
  {
    hide Inv, Kernel.Valid, HeapStep, CanGrow, PagesFor, Within, LostFrames, InProcess;
    ghost var mem, size := k.pm.mem, RecordedSize(k.Model());
    InProcessSize(k);
    first := k.Sbrk(n);
    ghost var size' :| HeapStep(mem, size, k.pm.mem, size', k.cr3, n) && size' != size;
    FirstPageMapped(mem, k.pm.mem, k.cr3, size, size', n);
    SecondGrowth(k.pm.mem, k.cr3, size, m, |k.fa.all - k.fa.out|);
    second := k.Sbrk(m);
  }

  ghost function RecordedSize(s: State): nat
    requires InProcess(s)
  {
    s.procs[CurrentPid(s).value].value.heapSize
  }

  lemma InProcessSize(k: Kernel)
    requires k.Valid() && InProcess(k.Model())
    ensures RecordedSize(k.Model()) <= USER_TOP
  {
    hide Inv, Ledger;
    CurrentSpace(k);
  }

  /** A growth that needs a page maps the first page above the old size. */
  lemma FirstPageMapped(m: Mem, m': Mem, root: nat, size: nat, size': nat, n: nat)
    requires n > 0 && HeapStep(m, size, m', size', root, n) && size' != size && PagesFor(size) < PagesFor(size + n)
    ensures PagesFor(size) < USER_PAGES && View(m', root, PagesFor(size)).Some?
  {
    hide View;
    RoundUpMonotone(size, size');
    RoundUpMonotone(size', USER_TOP - 1);
    var u := View(m', root, PagesFor(size));
  }

  /** The LOAD segments of an ELF file. */
  ghost function ImageSegments(image: seq<byte>): seq<Segment> {
    var elf := ReadElfHeader(image);
    if elf.Ok? then Segments(image, elf.value, elf.value.phnum) else []
  }

  /** The program headers name addresses of the user half only; what the code does with others is not modelled. */
  ghost predicate LoadableImage(image: seq<byte>) {
    ReadElfHeader(image).Ok? ==> InUserHalf(ImageSegments(image))
  }

  lemma HeapBelowTop(image: seq<byte>)
    requires LoadableImage(image)
    ensures PagesFor(MaxEnd(ImageSegments(image))) * PAGE_SIZE <= USER_TOP
  {
    MaxEndBound(ImageSegments(image));
  }

  lemma ExecState(s: State, s': State, table: nat, heapSize: nat)
    requires InProcess(s) && s' == ExecStep(s, table, heapSize)
    ensures CurrentPid(s') == CurrentPid(s) && InProcess(s') && RecordedSize(s') == heapSize
  {}

  lemma ExecFailed(s: State, m: Mem, out: set<nat>, owner: map<nat, Owner>, m': Mem, out': set<nat>, kernel: seq<Entry>)
    requires Inv(s) && InProcess(s) && Ledger(s, m, out, owner, kernel) && out <= out' && Agree(m, m', out)
    ensures var p := CurrentPid(s).value;
      var owner' := Reowned(owner, out', p, OwnedBy(owner, p));
      Ledger(s, m', out', owner', kernel) && LostFrames(owner') == LostFrames(owner) + (out' - out)
  {
    hide Tree, Frames, View, SameView, KernelHalf, Reowned, LostFrames, SamePaths, TablesOpen;
    var p := CurrentPid(s).value;
    assert SpaceOk(s, m, owner, kernel, p);
    SameViewFrame(m, m', TableOf(s, p), out);
    SameOpen(m, m', TableOf(s, p));
    LedgerStep(s, m, out, owner, kernel, s, m', out', p, OwnedBy(owner, p));
    ReownedOwners(owner, out', p, OwnedBy(owner, p));
  }

  lemma ExecOthers(s: State, table: nat, heapSize: nat)
    requires InProcess(s)
    ensures OthersKeep(s, ExecStep(s, table, heapSize), CurrentPid(s).value)
  {}

  lemma ExecLedger(s: State, m: Mem, out: set<nat>, owner: map<nat, Owner>, m': Mem, out': set<nat>, kernel: seq<Entry>,
                   table: nat, heapSize: nat)
    requires Inv(s) && InProcess(s) && Ledger(s, m, out, owner, kernel) && out <= out' && Agree(m, m', out)
    requires heapSize <= USER_TOP
    requires Tree(m', table, 4) && Frames(m', table, 4) == out' - out && KernelHalf(m', table) == kernel
    requires TablesOpen(m', table)
    ensures var p := CurrentPid(s).value;
      var owner' := Reowned(owner, out', p, out' - out);
      && Ledger(ExecStep(s, table, heapSize), m', out', owner', kernel)
      && OwnedBy(owner', p) == out' - out && LostFrames(owner') == LostFrames(owner) + OwnedBy(owner, p)
  {
    hide Tree, Frames, KernelHalf, Reowned, LostFrames, Inv, OthersKeep, TablesOpen;
    var p := CurrentPid(s).value;
    ExecOthers(s, table, heapSize);
    LedgerStep(s, m, out, owner, kernel, ExecStep(s, table, heapSize), m', out', p, out' - out);
    ReownedOwners(owner, out', p, out' - out);
  }

  lemma SbrkLedger(s: State, m: Mem, out: set<nat>, owner: map<nat, Owner>, m': Mem, out': set<nat>, kernel: seq<Entry>)
    requires Inv(s) && InProcess(s) && Ledger(s, m, out, owner, kernel)
    requires s.procs[CurrentPid(s).value].value.pageTable == Some(s.cr3) && Within(m, m', s.cr3, out, out')
    requires TablesKept(m, m', s.cr3)
    ensures var owner' := Reowned(owner, out', CurrentPid(s).value, Frames(m', s.cr3, 4));
      Ledger(s, m', out', owner', kernel) && LostFrames(owner') == LostFrames(owner)
  {
    hide Tree, Frames, KernelHalf, Reowned, LostFrames, TablesKept, TablesOpen;
    var p := CurrentPid(s).value;
    assert SpaceOk(s, m, owner, kernel, p);
    KeptOpen(m, m', s.cr3);
    LedgerStep(s, m, out, owner, kernel, s, m', out', p, Frames(m', s.cr3, 4));
    ReownedOwners(owner, out', p, Frames(m', s.cr3, 4));
  }

  /** Booting: init gets its image, and the scheduler can start. */
  method Start(pm: PhysMem, fa: FrameAllocator, kernelTable: nat, image: seq<byte>, kstack0: nat, kstack1: nat)
    returns (r: Result<Kernel, KernelError>, ghost init: ExecImage)
    requires fa.Valid() && IsTable(pm.mem, kernelTable) && kernelTable in fa.out && LoadableImage(image)
    requires Shut(pm.mem, fa.out, KernelHalf(pm.mem, kernelTable))
    modifies pm, fa
    ensures r.Ok? <==> CanBuild(image, |fa.all - old(fa.out)|)
    ensures r.Ok? ==>
      && r.value.Valid() && r.value.pm == pm && r.value.fa == fa && fresh(r.value)
      && r.value.Model() == Boot(kernelTable, init.pageTable, init.heapSize, kstack0, kstack1)
      && (exists strings :: ImageBuilt(pm.mem, ImageSegments(image), [], strings, init))
      && BuiltTables(pm.mem, init.pageTable, ImageSegments(image))
      && IsInit(r.value.Model(), init.pageTable, PagesFor(MaxEnd(ImageSegments(image))) * PAGE_SIZE)
      && r.value.kernelHalf == KernelHalf(old(pm.mem), kernelTable)
      && LostFrames(r.value.owner) == {}
  {
    hide Inv, Ledger, FrameAllocator.Valid, Tree, Frames, View, KernelHalf, OwnedBy, LostFrames, ImageBuilt, MaxEnd,
      HeadersOk, Segments, InUserHalf, Boot, BuiltTables, TablesOpen;
    ghost var before := fa.out;
    var prepared;
    ghost var strings;
    prepared, strings := PrepareExecImage(pm, fa, kernelTable, image, []);
    if prepared.Err? {
      init := ExecImage(0, 0, 0, 0, 0, 0);
      return Err(BadImage(prepared.error)), init;
    }
    init := prepared.value;
    HeapBelowTop(image);
    BuiltOpen(pm.mem, init.pageTable, ImageSegments(image));
    ShutKept(old(pm.mem), pm.mem, before, KernelHalf(old(pm.mem), kernelTable));
    var k := new Kernel(pm, fa, kernelTable, prepared.value, kstack0, kstack1, before);
    InitBooted(kernelTable, init, kstack0, kstack1);
    r := Ok(k);
  }

  /** The place of the first thread id beyond the table, or the length of the list. */
  function FirstBeyond(threads: seq<Option<nat>>): (k: nat)
    ensures k <= |threads| && (k < |threads| ==> threads[k].Some? && threads[k].value >= NTHREAD)
    ensures forall i | 0 <= i < k && threads[i].Some? :: threads[i].value < NTHREAD
  {
    if threads == [] then 0
    else if threads[0].Some? && threads[0].value >= NTHREAD then 0
    else 1 + FirstBeyond(threads[1..])
  }

  /** An error exactly if some id lies beyond the table; which one is a matter of the first of them. */
  function MarkResult(threads: seq<Option<nat>>): Result<(), KernelError> {
    var k := FirstBeyond(threads);
    if k == |threads| then Ok(()) else Err(if threads[k] == Some(NTHREAD) then IndexPanic else BadThread)
  }

  lemma OneListed(tid: nat)
    requires tid < NTHREAD
    ensures FirstBeyond(OneThread(tid)) == 8 && OneThread(tid)[..8] == OneThread(tid)
    ensures forall t: nat :: Some(t) in OneThread(tid) <==> t == tid
  {
    assert OneThread(tid)[0] == Some(tid);
  }

  /** The page table that a thread runs on: the kernel's, or that of its process if there is one. */
  function OwnTable(s: State, t: nat): Option<nat>
    requires t < |s.threads|
  {
    match s.threads[t].pid
    case None => Some(s.kernelTable)
    case Some(p) => if p < |s.procs| && s.procs[p].Some? then s.procs[p].value.pageTable else None
  }

  /** The thread that was picked has a page table to run on. */
  lemma NextHasTable(s: State, s': State, next: nat)
    requires Inv(s) && next < NTHREAD && s.threads[next].state.Runnable?
    requires s'.procs == s.procs && s'.kernelTable == s.kernelTable && |s'.threads| == NTHREAD
    requires s'.threads[next].pid == s.threads[next].pid
    ensures OwnTable(s', next) == Some(TableFor(s', next))
  {
    assert ThreadOk(s, next);
    if s.threads[next].pid.Some? {
      assert ProcessOk(s, s.threads[next].pid.value);
    }
  }

  /** Every listed thread exists, belongs to the process, and is listed once. */
  ghost predicate OwnThreads(list: seq<Option<nat>>, pid: nat, threads: seq<Thread>) {
    && (forall i | 0 <= i < |list| && list[i].Some? ::
         list[i].value < |threads| && threads[list[i].value].pid == Some(pid))
    && (forall i, j | 0 <= i < j < |list| && list[i].Some? :: list[i] != list[j])
  }

  ghost function Cleared(list: seq<Option<nat>>, threads: seq<Thread>): (r: seq<Thread>)
    ensures |r| == |threads|
    ensures forall u | 0 <= u < |threads| :: r[u] == if Some(u) in list then FREE_THREAD else threads[u]
  {
    seq(|threads|, u requires 0 <= u < |threads| => if Some(u) in list then FREE_THREAD else threads[u])
  }

  /** Exactly the threads before the first one that fails a check were cleared, or all if none fails. */
  ghost predicate ClearedUntilRefused(child: Process, before: seq<Thread>, after: seq<Thread>) {
    exists k: nat :: k <= |child.threads|
      && OwnThreads(child.threads[..k], child.pid, before) && after == Cleared(child.threads[..k], before)
      && (k == |child.threads| || !OwnThreads(child.threads[..k + 1], child.pid, before))
  }

  lemma NoneListed(pid: nat, threads: seq<Thread>)
    ensures OwnThreads([], pid, threads) && Cleared([], threads) == threads
  {}

  /** One step through the list: whether the next thread passes the checks, and what clearing it does. */
  lemma OneMoreListed(list: seq<Option<nat>>, pid: nat, threads: seq<Thread>, i: nat)
    requires i < |list| && OwnThreads(list[..i], pid, threads)
    ensures list[i].None? ==>
      OwnThreads(list[..i + 1], pid, threads) && Cleared(list[..i + 1], threads) == Cleared(list[..i], threads)
    ensures
      && list[i].Some?
      && (list[i].value >= |threads| || Cleared(list[..i], threads)[list[i].value].pid != Some(pid)) ==>
      !OwnThreads(list[..i + 1], pid, threads) && !OwnThreads(list, pid, threads)
    ensures
      && list[i].Some? && list[i].value < |threads|
      && Cleared(list[..i], threads)[list[i].value].pid == Some(pid) ==>
      && OwnThreads(list[..i + 1], pid, threads)
      && Cleared(list[..i + 1], threads) == Cleared(list[..i], threads)[list[i].value := FREE_THREAD]
  {
    var more := list[..i + 1];
    assert more == list[..i] + [list[i]];
    if list[i].Some? && list[i].value < |threads| && Some(list[i].value) in list[..i] {
      var j :| 0 <= j < i && list[j] == list[i];
      assert more[j] == more[i];
    }
    if list[i].Some? && (list[i].value >= |threads| || Cleared(list[..i], threads)[list[i].value].pid != Some(pid)) {
      assert more[i] == list[i];
    }
  }

  lemma OneCleared(t: nat, pid: nat, threads: seq<Thread>)
    requires t < |threads| && threads[t].pid == Some(pid)
    ensures OwnThreads(OneThread(t), pid, threads) && Cleared(OneThread(t), threads) == threads[t := FREE_THREAD]
  {
    assert OneThread(t)[0] == Some(t);
  }

  lemma ExitState(s: State, s': State, status: int)
    requires Inv(s) && InProcess(s)
    requires var (p, t) := (CurrentPid(s).value, s.current.value);
      s' == s.(procs := s.procs[p := Some(s.procs[p].value.(state := ProcessState.Zombie, exitStatus := status))],
               threads := s.threads[t := s.threads[t].(state := ThreadState.Zombie)],
               log := s.log + [Tables.Exit(p, status)], cr3 := s.kernelTable, control := Scheduling)
    ensures s' == ExitStep(s, status)
  {
    CurrentProcess(s);
  }

  /** What wait needs to know of a zombie child. */
  lemma ZombieSpace(k: Kernel, c: nat)
    requires k.Valid() && InProcess(k.Model()) && c < NPROCESS && InUse(k.Model(), c)
    requires k.processTable[c].value.state.Zombie?
    ensures var (s, pr) := (k.Model(), k.processTable[c].value);
      && pr.pid == c && pr.threads == OneThread(ThreadOf(s, c)) && ThreadOf(s, c) < NTHREAD
      && s.threads[ThreadOf(s, c)].pid == Some(c) && pr.pageTable.Some? && pr.pageTable.value != k.cr3
      && Owns(k.pm.mem, k.fa.out, pr.pageTable.value) && Frames(k.pm.mem, pr.pageTable.value, 4) == OwnedBy(k.owner, c)
  {
    hide Frames, KernelHalf, FrameAllocator.Valid, OwnedBy;
    var s := k.Model();
    CurrentProcess(s);
    assert ProcessOk(s, c);
    assert SpaceOk(s, k.pm.mem, k.owner, k.kernelHalf, c);
    NoMappedFrameIsFree(s, k.pm.mem, k.fa.out, k.owner, k.kernelHalf, c, 0);
  }

  lemma WaitReaps(s: State, s': State, killed: bool, child: Process)
    requires Inv(s) && InProcess(s)
    requires var p := CurrentPid(s).value;
      && ZombieChild(s.procs, p, 0, NPROCESS - 1) == Some(child.pid) && s.procs[child.pid] == Some(child)
      && s' == Reap(s, child.pid).(log := s.log + [Reaped(p, child.pid, child.exitStatus)])
    ensures (s', Child(child.pid, child.exitStatus)) == Tables.WaitRound(s, killed)
  {
    CurrentProcess(s);
  }

  lemma WaitNoZombie(s: State, killed: bool, haveKids: bool)
    requires Inv(s) && InProcess(s) && ZombieChild(s.procs, CurrentPid(s).value, 0, NPROCESS - 1) == None
    requires haveKids <==> exists j: nat :: j < NPROCESS - 1 && IsChild(s.procs, j, CurrentPid(s).value)
    ensures Tables.WaitRound(s, killed) ==
      if !haveKids then (s, NoChild) else if killed then (s, WasKilled) else (SyscallYield(s), Waiting)
  {
    CurrentProcess(s);
  }

  lemma ReapLedger(s: State, m: Mem, out: set<nat>, owner: map<nat, Owner>, s': State, m': Mem, out': set<nat>,
                   kernel: seq<Entry>, c: nat)
    requires Ledger(s, m, out, owner, kernel) && c < |s.procs|
    requires s'.procs == s.procs[c := Some(REAPED)] && s'.kernelTable == s.kernelTable
    requires out' == out - OwnedBy(owner, c) && OnlyIn(m, m', OwnedBy(owner, c))
    ensures Ledger(s', m', out', Reowned(owner, out', c, {}), kernel)
    ensures LostFrames(Reowned(owner, out', c, {})) == LostFrames(owner)
  {
    hide Tree, Frames, KernelHalf, OwnedBy, LostFrames, Reowned;
    LedgerStep(s, m, out, owner, kernel, s', m', out', c, {});
    ReownedOwners(owner, out', c, {});
  }

  ghost predicate SameSpace(s: State, s': State, p: nat) {
    && InUse(s', p) == InUse(s, p)
    && (InUse(s, p) ==> TableOf(s', p) == TableOf(s, p) && s'.procs[p].value.heapSize == s.procs[p].value.heapSize)
  }

  /** The ledger does not depend on threads, control or log, nor on a process's state, status and mark. */
  lemma SameSpacesLedger(s: State, s': State, m: Mem, out: set<nat>, owner: map<nat, Owner>, kernel: seq<Entry>)
    requires Ledger(s, m, out, owner, kernel) && s'.kernelTable == s.kernelTable
    requires forall p: nat :: SameSpace(s, s', p)
    ensures Ledger(s', m, out, owner, kernel)
  {
    hide Tree, Frames, KernelHalf, OwnedBy;
    forall p: nat ensures SpaceOk(s', m, owner, kernel, p) {
      assert SpaceOk(s, m, owner, kernel, p) && SameSpace(s, s', p);
    }
  }

  /** fork succeeds exactly if a pid, a thread and enough frames are free; it returns the child's pid. */
  ghost predicate ForkResult(s: State, r: Result<nat, KernelError>, copy: Option<nat>)
    requires Sizes(s)
  {
    && (r.Ok? <==> Tables.NextPid(s).Some? && Tables.NextTid(s).Some? && copy.Some?)
    && (r.Ok? ==> Some(r.value) == Tables.NextPid(s))
  }

  ghost predicate ForkMemory(s: State, m: Mem, out: set<nat>, all: set<nat>, m': Mem, copy: Option<nat>)
    requires InProcess(s)
  {
    var parent := TableOf(s, CurrentPid(s).value);
    && Agree(m, m', out) && SameView(m, m', parent)
    && (Tables.NextPid(s).Some? && Tables.NextTid(s).Some? ==> (copy.Some? <==> |Frames(m, parent, 4)| <= |all - out|))
    && (copy.Some? ==> SameProgram(m, parent, m', copy.value) && SameEntries(m, parent, m', copy.value))
  }

  ghost predicate ForkOwners(s: State, owner: map<nat, Owner>, out: set<nat>, copy: Option<nat>, out': set<nat>,
                             owner': map<nat, Owner>)
    requires Sizes(s)
  {
    if Tables.NextPid(s).Some? && Tables.NextTid(s).Some? then
      && owner' == Reowned(owner, out', Tables.NextPid(s).value, if copy.Some? then out' - out else {})
      && LostFrames(owner') == LostFrames(owner) + if copy.Some? then {} else out' - out
    else owner' == owner && out' == out
  }

  /** The process that runs, and its address space, which is the active one. */
  lemma CurrentSpace(k: Kernel)
    requires k.Valid() && InProcess(k.Model())
    ensures k.processTable.Length == NPROCESS && k.threadTable.Length == NTHREAD
    ensures k.currentTid.Some? && k.currentTid.value < NTHREAD
    ensures CurrentPid(k.Model()).Some? && k.threadTable[k.currentTid.value].pid == CurrentPid(k.Model())
    ensures var (s, p) := (k.Model(), CurrentPid(k.Model()).value);
      && p < NPROCESS && s.procs[p] == k.processTable[p]
      && s.procs[p].Some? && s.procs[p].value.pid == p && s.procs[p].value.pageTable == Some(k.cr3)
      && TableOf(s, p) == k.cr3
      && ThreadOf(s, p) == k.currentTid.value && s.procs[p].value.threads == OneThread(k.currentTid.value)
      && s.procs[p].value.heapSize <= USER_TOP
      && Frames(k.pm.mem, k.cr3, 4) == OwnedBy(k.owner, p)
    ensures Owns(k.pm.mem, k.fa.out, k.cr3) && IsTable(k.pm.mem, k.cr3) && k.cr3 !in k.fa.all - k.fa.out
    ensures KernelHalf(k.pm.mem, k.cr3) == k.kernelHalf && Shut(k.pm.mem, KernelFrames(k.owner), k.kernelHalf)
    ensures TablesOpen(k.pm.mem, k.cr3)
  {
    hide Frames, KernelHalf, FrameAllocator.Valid, OwnedBy, Shut, TablesOpen;
    var s := k.Model();
    CurrentProcess(s);
    var p := CurrentPid(s).value;
    assert ProcessOk(s, p);
    assert SpaceOk(s, k.pm.mem, k.owner, k.kernelHalf, p);
    NoMappedFrameIsFree(s, k.pm.mem, k.fa.out, k.owner, k.kernelHalf, p, 0);
    NewRoot(s, k.pm.mem, k.fa.out, k.owner, k.kernelHalf, p);
  }

  lemma ForkRefused(k: Kernel, s: State, m: Mem, kstack: nat)
    requires k.Valid() && InProcess(s) && k.Model() == s && k.pm.mem == m
    requires (Tables.NextPid(s).None? || Tables.NextTid(s).None?)
    ensures ForkStep(s, None, kstack) == s
    ensures ForkMemory(s, m, k.fa.out, k.fa.all, m, None) && ForkOwners(s, k.owner, k.fa.out, None, k.fa.out, k.owner)
  {}

  /** A fork that failed leaves behind a thread that nobody can use or give back. */
  ghost predicate LostThread(before: seq<Thread>, after: seq<Thread>, kstack: nat) {
    exists t: nat, p: nat :: t < |before| && before[t].state.Unused?
      && after == before[t := Thread(t, Some(p), Embryo, kstack)]
  }

  lemma ForkCopyFailed(s: State, kstack: nat)
    requires Inv(s) && InProcess(s) && Tables.NextPid(s).Some? && Tables.NextTid(s).Some?
    ensures ForkStep(s, None, kstack) == AllocThread(s, Tables.NextPid(s).value, Tables.NextTid(s).value, kstack)
  {}

  lemma ForkOthers(s: State, copy: Option<nat>, kstack: nat)
    requires Inv(s) && InProcess(s) && Tables.NextPid(s).Some? && Tables.NextTid(s).Some?
    ensures var (s', p) := (ForkStep(s, copy, kstack), Tables.NextPid(s).value);
      && OthersKeep(s, s', p) && !InUse(s, p)
      && InUse(s', p) == copy.Some?
      && (copy.Some? ==>
            && TableOf(s', p) == copy.value
            && s'.procs[p].value.heapSize == s.procs[CurrentPid(s).value].value.heapSize)
  {}

  /** The child of the process that forks: alive, not marked, with its parent's break and the copied page table. */
  predicate ChildOf(s: State, c: Process, pid: nat, table: nat) {
    && CurrentPid(s).Some? && InUse(s, CurrentPid(s).value)
    && c.pid == pid && c.ppid == CurrentPid(s) && c.state.Alive? && !c.killed && c.exitStatus == 0
    && c.heapSize == s.procs[CurrentPid(s).value].value.heapSize && c.pageTable == Some(table)
  }

  /** Its one thread has a slot that was unused, and can run. */
  ghost predicate HasThread(c: Process, before: seq<Thread>, after: seq<Thread>, kstack: nat) {
    exists t: nat :: t < |before| && before[t].state.Unused? && c.threads == OneThread(t) && c.nthread == 1
      && after == before[t := Thread(t, Some(c.pid), Runnable, kstack)]
  }

  lemma ForkedChild(s: State, table: nat, kstack: nat)
    requires Inv(s) && InProcess(s) && Tables.NextPid(s).Some? && Tables.NextTid(s).Some?
    ensures var (s', p) := (ForkStep(s, Some(table), kstack), Tables.NextPid(s).value);
      && p < |s.procs| && s.procs[p].None? && |s'.procs| == |s.procs| && s'.procs[p].Some?
      && ChildOf(s, s'.procs[p].value, p, table) && HasThread(s'.procs[p].value, s.threads, s'.threads, kstack)
      && s'.procs == s.procs[p := s'.procs[p]]
  {
    CurrentProcess(s);
    var t := Tables.NextTid(s).value;
    assert t < |s.threads| && s.threads[t].state.Unused?;
  }

  /** The process that ran is a zombie with this status, its thread with it, and nobody else has changed. */
  predicate Dead(s: State, s': State, status: int) {
    var p := if CurrentPid(s).Some? then CurrentPid(s).value else 0;
    var t := if s.current.Some? then s.current.value else 0;
    && p < |s.procs| && s.procs[p].Some? && t < |s.threads|
    && s'.procs == s.procs[p := Some(s.procs[p].value.(state := ProcessState.Zombie, exitStatus := status))]
    && s'.threads == s.threads[t := s.threads[t].(state := ThreadState.Zombie)]
    && s'.control.Scheduling? && s'.cr3 == s'.kernelTable
  }

  lemma KilledNow(s: State, pid: nat)
    requires Inv(s)
    ensures var (s', found) := KillStep(s, pid);
      && (found <==> pid < NPROCESS - 1 && InUse(s, pid))
      && s'.procs == if found then s.procs[pid := Some(s.procs[pid].value.(killed := true))] else s.procs
  {
    KillTarget(s, pid);
  }

  /** Init is the only process: alive, not marked, without a parent, with this page table and this break; besides
    * its thread only the input thread can run. */
  predicate IsInit(s: State, table: nat, size: nat) {
    && |s.procs| == NPROCESS && |s.threads| == NTHREAD && (forall p | 0 < p < NPROCESS :: s.procs[p].None?)
    && s.procs[0] == Some(Process(0, None, Alive, OneThread(1), 1, Some(table), 0, false, size))
    && (forall t | 0 <= t < NTHREAD :: s.threads[t].state.Runnable? <==> t < 2)
    && s.threads[0].pid == None && s.threads[1].pid == Some(0)
    && s.current == None && s.control.Scheduling?
  }

  lemma InitBooted(kernelTable: nat, init: ExecImage, kstack0: nat, kstack1: nat)
    ensures IsInit(Boot(kernelTable, init.pageTable, init.heapSize, kstack0, kstack1), init.pageTable, init.heapSize)
  {}

  lemma DeadNow(s: State, s': State, status: int)
    requires Inv(s) && InProcess(s) && s' == ExitStep(s, status)
    ensures Dead(s, s', status)
  {
    CurrentProcess(s);
  }

  lemma ForkState(s: State, s': State, table: nat, kstack: nat)
    requires Inv(s) && InProcess(s) && Tables.NextPid(s).Some? && Tables.NextTid(s).Some?
    requires var (p, t, parent) :=
      (Tables.NextPid(s).value, Tables.NextTid(s).value, s.procs[CurrentPid(s).value].value);
      var a := AllocThread(s, p, t, kstack);
      s' == a.(procs := s.procs[p := Some(NewProcess(p, Some(parent.pid), t, table, parent.heapSize))],
               threads := a.threads[t := a.threads[t].(state := Runnable)], log := s.log + [Forked(parent.pid, p)])
    ensures s' == ForkStep(s, Some(table), kstack)
  {}

  /** The root of a tree made of frames that were free is no process's table yet. */
  lemma FreshRoot(s: State, m: Mem, out: set<nat>, owner: map<nat, Owner>, m': Mem, out': set<nat>,
                  kernel: seq<Entry>, table: nat)
    requires Ledger(s, m, out, owner, kernel)
    requires Frames(m', table, 4) == out' - out
    ensures NewTable(s, table)
  {
    hide Frames, Tree, KernelHalf, SpaceOk, Shut;
    RootInFrames(m', table, 4);
    forall q: nat | q < |s.procs| && InUse(s, q) ensures s.procs[q].value.pageTable != Some(table) {
      NewRoot(s, m, out, owner, kernel, q);
    }
  }

  lemma ForkLedger(s: State, m: Mem, out: set<nat>, owner: map<nat, Owner>, m': Mem, out': set<nat>,
                   kernel: seq<Entry>, copy: Option<nat>, kstack: nat)
    requires Inv(s) && InProcess(s) && Tables.NextPid(s).Some? && Tables.NextTid(s).Some?
    requires Ledger(s, m, out, owner, kernel) && out <= out' && Agree(m, m', out)
    requires s.procs[CurrentPid(s).value].value.heapSize <= USER_TOP
    requires copy.Some? ==>
      && Tree(m', copy.value, 4) && Frames(m', copy.value, 4) == out' - out && KernelHalf(m', copy.value) == kernel
      && TablesOpen(m', copy.value)
    ensures var owner' := Reowned(owner, out', Tables.NextPid(s).value, if copy.Some? then out' - out else {});
      Ledger(ForkStep(s, copy, kstack), m', out', owner', kernel) && ForkOwners(s, owner, out, copy, out', owner')
  {
    hide Inv, Ledger, Tree, Frames, KernelHalf, ForkStep, OthersKeep, Reowned, OwnedBy, LostFrames, Agree, ForkOwners,
      FirstFree, FirstUnused, TablesOpen;
    var p := Tables.NextPid(s).value;
    var mine := if copy.Some? then out' - out else {};
    ForkOthers(s, copy, kstack);
    NothingOwned(s, m, out, owner, kernel, p);
    assert out - OwnedBy(owner, p) == out;
    LedgerStep(s, m, out, owner, kernel, ForkStep(s, copy, kstack), m', out', p, mine);
    ForkLost(s, owner, out, copy, out');
  }

  lemma ForkLost(s: State, owner: map<nat, Owner>, out: set<nat>, copy: Option<nat>, out': set<nat>)
    requires Sizes(s) && Tables.NextPid(s).Some? && Tables.NextTid(s).Some?
    requires owner.Keys == out && out <= out' && OwnedBy(owner, Tables.NextPid(s).value) == {}
    ensures ForkOwners(s, owner, out, copy, out',
      Reowned(owner, out', Tables.NextPid(s).value, if copy.Some? then out' - out else {}))
  {
    hide OwnedBy, LostFrames, Reowned;
    ReownedOwners(owner, out', Tables.NextPid(s).value, if copy.Some? then out' - out else {});
  }

  lemma ScheduledState(s: State, s': State, next: nat)
    requires Sizes(s) && (s.current.Some? ==> s.current.value < NTHREAD) && FindNext(s.threads, s.current) == Some(next)
    requires s' ==
      s.(threads := Picked(s.threads, s.current, next), current := Some(next), cr3 := s'.cr3, control := ThreadCode)
    requires s'.cr3 == TableFor(s', next)
    ensures s' == ScheduleStep(s)
  {}

  lemma IsValid(k: Kernel)
    requires k.processTable.Length == NPROCESS && k.threadTable.Length == NTHREAD
    requires k.fa.Valid()
    requires Inv(k.Model()) && Ledger(k.Model(), k.pm.mem, k.fa.out, k.owner, k.kernelHalf)
    ensures k.Valid()
  {}

  lemma BootTables(procs: seq<Option<Process>>, threads: seq<Thread>, kernelTable: nat, init: ExecImage, kstack0: nat,
                   kstack1: nat)
    requires |procs| == NPROCESS && |threads| == NTHREAD
    requires procs[0] == Some(NewProcess(0, None, 1, init.pageTable, init.heapSize))
    requires forall i | 0 < i < NPROCESS :: procs[i] == None
    requires threads[0] == Thread(0, None, Runnable, kstack0) && threads[1] == Thread(1, Some(0), Runnable, kstack1)
    requires forall i | 1 < i < NTHREAD :: threads[i] == FREE_THREAD
    ensures State(procs, threads, None, kernelTable, kernelTable, Scheduling, []) ==
      Boot(kernelTable, init.pageTable, init.heapSize, kstack0, kstack1)
  {}

  lemma BootLedger(m: Mem, fa: FrameAllocator, before: set<nat>, kernelTable: nat, init: ExecImage, kstack0: nat,
                   kstack1: nat)
    requires fa.Valid() && kernelTable in before && before <= fa.out && init.heapSize <= USER_TOP
    requires Shut(m, before, KernelHalf(m, init.pageTable))
    requires Tree(m, init.pageTable, 4) && Frames(m, init.pageTable, 4) == fa.out - before
    requires TablesOpen(m, init.pageTable)
    ensures var owner := Reowned(map f | f in before :: Kernels, fa.out, 0, fa.out - before);
      && Inv(Boot(kernelTable, init.pageTable, init.heapSize, kstack0, kstack1))
      && Ledger(Boot(kernelTable, init.pageTable, init.heapSize, kstack0, kstack1), m, fa.out, owner,
                KernelHalf(m, init.pageTable))
      && OwnedBy(owner, 0) == fa.out - before && KernelFrames(owner) == before && LostFrames(owner) == {}
  {
    hide Tree, Frames, KernelHalf, FrameAllocator.Valid, Inv, Shut, TablesOpen;
    OutInAll(fa);
    RootInFrames(m, init.pageTable, 4);
    BootInv(kernelTable, init.pageTable, init.heapSize, kstack0, kstack1);
    var s := Boot(kernelTable, init.pageTable, init.heapSize, kstack0, kstack1);
    var owner := Reowned(map f | f in before :: Kernels, fa.out, 0, fa.out - before);
    assert KernelFrames(owner) == before;
    forall p: nat ensures SpaceOk(s, m, owner, KernelHalf(m, init.pageTable), p) {}
  }
}
