/** What the steps of a run do to the record of a process, field by field. */
module Records {
  import opened Basics
  import opened Processes
  import opened Tables
  import opened Scheduler
  import opened Runs
  import opened Histories

  predicate Exiting(s: State, step: Step, p: nat) {
    step.Exits? && CurrentPid(s) == Some(p)
  }

  predicate Execing(s: State, step: Step, p: nat) {
    step.Exec? && CurrentPid(s) == Some(p)
  }

  /** A process that was there and still is: every field changes only in the step that is meant to change it. */
  predicate Kept(s: State, step: Step, p: nat, a: Process, b: Process) {
    && b.pid == a.pid && b.ppid == a.ppid && b.threads == a.threads && b.nthread == a.nthread
    && (b.killed <==> a.killed || step == Kill(p))
    && (b.state.Zombie? <==> a.state.Zombie? || Exiting(s, step, p))
    && b.exitStatus == (if Exiting(s, step, p) then step.status else a.exitStatus)
    && b.heapSize == (if Execing(s, step, p) then step.heapSize else a.heapSize)
    && b.pageTable == (if Execing(s, step, p) then Some(step.table) else a.pageTable)
  }

  /** A process that was not there is the child of the one that forked: alive, not marked, with its parent's break,
    * in the address space that was copied for it. */
  predicate Born(s: State, step: Step, b: Process) {
    && step.Fork? && step.copy.Some? && CurrentPid(s).Some? && InUse(s, CurrentPid(s).value)
    && b.ppid == CurrentPid(s) && b.state.Alive? && !b.killed && b.exitStatus == 0
    && b.heapSize == s.procs[CurrentPid(s).value].value.heapSize && b.pageTable == step.copy
  }

  ghost predicate RecordStep(s: State, step: Step, s': State, p: nat)
    requires p < |s.procs| && p < |s'.procs|
  {
    && (InUse(s, p) && InUse(s', p) ==> Kept(s, step, p, s.procs[p].value, s'.procs[p].value))
    && (!InUse(s, p) && InUse(s', p) ==> Born(s, step, s'.procs[p].value))
    && (InUse(s, p) && !InUse(s', p) ==>
          && InProcess(s) && step.Wait? && s.procs[p].value.state.Zombie? && s.procs[p].value.ppid == CurrentPid(s)
          && WaitRound(s, step.marked).1 == Child(p, s.procs[p].value.exitStatus))
  }

  lemma ForkRecord(s: State, copy: Option<nat>, kstack: nat, p: nat)
    requires Inv(s) && InProcess(s) && p < NPROCESS - 1
    ensures Sizes(ForkStep(s, copy, kstack)) && RecordStep(s, Fork(copy, kstack), ForkStep(s, copy, kstack), p)
  {
    hide ProcessOk, ThreadOk, TablesDistinct, Immortals, ControlOk, FirstFree, FirstUnused;
    CurrentProcess(s);
  }

  lemma ExitRecord(s: State, status: int, p: nat)
    requires Inv(s) && InProcess(s) && p < NPROCESS - 1
    ensures Sizes(ExitStep(s, status)) && RecordStep(s, Exits(status), ExitStep(s, status), p)
  {
    hide ProcessOk, ThreadOk, TablesDistinct, Immortals, ControlOk;
    CurrentProcess(s);
  }

  lemma KillRecord(s: State, pid: nat, p: nat)
    requires Inv(s) && p < NPROCESS - 1
    ensures Sizes(KillStep(s, pid).0) && RecordStep(s, Kill(pid), KillStep(s, pid).0, p)
  {
    hide ProcessOk, ThreadOk, TablesDistinct, Immortals, ControlOk, SlotOfPid;
    KillTarget(s, pid);
  }

  /** Every step of the machine, on the record of every process. */
  lemma StepRecord(s: State, step: Step, p: nat)
    requires Inv(s) && Enabled(s, step) && p < NPROCESS - 1
    ensures Sizes(s) && Sizes(Apply(s, step)) && RecordStep(s, step, Apply(s, step), p)
  {
    hide ProcessOk, ThreadOk, TablesDistinct, Immortals, ControlOk, FindFrom;
    StepInv(s, step);
    match step
    case Schedule =>
    case Timer =>
    case Fork(copy, kstack) => ForkRecord(s, copy, kstack, p);
    case Exits(status) => ExitRecord(s, status, p);
    case Wait(marked) => WaitRecord(s, marked, p);
    case Kill(pid) => KillRecord(s, pid, p);
    case Exec(table, heapSize) =>
  }

  /** The last slot is never used. */
  lemma LastSlot(s: State, step: Step)
    requires Inv(s) && Enabled(s, step) && s.procs[NPROCESS - 1].None?
    ensures Sizes(Apply(s, step)) && Apply(s, step).procs[NPROCESS - 1].None?
  {
    hide ProcessOk, ThreadOk, TablesDistinct, Immortals, ControlOk, FindFrom;
    StepInv(s, step);
  }

  lemma WaitRecord(s: State, marked: bool, p: nat)
    requires Inv(s) && InProcess(s) && p < NPROCESS
    ensures var (s', r) := WaitRound(s, marked);
      |s'.procs| == NPROCESS &&
      if r.Child? && p == r.pid then
        && InUse(s, p) && !InUse(s', p) && s.procs[p].value.state.Zombie? && s.procs[p].value.ppid == CurrentPid(s)
        && r.status == s.procs[p].value.exitStatus
      else s'.procs[p] == s.procs[p]
  {
    CurrentProcess(s);
    var c := ZombieChild(s.procs, s.procs[CurrentPid(s).value].value.pid, 0, NPROCESS - 1);
    if c.Some? {
      assert ProcessOk(s, c.value);
    }
  }

  // ---- Over runs

  /** One step back in a run, for a process that is there afterwards. */
  lemma RunStep(states: seq<State>, steps: seq<Step>, i: nat, p: nat)
    requires Run(states, steps) && FromBoot(states) && i < |steps| && p < NPROCESS - 1
    ensures Sizes(states[i]) && Sizes(states[i + 1]) && RecordStep(states[i], steps[i], states[i + 1], p)
    ensures Inv(states[i]) && Enabled(states[i], steps[i]) && states[i + 1] == Apply(states[i], steps[i])
  {
    hide Inv, Enabled, Apply, RecordStep;
    BootStateInv(states[0]);
    RunInv(states, steps, i);
    assert StepTo(states[i], steps[i], states[i + 1]);
    StepEnabled(states[i], steps[i], states[i + 1]);
    StepRecord(states[i], steps[i], p);
  }

  /** At the start there is init, not marked and with the break of its image, and nobody else. */
  lemma AtBoot(s: State, p: nat)
    requires FromBoot([s])
    ensures Sizes(s) && (InUse(s, p) <==> p == 0) && s.procs[NPROCESS - 1].None?
    ensures InUse(s, p) ==> s.procs[p].value.state.Alive? && s.procs[p].value.ppid == None && !s.procs[p].value.killed
  {
    var k, r, h, k0, k1 :| r != k && [s][0] == Boot(k, r, h, k0, k1);
  }

  lemma {:induction false} NeverLast(states: seq<State>, steps: seq<Step>, i: nat, p: nat)
    requires Run(states, steps) && FromBoot(states) && i <= |steps|
    ensures Sizes(states[i]) && states[i].procs[NPROCESS - 1].None? && (InUse(states[i], p) ==> p < NPROCESS - 1)
  {
    hide Inv, Enabled, Apply, RecordStep;
    AtBoot(states[0], p);
    if i > 0 {
      NeverLast(states, steps, i - 1, p);
      RunStep(states, steps, i - 1, 0);
      LastSlot(states[i - 1], steps[i - 1]);
    }
  }

  /** A step before i killed process p while it was there. */
  ghost predicate KilledBefore(states: seq<State>, steps: seq<Step>, i: nat, p: nat)
    requires |states| == |steps| + 1 && i <= |steps|
  {
    exists j: nat :: j < i && steps[j] == Kill(p) && InUse(states[j], p)
  }

  /** Over every run a process is marked exactly if it was killed: nothing else marks it, not even its birth,
    * and nothing takes the mark away. */
  lemma {:induction false} MarkedInRun(states: seq<State>, steps: seq<Step>, i: nat, p: nat)
    requires Run(states, steps) && FromBoot(states) && i <= |steps| && InUse(states[i], p)
    ensures Marked(states[i], p) <==> KilledBefore(states, steps, i, p)
    decreases i
  {
    hide Inv, Enabled, Apply;
    NeverLast(states, steps, i, p);
    if i == 0 {
      AtBoot(states[0], p);
    } else {
      RunStep(states, steps, i - 1, p);
      if InUse(states[i - 1], p) {
        MarkedInRun(states, steps, i - 1, p);
        if steps[i - 1] == Kill(p) {
          assert i - 1 < i && steps[i - 1] == Kill(p);
        }
      } else {
        NotBefore(states, steps, i - 1, p);
      }
    }
  }

  /** A process that is born now was never there: pids are not used again. */
  lemma {:induction false} NotBefore(states: seq<State>, steps: seq<Step>, i: nat, p: nat)
    requires Run(states, steps) && FromBoot(states) && i < |steps| && p < NPROCESS - 1
    requires !InUse(states[i], p) && InUse(states[i + 1], p)
    ensures forall j: nat | j <= i :: !InUse(states[j], p)
  {
    hide Inv, Enabled, Apply, RecordStep;
    forall j: nat | j <= i ensures !InUse(states[j], p) {
      if InUse(states[j], p) {
        ReapedBetween(states, steps, j, i, p);
        ReapedInRun(states, steps, i, i + 1, p);
      }
    }
  }

  /** A process that was there and is not has been reaped. */
  lemma {:induction false} ReapedBetween(states: seq<State>, steps: seq<Step>, j: nat, i: nat, p: nat)
    requires Run(states, steps) && FromBoot(states) && j <= i <= |steps| && p < NPROCESS - 1
    requires InUse(states[j], p) && !InUse(states[i], p)
    ensures |states[i].procs| == NPROCESS && states[i].procs[p] == Some(REAPED)
    decreases i - j
  {
    hide Enabled, Apply, RecordStep, ThreadOk, TablesDistinct, Immortals, ControlOk;
    RunStep(states, steps, i - 1, p);
    if !InUse(states[i - 1], p) {
      ReapedBetween(states, steps, j, i - 1, p);
      ReapedInRun(states, steps, i - 1, i, p);
    } else {
      StepInv(states[i - 1], steps[i - 1]);
      assert ProcessOk(states[i], p);
      SlotStays(states[i - 1], steps[i - 1], p);
    }
  }

  lemma SlotStays(s: State, step: Step, p: nat)
    requires Inv(s) && Enabled(s, step) && p < NPROCESS - 1 && InUse(s, p)
    ensures Sizes(Apply(s, step)) && Apply(s, step).procs[p].Some?
  {
    hide ProcessOk, ThreadOk, TablesDistinct, Immortals, ControlOk, FindFrom;
    StepInv(s, step);
  }

  /** The break that a run gave process p: that of its last exec, or else of its parent's when it was forked. */
  ghost function LastBreak(states: seq<State>, steps: seq<Step>, i: nat, p: nat): nat
    requires |states| == |steps| + 1 && i <= |steps|
  {
    if i == 0 then (if InUse(states[0], p) then states[0].procs[p].value.heapSize else 0)
    else if Execing(states[i - 1], steps[i - 1], p) then steps[i - 1].heapSize
    else if steps[i - 1].Fork? && !InUse(states[i - 1], p) && CurrentPid(states[i - 1]).Some? then
      LastBreak(states, steps, i - 1, CurrentPid(states[i - 1]).value)
    else LastBreak(states, steps, i - 1, p)
  }

  /** Over every run the heap size that a process has recorded is that break: no other step touches it. */
  lemma {:induction false} BreakInRun(states: seq<State>, steps: seq<Step>, i: nat, p: nat)
    requires Run(states, steps) && FromBoot(states) && i <= |steps| && InUse(states[i], p)
    ensures states[i].procs[p].value.heapSize == LastBreak(states, steps, i, p)
    decreases i
  {
    hide Inv, Enabled, Apply;
    if i > 0 {
      NeverLast(states, steps, i, p);
      RunStep(states, steps, i - 1, p);
      if InUse(states[i - 1], p) {
        BreakInRun(states, steps, i - 1, p);
      } else {
        BreakInRun(states, steps, i - 1, CurrentPid(states[i - 1]).value);
      }
    }
  }

  /** Over every run: whoever is there and is not init was forked by the process that it names as its parent. */
  lemma {:induction false} ParentInRun(states: seq<State>, steps: seq<Step>, i: nat, c: nat)
    requires Run(states, steps) && FromBoot(states) && i <= |steps| && InUse(states[i], c) && c != 0
    ensures exists j: nat :: j < i && steps[j].Fork? && !InUse(states[j], c) && InUse(states[j + 1], c)
                       && states[i].procs[c].value.ppid == CurrentPid(states[j])
    decreases i
  {
    hide Inv, Enabled, Apply;
    NeverLast(states, steps, i, c);
    if i == 0 {
      AtBoot(states[0], c);
    } else {
      RunStep(states, steps, i - 1, c);
      if InUse(states[i - 1], c) {
        ParentInRun(states, steps, i - 1, c);
      } else {
        assert i - 1 < i && steps[i - 1].Fork?;
      }
    }
  }

  /** Over every run: whoever is a zombie called exit with the status that is kept for the parent. */
  lemma {:induction false} ExitedInRun(states: seq<State>, steps: seq<Step>, i: nat, c: nat)
    requires Run(states, steps) && FromBoot(states) && i <= |steps|
    requires InUse(states[i], c) && states[i].procs[c].value.state.Zombie?
    ensures exists j: nat :: j < i && Exiting(states[j], steps[j], c)
                       && states[i].procs[c].value.exitStatus == steps[j].status
    decreases i
  {
    hide Inv, Enabled, Apply;
    NeverLast(states, steps, i, c);
    if i == 0 {
      AtBoot(states[0], c);
    } else {
      RunStep(states, steps, i - 1, c);
      if Exiting(states[i - 1], steps[i - 1], c) {
        assert i - 1 < i && Exiting(states[i - 1], steps[i - 1], c);
      } else {
        ExitedInRun(states, steps, i - 1, c);
      }
    }
  }

  /** What a wait returns, in terms of the run alone: a child that the waiting process forked, and the status that
    * the child gave to exit. */
  lemma WaitedInRun(states: seq<State>, steps: seq<Step>, i: nat, marked: bool, c: nat, status: int)
    requires Run(states, steps) && FromBoot(states) && i <= |steps| && InProcess(states[i])
    requires WaitRound(states[i], marked).1 == Child(c, status)
    ensures exists j: nat :: j < i && Exiting(states[j], steps[j], c) && steps[j].status == status
    ensures exists j: nat :: j < i && steps[j].Fork? && CurrentPid(states[j]) == CurrentPid(states[i])
                       && !InUse(states[j], c) && InUse(states[j + 1], c)
  {
    hide Enabled, Apply, WaitRound, RecordStep;
    BootStateInv(states[0]);
    RunInv(states, steps, i);
    WaitedChild(states[i], marked);
    ExitedInRun(states, steps, i, c);
    ParentInRun(states, steps, i, c);
  }

  lemma WaitedChild(s: State, marked: bool)
    requires Inv(s) && InProcess(s)
    ensures var r := WaitRound(s, marked).1;
      r.Child? ==>
        && InUse(s, r.pid) && r.pid != 0 && s.procs[r.pid].value.state.Zombie?
        && s.procs[r.pid].value.exitStatus == r.status && s.procs[r.pid].value.ppid == CurrentPid(s)
  {
    var r := WaitRound(s, marked).1;
    if r.Child? {
      var c := ZombieChild(s.procs, s.procs[CurrentPid(s).value].value.pid, 0, NPROCESS - 1);
      assert ProcessOk(s, c.value);
      CurrentProcess(s);
    }
  }

  // ---- Threads and the active page table

  ghost predicate Numbered(s: State) {
    Sizes(s) && forall t: nat | t < NTHREAD && !s.threads[t].state.Unused? :: s.threads[t].tid == t
  }

  lemma StepNumbered(s: State, step: Step)
    requires Inv(s) && Enabled(s, step) && Numbered(s)
    ensures Numbered(Apply(s, step))
  {
    hide ThreadOk, TablesDistinct, Immortals, ControlOk, FindFrom, FirstFree, FirstUnused, ZombieChild;
    StepInv(s, step);
    if s.control.ThreadCode? {
      RunningFacts(s);
    }
    if step.Exits? {
      CurrentProcess(s);
      assert ProcessOk(s, CurrentPid(s).value);
    }
  }

  /** Over every run a thread in use knows its own place in the table. */
  lemma {:induction false} ThreadIdInRun(states: seq<State>, steps: seq<Step>, i: nat)
    requires Run(states, steps) && FromBoot(states) && i <= |steps|
    ensures Numbered(states[i])
  {
    hide Inv, Enabled, Apply, RecordStep;
    if i == 0 {
      BootNumbered(states[0]);
    } else {
      ThreadIdInRun(states, steps, i - 1);
      RunStep(states, steps, i - 1, 0);
      StepNumbered(states[i - 1], steps[i - 1]);
    }
  }

  lemma BootNumbered(s: State)
    requires FromBoot([s])
    ensures Numbered(s)
  {
    var k, r, h, k0, k1 :| r != k && [s][0] == Boot(k, r, h, k0, k1);
  }

  /** Over every run the active page table is the current process's own while its code runs, and the kernel's
    * while the scheduler or a kernel thread runs. */
  lemma {:induction false} ActiveInRun(states: seq<State>, steps: seq<Step>, i: nat)
    requires Run(states, steps) && FromBoot(states) && i <= |steps|
    ensures states[i].kernelTable == states[0].kernelTable
    ensures var s := states[i];
      if s.control.ThreadCode? && CurrentPid(s).Some? then
        InUse(s, CurrentPid(s).value) && s.procs[CurrentPid(s).value].value.pageTable == Some(s.cr3)
      else s.cr3 == s.kernelTable
  {
    hide Inv, Enabled, Apply, RecordStep;
    BootStateInv(states[0]);
    RunInv(states, steps, i);
    if i > 0 {
      ActiveInRun(states, steps, i - 1);
      RunStep(states, steps, i - 1, 0);
      SameKernel(states[i - 1], steps[i - 1]);
    }
    ActiveNow(states[i]);
  }

  lemma SameKernel(s: State, step: Step)
    requires Enabled(s, step)
    ensures Apply(s, step).kernelTable == s.kernelTable
  {
    hide FindFrom, FirstFree, FirstUnused, ZombieChild, SlotOfPid;
  }

  lemma ActiveNow(s: State)
    requires Inv(s)
    ensures if s.control.ThreadCode? && CurrentPid(s).Some? then
        InUse(s, CurrentPid(s).value) && s.procs[CurrentPid(s).value].value.pageTable == Some(s.cr3)
      else s.cr3 == s.kernelTable
  {
    hide ProcessOk, ThreadOk, TablesDistinct, Immortals;
    if s.control.ThreadCode? && CurrentPid(s).Some? {
      CurrentProcess(s);
    }
  }
}
