/** Runs of the whole process and thread machine: what holds in every reachable state. */
module Runs {
  import opened Basics
  import opened Processes
  import opened Tables
  import opened Scheduler

  /** One atomic step: a round of the scheduler, a timer tick, or a system call of the current process.
    * A fork or an exec carries the root of the address space that was built for it, a round of wait the mark of
    * the copy that the call works on. */
  datatype Step =
    | Schedule
    | Timer
    | Fork(copy: Option<nat>, kstack: nat)
    | Exits(status: int)
    | Wait(marked: bool)
    | Kill(pid: nat)
    | Exec(table: nat, heapSize: nat)

  ghost predicate Enabled(s: State, step: Step) {
    match step
    case Schedule => Sizes(s) && s.control.Scheduling? && (s.current.Some? ==> s.current.value < NTHREAD)
    case Timer => Sizes(s) && s.control.ThreadCode? && s.current.Some? && s.current.value < NTHREAD
    case Fork(copy, _) => InProcess(s) && (copy.Some? ==> NewTable(s, copy.value))
    case Exits(_) => InProcess(s) && CurrentPid(s) != Some(0)
    case Wait(_) => InProcess(s)
    case Kill(_) => InProcess(s)
    case Exec(table, _) => InProcess(s) && NewTable(s, table)
  }

  ghost function Apply(s: State, step: Step): State
    requires Enabled(s, step)
  {
    match step
    case Schedule => ScheduleStep(s)
    case Timer => TimerYield(s)
    case Fork(copy, kstack) => ForkStep(s, copy, kstack)
    case Exits(status) => ExitStep(s, status)
    case Wait(marked) => WaitRound(s, marked).0
    case Kill(pid) => KillStep(s, pid).0
    case Exec(table, heapSize) => ExecStep(s, table, heapSize)
  }

  /** The state in which the scheduler starts: the input thread, and init with its image. */
  function Boot(kernelTable: nat, table: nat, heapSize: nat, kstack0: nat, kstack1: nat): State {
    var procs := seq(NPROCESS, i => if i == 0 then Some(NewProcess(0, None, 1, table, heapSize)) else None);
    var threads := seq(NTHREAD, i =>
      if i == 0 then Thread(0, None, Runnable, kstack0)
      else if i == 1 then Thread(1, Some(0), Runnable, kstack1)
      else FREE_THREAD);
    State(procs, threads, None, kernelTable, kernelTable, Scheduling, [])
  }

  lemma BootInv(kernelTable: nat, table: nat, heapSize: nat, kstack0: nat, kstack1: nat)
    requires table != kernelTable
    ensures Inv(Boot(kernelTable, table, heapSize, kstack0, kstack1))
  {
    var s := Boot(kernelTable, table, heapSize, kstack0, kstack1);
    forall q: nat ensures ProcessOk(s, q) {}
    forall u: nat ensures ThreadOk(s, u) {}
  }

  lemma StepInv(s: State, step: Step)
    requires Inv(s) && Enabled(s, step)
    ensures Inv(Apply(s, step))
  {
    hide Inv;
    match step
    case Schedule => ScheduleInv(s);
    case Timer => TimerInv(s);
    case Fork(copy, kstack) => ForkInv(s, copy, kstack);
    case Exits(status) => ExitInv(s, status);
    case Wait(marked) => WaitInv(s, marked);
    case Kill(pid) => KillInv(s, pid);
    case Exec(table, heapSize) => ExecInv(s, table, heapSize);
  }

  ghost predicate StepTo(s: State, step: Step, s': State) {
    Enabled(s, step) && s' == Apply(s, step)
  }

  /** A run: states, and the steps between them. */
  ghost predicate Run(states: seq<State>, steps: seq<Step>) {
    && |states| == |steps| + 1
    && (forall i | 0 <= i < |steps| :: StepTo(states[i], steps[i], states[i + 1]))
  }

  ghost predicate FromBoot(states: seq<State>) {
    && |states| > 0
    && exists k, r, h, k0, k1 :: r != k && states[0] == Boot(k, r, h, k0, k1)
  }

  /** The invariant holds in every state of every run that starts where booting ends. */
  lemma {:induction false} RunInv(states: seq<State>, steps: seq<Step>, i: nat)
    requires Run(states, steps) && Inv(states[0]) && i <= |steps|
    ensures Inv(states[i])
  {
    hide Inv;
    if i > 0 {
      RunInv(states, steps, i - 1);
      assert StepTo(states[i - 1], steps[i - 1], states[i]);
      StepInv(states[i - 1], steps[i - 1]);
    }
  }

  /** While thread code runs, the current thread is Running and no other thread is. */
  lemma OneRunning(states: seq<State>, steps: seq<Step>, i: nat, t: nat)
    requires Run(states, steps) && FromBoot(states) && i <= |steps| && t < NTHREAD
    ensures |states[i].threads| == NTHREAD
    ensures states[i].control.ThreadCode? ==> (states[i].threads[t].state.Running? <==> states[i].current == Some(t))
    ensures states[i].control.Scheduling? && states[i].threads[t].state.Running? ==> states[i].current == Some(t)
  {
    BootStateInv(states[0]);
    RunInv(states, steps, i);
  }

  lemma BootStateInv(s: State)
    requires FromBoot([s])
    ensures Inv(s)
  {
    var k, r, h, k0, k1 :| r != k && [s][0] == Boot(k, r, h, k0, k1);
    BootInv(k, r, h, k0, k1);
  }

  /** Every scheduler round of a run switches to a thread other than the one it just left. */
  lemma AlwaysSwitches(states: seq<State>, steps: seq<Step>, i: nat)
    requires Run(states, steps) && FromBoot(states) && i < |steps| && steps[i] == Schedule
    ensures states[i + 1].current.Some? && states[i + 1].current != states[i].current
    ensures states[i + 1].control.ThreadCode?
  {
    BootStateInv(states[0]);
    RunInv(states, steps, i);
    assert StepTo(states[i], steps[i], states[i + 1]);
    PickOther(states[i]);
  }

  // ---- What one step can do to a thread that waits, and to a dead one

  lemma RunnableFacts(s: State)
    requires Inv(s)
    ensures Sizes(s) && (s.current.Some? ==> s.current.value < NTHREAD)
  {}

  lemma RunningFacts(s: State)
    requires Inv(s) && s.control.ThreadCode?
    ensures Sizes(s) && s.current.Some? && s.current.value < NTHREAD && s.threads[s.current.value].state.Running?
  {}

  /** Reaping clears one dead thread and leaves all others alone. */
  lemma WaitKeeps(s: State, killed: bool, t: nat)
    requires Inv(s) && InProcess(s) && t < NTHREAD
    ensures var s' := WaitRound(s, killed).0;
      && |s'.threads| == NTHREAD && s'.current == s.current
      && (s'.control.ThreadCode? ==> s'.control == s.control)
      && (s'.threads[t] == s.threads[t] || (s.threads[t].state.Zombie? && s'.threads[t] == FREE_THREAD))
  {
    var c := ZombieChild(s.procs, s.procs[CurrentPid(s).value].value.pid, 0, NPROCESS - 1);
    if c.Some? {
      assert ProcessOk(s, c.value);
    }
  }

  lemma RunnableStep(s: State, step: Step, t: nat)
    requires Inv(s) && Enabled(s, step) && t < NTHREAD && s.threads[t].state.Runnable?
    ensures var s' := Apply(s, step);
      && |s'.threads| == NTHREAD
      && (step != Schedule ==> s'.current == s.current && s'.threads[t].state.Runnable?)
      && (step == Schedule ==>
            && s'.current == FindNext(s.threads, s.current)
            && (s'.current != Some(t) ==> s'.threads[t].state.Runnable?))
  {
    hide Inv, FindFrom, FirstFree, FirstUnused;
    match step
    case Schedule => RunnableFacts(s); PickComesCloser(s.threads, s.current, t);
    case Exits(status) => CurrentProcess(s); RunningFacts(s);
    case Wait(marked) => WaitKeeps(s, marked, t);
    case Timer => RunningFacts(s);
    case Fork(copy, kstack) => RunningFacts(s);
    case Kill(pid) => RunnableFacts(s);
    case Exec(table, heapSize) => RunnableFacts(s);
  }

  /** A dead thread is never run: it stays a zombie until its slot is cleared. */
  lemma ZombieStep(s: State, step: Step, t: nat)
    requires Inv(s) && Enabled(s, step) && t < NTHREAD && s.threads[t].state.Zombie?
    ensures var s' := Apply(s, step);
      && |s'.threads| == NTHREAD
      && (s'.threads[t].state.Zombie? || s'.threads[t] == FREE_THREAD)
      && (s'.control.ThreadCode? ==> s'.current != Some(t))
  {
    hide Inv, FirstFree, FirstUnused;
    RunnableFacts(s);
    if s.control.ThreadCode? {
      RunningFacts(s);
    }
    match step
    case Exits(status) => CurrentProcess(s);
    case Wait(marked) => WaitKeeps(s, marked, t);
    case _ =>
  }

  // ---- Bounded waiting over runs

  function Picks(steps: seq<Step>, i: nat, j: nat): nat
    requires i <= j <= |steps|
  {
    if i == j then 0 else Picks(steps, i, j - 1) + if steps[j - 1] == Schedule then 1 else 0
  }

  ghost predicate NeverPicked(states: seq<State>, steps: seq<Step>, i: nat, j: nat, t: nat)
    requires |states| == |steps| + 1 && j <= |steps|
  {
    forall k | i <= k < j && steps[k] == Schedule :: states[k + 1].current != Some(t)
  }

  lemma {:induction false} WaitsCloser(states: seq<State>, steps: seq<Step>, i: nat, j: nat, t: nat)
    requires Run(states, steps) && Inv(states[0]) && i <= j <= |steps| && t < NTHREAD
    requires Inv(states[i]) && states[i].threads[t].state.Runnable? && NeverPicked(states, steps, i, j, t)
    ensures Inv(states[j]) && states[j].threads[t].state.Runnable?
    ensures Picks(steps, i, j) + Distance(ScanStart(states[j].current, NTHREAD), t, NTHREAD)
         <= Distance(ScanStart(states[i].current, NTHREAD), t, NTHREAD)
    decreases j - i
  {
    hide ProcessOk, ThreadOk, TablesDistinct, Immortals;
    if i < j {
      WaitsCloser(states, steps, i, j - 1, t);
      var s := states[j - 1];
      assert StepTo(s, steps[j - 1], states[j]);
      StepInv(s, steps[j - 1]);
      RunnableStep(s, steps[j - 1], t);
      if steps[j - 1] == Schedule {
        PickComesCloser(s.threads, s.current, t);
      }
    }
  }

  /** Bounded waiting: a thread that can run stays runnable until it is picked, and fewer than NTHREAD
    * picks go to others before that. */
  lemma BoundedWaiting(states: seq<State>, steps: seq<Step>, i: nat, j: nat, t: nat)
    requires Run(states, steps) && FromBoot(states) && i <= j <= |steps| && t < NTHREAD
    requires |states[i].threads| == NTHREAD && states[i].threads[t].state.Runnable?
    requires NeverPicked(states, steps, i, j, t)
    ensures |states[j].threads| == NTHREAD && states[j].threads[t].state.Runnable?
    ensures Picks(steps, i, j) < NTHREAD
  {
    BootStateInv(states[0]);
    RunInv(states, steps, i);
    WaitsCloser(states, steps, i, j, t);
  }

  /** A thread that gave up the CPU, whether a tick took it away or it waits in a system call, runs again after fewer
    * than 64 picks of others, unless it is dead. */
  lemma RunsAgain(states: seq<State>, steps: seq<Step>, i: nat, j: nat, t: nat)
    requires Run(states, steps) && FromBoot(states) && i <= j <= |steps| && t < NTHREAD
    requires |states[i].threads| == NTHREAD && Ready(states[i].threads[t])
    requires states[i].control.Scheduling? && states[i].current == Some(t) && NeverPicked(states, steps, i, j, t)
    ensures |states[j].threads| == NTHREAD && Ready(states[j].threads[t])
    ensures Picks(steps, i, j) < 64
  {
    hide ProcessOk, ThreadOk, TablesDistinct, Immortals;
    BootStateInv(states[0]);
    RunInv(states, steps, i);
    if i < j {
      assert StepTo(states[i], steps[i], states[i + 1]);
      StepInv(states[i], steps[i]);
      LeftRunnable(states[i], t);
      WaitsCloser(states, steps, i + 1, j, t);
      PicksSplit(steps, i, i + 1, j);
    }
  }

  lemma LeftRunnable(s: State, t: nat)
    requires Inv(s) && s.control.Scheduling? && s.current == Some(t) && t < NTHREAD && Ready(s.threads[t])
    ensures var s' := ScheduleStep(s);
      && s'.current.Some? && s'.current.value < NTHREAD && |s'.threads| == NTHREAD && s'.current != Some(t)
      && s'.threads[t].state.Runnable? && Distance(s'.current.value, t, NTHREAD) < NTHREAD
  {
    PickOther(s);
  }

  lemma {:induction false} PicksSplit(steps: seq<Step>, i: nat, k: nat, j: nat)
    requires i <= k <= j <= |steps|
    ensures Picks(steps, i, j) == Picks(steps, i, k) + Picks(steps, k, j)
    decreases j
  {
    if k < j {
      PicksSplit(steps, i, k, j - 1);
    }
  }

  /** A dead thread is never picked again until its slot is cleared: as long as it is a zombie or was just
    * cleared, every pick of the run goes to others. */
  lemma {:induction false} ZombieNeverRuns(states: seq<State>, steps: seq<Step>, i: nat, j: nat, t: nat)
    requires Run(states, steps) && FromBoot(states) && i <= j <= |steps| && t < NTHREAD
    requires |states[i].threads| == NTHREAD && states[i].threads[t].state.Zombie?
    requires forall k | i < k < j && |states[k].threads| == NTHREAD :: states[k].threads[t] != FREE_THREAD
    ensures |states[j].threads| == NTHREAD
    ensures states[j].threads[t].state.Zombie? || (i < j && states[j].threads[t] == FREE_THREAD)
    ensures NeverPicked(states, steps, i, j, t)
    ensures i < j && states[j].control.ThreadCode? ==> states[j].current != Some(t)
    decreases j - i
  {
    hide Inv, StepTo;
    BootStateInv(states[0]);
    if i < j {
      ZombieNeverRuns(states, steps, i, j - 1, t);
      RunInv(states, steps, j - 1);
      assert StepTo(states[j - 1], steps[j - 1], states[j]);
      StepEnabled(states[j - 1], steps[j - 1], states[j]);
      ZombieStep(states[j - 1], steps[j - 1], t);
      PickStep(states, steps, i, j, t);
    }
  }

  lemma StepEnabled(s: State, step: Step, s': State)
    requires StepTo(s, step, s')
    ensures Enabled(s, step) && s' == Apply(s, step)
  {}

  lemma PickStep(states: seq<State>, steps: seq<Step>, i: nat, j: nat, t: nat)
    requires |states| == |steps| + 1 && i < j <= |steps| && NeverPicked(states, steps, i, j - 1, t)
    requires Inv(states[j - 1]) && StepTo(states[j - 1], steps[j - 1], states[j])
    requires states[j].control.ThreadCode? ==> states[j].current != Some(t)
    ensures NeverPicked(states, steps, i, j, t)
  {
    if steps[j - 1] == Schedule {
      ScheduleInv(states[j - 1]);
    }
  }
}
