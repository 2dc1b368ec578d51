/** The life of each process over a run: forked, then exited, then reaped by its parent, each once. */
module Histories {
  import opened Basics
  import opened Processes
  import opened Tables
  import opened Scheduler
  import opened Runs

  predicate About(e: Event, c: nat) {
    match e
    case Forked(_, child) => child == c
    case Exit(pid, _) => pid == c
    case Reaped(_, child, _) => child == c
  }

  /** What the log says about process c, in order. */
  function History(log: seq<Event>, c: nat): seq<Event> {
    if log == [] then []
    else History(log[..|log| - 1], c) + if About(log[|log| - 1], c) then [log[|log| - 1]] else []
  }

  lemma HistorySnoc(log: seq<Event>, e: Event, c: nat)
    ensures History(log + [e], c) == History(log, c) + if About(e, c) then [e] else []
  {
    assert (log + [e])[..|log + [e]| - 1] == log;
  }

  ghost predicate LifeOver(h: seq<Event>, c: nat) {
    exists q: nat, status: int :: h == [Forked(q, c), Exit(c, status), Reaped(q, c, status)]
  }

  /** The process table records for each slot how far the life of its process has come. */
  ghost predicate Told(s: State, c: nat)
    requires c < |s.procs|
  {
    var h := History(s.log, c);
    match s.procs[c]
    case None => h == []
    case Some(pr) =>
      match pr.state
      case Unused => LifeOver(h, c)
      case Alive => if c == 0 then pr.ppid == None && h == [] else pr.ppid.Some? && h == [Forked(pr.ppid.value, c)]
      case Zombie => pr.ppid.Some? && h == [Forked(pr.ppid.value, c), Exit(c, pr.exitStatus)]
  }

  ghost predicate AllTold(s: State) {
    Sizes(s) && forall c: nat | c < NPROCESS :: Told(s, c)
  }

  lemma BootTold(s: State)
    requires FromBoot([s])
    ensures AllTold(s)
  {
    var k, r, h, k0, k1 :| r != k && [s][0] == Boot(k, r, h, k0, k1);
  }

  /** Same process, apart from its address space, its heap size and its killed mark. */
  predicate SameLife(a: Option<Process>, b: Option<Process>) {
    a == b || (a.Some? && b.Some?
               && b.value == a.value.(pageTable := b.value.pageTable, heapSize := b.value.heapSize,
                    killed := b.value.killed))
  }

  lemma SameLifeTold(s: State, s': State)
    requires AllTold(s) && Sizes(s') && s'.log == s.log
    requires forall c: nat | c < NPROCESS :: SameLife(s.procs[c], s'.procs[c])
    ensures AllTold(s')
  {
    forall c: nat | c < NPROCESS ensures Told(s', c) {
      assert Told(s, c);
      var pr := s'.procs[c];
    }
  }

  lemma ForkTold(s: State, copy: Option<nat>, kstack: nat)
    requires Inv(s) && InProcess(s) && AllTold(s)
    ensures AllTold(ForkStep(s, copy, kstack))
  {
    var parent := CurrentPid(s).value;
    var s' := ForkStep(s, copy, kstack);
    assert ProcessOk(s, 0);
    if s'.log == s.log {
      SameLifeTold(s, s');
    } else {
      forall c: nat | c < NPROCESS ensures Told(s', c) {
        assert Told(s, c);
        HistorySnoc(s.log, s'.log[|s.log|], c);
      }
    }
  }

  lemma ExitTold(s: State, status: int)
    requires Inv(s) && InProcess(s) && CurrentPid(s) != Some(0) && AllTold(s)
    ensures AllTold(ExitStep(s, status))
  {
    CurrentProcess(s);
    var s' := ExitStep(s, status);
    forall c: nat | c < NPROCESS ensures Told(s', c) {
      assert Told(s, c);
      HistorySnoc(s.log, Exit(CurrentPid(s).value, status), c);
    }
  }

  lemma WaitTold(s: State, killed: bool)
    requires Inv(s) && InProcess(s) && AllTold(s)
    ensures AllTold(WaitRound(s, killed).0)
  {
    CurrentProcess(s);
    var parent := s.procs[CurrentPid(s).value].value.pid;
    var z := ZombieChild(s.procs, parent, 0, NPROCESS - 1);
    var s' := WaitRound(s, killed).0;
    if z.Some? {
      assert ProcessOk(s, z.value);
      var status := s.procs[z.value].value.exitStatus;
      forall c: nat | c < NPROCESS ensures Told(s', c) {
        assert Told(s, c);
        HistorySnoc(s.log, Reaped(parent, z.value, status), c);
        if c == z.value {
          assert History(s'.log, c) == [Forked(parent, c), Exit(c, status), Reaped(parent, c, status)];
        }
      }
    } else {
      SameLifeTold(s, s');
    }
  }

  lemma StepTold(s: State, step: Step)
    requires Inv(s) && Enabled(s, step) && AllTold(s)
    ensures AllTold(Apply(s, step))
  {
    match step
    case Fork(copy, kstack) => ForkTold(s, copy, kstack);
    case Exits(status) => ExitTold(s, status);
    case Wait(marked) => WaitTold(s, marked);
    case Exec(table, heapSize) => SameLifeTold(s, Apply(s, step));
    case Kill(pid) => SameLifeTold(s, Apply(s, step));
    case Timer => SameLifeTold(s, Apply(s, step));
    case Schedule => SameLifeTold(s, Apply(s, step));
  }

  lemma {:induction false} RunTold(states: seq<State>, steps: seq<Step>, i: nat)
    requires Run(states, steps) && FromBoot(states) && i <= |steps|
    ensures Inv(states[i]) && AllTold(states[i])
    decreases i
  {
    hide Inv, AllTold;
    BootStateInv(states[0]);
    RunInv(states, steps, i);
    if i == 0 {
      BootTold(states[0]);
    } else {
      RunTold(states, steps, i - 1);
      assert StepTo(states[i - 1], steps[i - 1], states[i]);
      StepTold(states[i - 1], steps[i - 1]);
    }
  }

  /** Over every run, the life of a process is a beginning of: forked by q, exited with a status, reaped by
    * q with that status.  So no child is reaped twice, by a stranger, before it exits, or with a wrong status. */
  lemma OneLife(states: seq<State>, steps: seq<Step>, i: nat, c: nat)
    requires Run(states, steps) && FromBoot(states) && i <= |steps| && c < NPROCESS
    ensures exists q: nat, status: int ::
      History(states[i].log, c) <= [Forked(q, c), Exit(c, status), Reaped(q, c, status)]
  {
    RunTold(states, steps, i);
    var s := states[i];
    var h := History(s.log, c);
    assert Told(s, c);
    if LifeOver(h, c) {
      var q, status :| h == [Forked(q, c), Exit(c, status), Reaped(q, c, status)];
    } else {
      var q := if s.procs[c].Some? && s.procs[c].value.ppid.Some? then s.procs[c].value.ppid.value else 0;
      var status := if s.procs[c].Some? then s.procs[c].value.exitStatus else 0;
      assert h <= [Forked(q, c), Exit(c, status), Reaped(q, c, status)];
    }
  }

  /** What wait returns, in any reachable state: a child that this very process forked and that has exited
    * with this very status and was not reaped before; or an error exactly when it has no child left. */
  lemma WaitResultOk(states: seq<State>, steps: seq<Step>, i: nat, killed: bool)
    requires Run(states, steps) && FromBoot(states) && i <= |steps| && InProcess(states[i])
    ensures var (s, pid) := (states[i], CurrentPid(states[i]).value);
      match WaitRound(s, killed).1
      case Child(c, status) =>
        && History(s.log, c) == [Forked(pid, c), Exit(c, status)]
        && WaitRound(s, killed).0.log == s.log + [Reaped(pid, c, status)]
      case NoChild => forall c: nat :: !(c < NPROCESS - 1 && IsChild(s.procs, c, pid))
      case WasKilled => killed && exists c: nat :: IsChild(s.procs, c, pid) && s.procs[c].value.state.Alive?
      case Waiting => !killed && exists c: nat :: IsChild(s.procs, c, pid) && s.procs[c].value.state.Alive?
  {
    RunTold(states, steps, i);
    var s := states[i];
    CurrentProcess(s);
    var parent := CurrentPid(s).value;
    var z := ZombieChild(s.procs, parent, 0, NPROCESS - 1);
    if z.Some? {
      assert ProcessOk(s, z.value) && Told(s, z.value);
    } else if c: nat :| c < NPROCESS - 1 && IsChild(s.procs, c, parent) {
      assert ProcessOk(s, c);
    }
  }

  predicate Marked(s: State, p: nat) {
    InUse(s, p) && s.procs[p].value.killed
  }

  /** The rounds of one call of wait by process p.  The call begins after the check that lets a marked process
    * exit, and all its rounds go by the copy of the process that was made then. */
  ghost predicate WaitCall(states: seq<State>, steps: seq<Step>, rounds: seq<nat>, p: nat)
    requires |states| == |steps| + 1
  {
    && |rounds| > 0 && rounds[0] < |steps| && !Marked(states[rounds[0]], p)
    && forall k | 0 <= k < |rounds| ::
         && rounds[0] <= rounds[k] < |steps| && CurrentPid(states[rounds[k]]) == Some(p)
         && steps[rounds[k]] == Wait(Marked(states[rounds[0]], p))
  }

  /** The mark of kill never ends a wait: over every run, whether or not the waiting process is marked by now,
    * a round ends in another wait exactly as long as it has a child that is alive and none that has exited. */
  lemma KilledWaiterWaits(states: seq<State>, steps: seq<Step>, rounds: seq<nat>, p: nat, k: nat)
    requires Run(states, steps) && FromBoot(states) && WaitCall(states, steps, rounds, p) && k < |rounds|
    ensures InProcess(states[rounds[k]])
    ensures var (s, mark) := (states[rounds[k]], steps[rounds[k]].marked);
      && WaitRound(s, mark).1 != WasKilled
      && (WaitRound(s, mark).1 == Waiting <==>
            && (exists c: nat :: c < NPROCESS - 1 && IsChild(s.procs, c, p) && s.procs[c].value.state.Alive?)
            && (forall c: nat | c < NPROCESS - 1 && IsChild(s.procs, c, p) :: !s.procs[c].value.state.Zombie?))
  {
    assert StepTo(states[rounds[k]], steps[rounds[k]], states[rounds[k] + 1]);
    WaitResultOk(states, steps, rounds[k], false);
    RunTold(states, steps, rounds[k]);
    var s := states[rounds[k]];
    CurrentProcess(s);
    if c: nat :| c < NPROCESS - 1 && IsChild(s.procs, c, p) {
      assert ProcessOk(s, c);
    }
  }

  /** free_process never takes an error exit: the child's thread is its own and in range, and its address
    * space is not the active one. */
  lemma ReapIsSafe(states: seq<State>, steps: seq<Step>, i: nat, c: nat)
    requires Run(states, steps) && FromBoot(states) && i <= |steps| && InProcess(states[i])
    requires c < NPROCESS && InUse(states[i], c) && states[i].procs[c].value.state.Zombie?
    ensures var (s, pr) := (states[i], states[i].procs[c].value);
      && pr.pid == c && ThreadOf(s, c) < NTHREAD && s.threads[ThreadOf(s, c)].pid == Some(c)
      && pr.pageTable.Some? && pr.pageTable.value != s.cr3
  {
    RunTold(states, steps, i);
    CurrentProcess(states[i]);
    assert ProcessOk(states[i], c);
  }

  /** A pid is never used again: a reaped slot is not None, and next_pid looks for None. */
  lemma ReapedForGood(s: State, step: Step, c: nat)
    requires Inv(s) && Enabled(s, step) && c < NPROCESS && s.procs[c] == Some(REAPED)
    ensures |Apply(s, step).procs| == NPROCESS && Apply(s, step).procs[c] == Some(REAPED)
  {
    CurrentOk(s);
    match step
    case Kill(pid) => KillTarget(s, pid);
    case Exits(status) => CurrentProcess(s);
    case _ =>
  }

  /** Over every run: once reaped, a slot stays reaped. */
  lemma {:induction false} ReapedInRun(states: seq<State>, steps: seq<Step>, i: nat, j: nat, c: nat)
    requires Run(states, steps) && FromBoot(states) && i <= j <= |steps| && c < NPROCESS
    requires |states[i].procs| == NPROCESS && states[i].procs[c] == Some(REAPED)
    ensures |states[j].procs| == NPROCESS && states[j].procs[c] == Some(REAPED)
    decreases j - i
  {
    hide Inv, StepTo;
    if i < j {
      ReapedInRun(states, steps, i, j - 1, c);
      BootStateInv(states[0]);
      RunInv(states, steps, j - 1);
      assert StepTo(states[j - 1], steps[j - 1], states[j]);
      StepEnabled(states[j - 1], steps[j - 1], states[j]);
      ReapedForGood(states[j - 1], steps[j - 1], c);
    }
  }

  // ---- How many forks a run can hold

  function Forks(log: seq<Event>): nat {
    if log == [] then 0 else Forks(log[..|log| - 1]) + if log[|log| - 1].Forked? then 1 else 0
  }

  /** Slots below n that were never used. */
  function NeverUsed(procs: seq<Option<Process>>, n: nat): nat
    requires n <= |procs|
  {
    if n == 0 then 0 else NeverUsed(procs, n - 1) + if procs[n - 1].None? then 1 else 0
  }

  lemma {:induction false} NeverUsedUpdate(procs: seq<Option<Process>>, n: nat, p: nat, pr: Process)
    requires n <= |procs| && p < |procs|
    ensures NeverUsed(procs[p := Some(pr)], n) + (if p < n && procs[p].None? then 1 else 0) == NeverUsed(procs, n)
    decreases n
  {
    if n > 0 {
      NeverUsedUpdate(procs, n - 1, p, pr);
    }
  }

  lemma ForksSnoc(log: seq<Event>, e: Event)
    ensures Forks(log + [e]) == Forks(log) + if e.Forked? then 1 else 0
  {
    assert (log + [e])[..|log + [e]| - 1] == log;
  }

  /** Forks done, and slots left for more. */
  ghost function SlotBudget(s: State): nat
    requires Sizes(s)
  {
    Forks(s.log) + NeverUsed(s.procs, NPROCESS - 1)
  }

  lemma ForkUses(s: State, copy: Option<nat>, kstack: nat)
    requires Inv(s) && InProcess(s)
    ensures Sizes(ForkStep(s, copy, kstack)) && SlotBudget(ForkStep(s, copy, kstack)) == SlotBudget(s)
  {
    hide Inv, NeverUsed, Forks, FirstFree, FirstUnused;
    var s' := ForkStep(s, copy, kstack);
    if NextPid(s).Some? && NextTid(s).Some? && copy.Some? {
      var p := NextPid(s).value;
      NeverUsedUpdate(s.procs, NPROCESS - 1, p, s'.procs[p].value);
      ForksSnoc(s.log, s'.log[|s.log|]);
    }
  }

  lemma WaitUses(s: State, killed: bool)
    requires Inv(s) && InProcess(s)
    ensures Sizes(WaitRound(s, killed).0) && SlotBudget(WaitRound(s, killed).0) == SlotBudget(s)
  {
    hide Inv, NeverUsed, Forks, ZombieChild;
    var s' := WaitRound(s, killed).0;
    var z := ZombieChild(s.procs, s.procs[CurrentPid(s).value].value.pid, 0, NPROCESS - 1);
    if z.Some? {
      NeverUsedUpdate(s.procs, NPROCESS - 1, z.value, REAPED);
      ForksSnoc(s.log, s'.log[|s.log|]);
    }
  }

  lemma ExitUses(s: State, status: int)
    requires Inv(s) && InProcess(s)
    ensures Sizes(ExitStep(s, status)) && SlotBudget(ExitStep(s, status)) == SlotBudget(s)
  {
    hide Inv, NeverUsed, Forks;
    var p := CurrentPid(s).value;
    NeverUsedUpdate(s.procs, NPROCESS - 1, p, ExitStep(s, status).procs[p].value);
    ForksSnoc(s.log, Exit(p, status));
  }

  lemma KillUses(s: State, pid: nat)
    requires Inv(s) && InProcess(s)
    ensures Sizes(KillStep(s, pid).0) && SlotBudget(KillStep(s, pid).0) == SlotBudget(s)
  {
    hide Inv, NeverUsed, Forks, SlotOfPid;
    var i := SlotOfPid(s.procs, pid, 0, NPROCESS - 1);
    if i.Some? {
      NeverUsedUpdate(s.procs, NPROCESS - 1, i.value, s.procs[i.value].value.(killed := true));
    }
  }

  /** Every fork uses up a slot for good. */
  lemma ForksStep(s: State, step: Step)
    requires Inv(s) && Enabled(s, step)
    ensures Sizes(Apply(s, step)) && SlotBudget(Apply(s, step)) == SlotBudget(s)
  {
    hide Inv, NeverUsed, Forks;
    match step
    case Schedule =>
    case Timer =>
    case Fork(copy, kstack) => ForkUses(s, copy, kstack);
    case Exits(status) => ExitUses(s, status);
    case Wait(marked) => WaitUses(s, marked);
    case Kill(pid) => KillUses(s, pid);
    case Exec(table, heapSize) =>
      var p := CurrentPid(s).value;
      NeverUsedUpdate(s.procs, NPROCESS - 1, p, Apply(s, step).procs[p].value);
  }

  /** As pids are not recycled, no run holds more than NPROCESS - 2 successful forks. */
  lemma {:induction false} ForksBounded(states: seq<State>, steps: seq<Step>, i: nat)
    requires Run(states, steps) && FromBoot(states) && i <= |steps|
    ensures Sizes(states[i]) && SlotBudget(states[i]) == NPROCESS - 2 && Forks(states[i].log) <= NPROCESS - 2
  {
    hide Inv, StepTo;
    BootStateInv(states[0]);
    RunInv(states, steps, i);
    if i == 0 {
      BootUnused(states[0]);
    } else {
      ForksBounded(states, steps, i - 1);
      RunInv(states, steps, i - 1);
      assert StepTo(states[i - 1], steps[i - 1], states[i]);
      StepEnabled(states[i - 1], steps[i - 1], states[i]);
      ForksStep(states[i - 1], steps[i - 1]);
    }
  }

  lemma BootUnused(s: State)
    requires FromBoot([s])
    ensures Sizes(s) && s.log == [] && NeverUsed(s.procs, NPROCESS - 1) == NPROCESS - 2
  {
    var k, r, h, k0, k1 :| r != k && [s][0] == Boot(k, r, h, k0, k1);
    NoneUsed(s.procs, NPROCESS - 1);
  }

  lemma {:induction false} NoneUsed(procs: seq<Option<Process>>, n: nat)
    requires 0 < n <= |procs| && procs[0].Some? && forall i | 0 < i < n :: procs[i].None?
    ensures NeverUsed(procs, n) == n - 1
    decreases n
  {
    if n > 1 {
      NoneUsed(procs, n - 1);
    }
  }
}
