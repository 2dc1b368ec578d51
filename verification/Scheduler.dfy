/** The round-robin scheduler on the thread table. */
module Scheduler {
  import opened Basics
  import opened Processes
  import opened Tables

  /** Where the scan starts: after the current thread, or at slot 0 if there was none. */
  function ScanStart(current: Option<nat>, n: nat): nat
    requires n > 0
  {
    if current.Some? then current.value else n - 1
  }

  /** The first runnable slot among c + i, c + i + 1, ... c + n, wrapping around the table. */
  function FindFrom(threads: seq<Thread>, c: nat, i: nat): (r: Option<nat>)
    requires |threads| > 0
    ensures r.Some? ==> r.value < |threads| && threads[r.value].state.Runnable?
    decreases |threads| + 1 - i
  {
    if i > |threads| then None
    else if threads[(c + i) % |threads|].state.Runnable? then Some((c + i) % |threads|)
    else FindFrom(threads, c, i + 1)
  }

  function FindNext(threads: seq<Thread>, current: Option<nat>): Option<nat>
    requires |threads| > 0
  {
    FindFrom(threads, ScanStart(current, |threads|), 1)
  }

  /** How many slots the scan looks at, starting after c, up to and including t: from 1 to n. */
  function Distance(c: nat, t: nat, n: nat): nat
    requires c < n && t < n
  {
    if t > c then t - c else t + n - c
  }

  lemma DistanceStep(c: nat, t: nat, n: nat, i: nat)
    requires c < n && t < n && 1 <= i <= n
    ensures (c + i) % n == t <==> Distance(c, t, n) == i
  {
    if c + i >= n {
      WrapOnce(c + i - n, n);
    }
  }

  lemma WrapOnce(x: nat, n: nat)
    requires x < n
    ensures (x + n) % n == x
  {
    var q := (x + n) / n;
    assert x + n == q * n + (x + n) % n;
    assert q == 1;
  }

  /** The scan finds the runnable thread with the least distance, and finds one if there is one. */
  lemma {:induction false} FindFromNearest(threads: seq<Thread>, c: nat, i: nat, t: nat)
    requires c < |threads| && t < |threads| && threads[t].state.Runnable? && 1 <= i <= Distance(c, t, |threads|)
    ensures FindFrom(threads, c, i).Some?
    ensures i <= Distance(c, FindFrom(threads, c, i).value, |threads|) <= Distance(c, t, |threads|)
    decreases |threads| + 1 - i
  {
    var n := |threads|;
    var u := (c + i) % n;
    DistanceStep(c, u, n, i);
    DistanceStep(c, t, n, i);
    if !threads[u].state.Runnable? {
      FindFromNearest(threads, c, i + 1, t);
    }
  }

  lemma FindNearest(threads: seq<Thread>, current: Option<nat>, t: nat)
    requires t < |threads| && threads[t].state.Runnable? && (current.Some? ==> current.value < |threads|)
    ensures var c := ScanStart(current, |threads|);
      && FindNext(threads, current).Some?
      && Distance(c, FindNext(threads, current).value, |threads|) <= Distance(c, t, |threads|)
  {
    FindFromNearest(threads, ScanStart(current, |threads|), 1, t);
  }

  /** The chosen thread is marked Running first; then the thread that was Running until now, if it still
    * is, is marked Runnable, even if it is the chosen one. */
  function Picked(threads: seq<Thread>, current: Option<nat>, next: nat): seq<Thread>
    requires next < |threads| && (current.Some? ==> current.value < |threads|)
  {
    var marked := threads[next := threads[next].(state := Running)];
    if current.Some? && marked[current.value].state.Running?
    then marked[current.value := marked[current.value].(state := Runnable)] else marked
  }

  /** A round of the scheduler: it picks a thread, or halts until the next interrupt if there is none. */
  function ScheduleStep(s: State): State
    requires Sizes(s) && (s.current.Some? ==> s.current.value < NTHREAD)
  {
    var next := FindNext(s.threads, s.current);
    if next.None? then s
    else
      var s' := s.(threads := Picked(s.threads, s.current, next.value), current := next);
      s'.(cr3 := TableFor(s', next.value), control := ThreadCode)
  }

  /** A timer tick in thread code; the thread stays runnable. */
  function TimerYield(s: State): State
    requires Sizes(s) && s.current.Some? && s.current.value < NTHREAD
  {
    var c := s.current.value;
    s.(threads := s.threads[c := s.threads[c].(state := Runnable)], cr3 := s.kernelTable, control := Scheduling)
  }

  /** The scheduler never halts, and never picks the thread it just left: besides the current thread,
    * the input thread or init's thread can run. */
  lemma PickOther(s: State)
    requires Inv(s) && s.control.Scheduling?
    ensures FindNext(s.threads, s.current).Some?
    ensures FindNext(s.threads, s.current) != s.current
  {
    assert ProcessOk(s, 0);
    var t := if s.current == Some(0) then 1 else 0;
    FindNearest(s.threads, s.current, t);
  }

  lemma ScheduleInv(s: State)
    requires Inv(s) && s.control.Scheduling?
    ensures Inv(ScheduleStep(s)) && ScheduleStep(s).control.ThreadCode?
  {
    PickOther(s);
    var s' := ScheduleStep(s);
    forall q: nat ensures ProcessOk(s', q) {
      assert ProcessOk(s, q);
    }
    forall u: nat ensures ThreadOk(s', u) {
      assert ThreadOk(s, u);
    }
  }

  lemma TimerInv(s: State)
    requires Inv(s) && s.control.ThreadCode?
    ensures Inv(TimerYield(s))
  {
    var s' := TimerYield(s);
    forall q: nat ensures ProcessOk(s', q) {
      assert ProcessOk(s, q);
    }
    forall u: nat ensures ThreadOk(s', u) {
      assert ThreadOk(s, u);
    }
  }

  /** If the scheduler did pick the current thread, that thread would be left Runnable while it runs:
    * the invariant's two immortal threads are what rules this out. */
  lemma PickingCurrentLosesRunning(threads: seq<Thread>, c: nat)
    requires c < |threads|
    ensures Picked(threads, Some(c), c)[c].state.Runnable?
  {}

  // ---- Bounded waiting

  /** A runnable thread that is not picked stays runnable and comes closer. */
  lemma PickComesCloser(threads: seq<Thread>, current: Option<nat>, t: nat)
    requires t < |threads| && threads[t].state.Runnable? && (current.Some? ==> current.value < |threads|)
    ensures FindNext(threads, current).Some?
    ensures var next := FindNext(threads, current).value;
      next != t ==>
        && Picked(threads, current, next)[t].state.Runnable?
        && Distance(next, t, |threads|) < Distance(ScanStart(current, |threads|), t, |threads|)
  {
    FindNearest(threads, current, t);
  }
}
