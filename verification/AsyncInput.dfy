/** Keyboard and serial input: interrupts put bytes in queues, tasks take them out, wakers connect the two.
  *
  * A device and its task have the same number.  The interrupt handler is one step, because interrupts are
  * off in it; the task and the executor advance one access to shared state at a time, and an interrupt can
  * come between any two of these, except where sleep_if_idle has turned interrupts off.
  */
module AsyncInput {
  import opened Basics

  const QUEUE_MAX: nat := 100
  const TASK_MAX: nat := 100

  datatype Kind = Keyboard | Serial

  /** A device's byte queue and waker slot, with a record of the bytes accepted and delivered so far. */
  datatype Device = Device(
    kind: Kind,
    initialised: bool,
    queue: seq<byte>,
    waker: Option<nat>,
    accepted: seq<byte>,
    delivered: seq<byte>
  )

  /** Where the executor's thread stands. */
  datatype Pc =
    | NextTask                        // run_ready_tasks, about to pop
    | FirstPop(id: nat)               // poll_next, before its first pop
    | Register(id: nat)               // the queue was empty
    | SecondPop(id: nat)              // the waker is registered
    | TakeWaker(id: nat, got: byte)   // the second pop found a byte
    | CheckIdle                       // sleep_if_idle
    | Halted
    | Panicked

  datatype State = State(devices: seq<Device>, taskQueue: seq<nat>, pc: Pc)

  datatype Step = Execute | Input(id: nat, data: byte) | OtherInterrupt

  // ---- Steps

  function Polled(pc: Pc): Option<nat> {
    match pc
    case FirstPop(id) => Some(id)
    case Register(id) => Some(id)
    case SecondPop(id) => Some(id)
    case TakeWaker(id, _) => Some(id)
    case _ => None
  }

  /** A poll of this task is under way. */
  predicate Polling(s: State, id: nat) {
    Polled(s.pc) == Some(id)
  }

  predicate PcOk(s: State) {
    Polled(s.pc).Some? ==> Polled(s.pc).value < |s.devices|
  }

  function Resume(pc: Pc): Pc {
    if pc.Halted? then NextTask else pc
  }

  /** add_scancode and add_byte. */
  function Interrupt(s: State, id: nat, data: byte): State
    requires id < |s.devices|
  {
    var d, awake := s.devices[id], s.(pc := Resume(s.pc));
    if !d.initialised then awake
    else if |d.queue| >= QUEUE_MAX then
      if d.kind.Serial? then awake.(pc := Panicked) else awake
    else
      var pushed := d.(queue := d.queue + [data], accepted := d.accepted + [data]);
      match d.waker
      case None => awake.(devices := s.devices[id := pushed])
      case Some(task) =>
        var woken := awake.(devices := s.devices[id := pushed.(waker := None)]);
        if |s.taskQueue| >= TASK_MAX then woken.(pc := Panicked) else woken.(taskQueue := s.taskQueue + [task])
  }

  /** One access of the executor's thread. */
  function Advance(s: State): State
    requires PcOk(s)
  {
    match s.pc
    case NextTask =>
      if s.taskQueue == [] then s.(pc := CheckIdle)
      else
        var id := s.taskQueue[0];
        var s' := s.(taskQueue := s.taskQueue[1..]);
        if id >= |s.devices| then s'
        else s'.(devices := s.devices[id := s.devices[id].(initialised := true)], pc := FirstPop(id))
    case FirstPop(id) =>
      var d := s.devices[id];
      if d.queue == [] then s.(pc := Register(id))
      else s.(devices := s.devices[id := d.(queue := d.queue[1..], delivered := d.delivered + [d.queue[0]])])
    case Register(id) =>
      s.(devices := s.devices[id := s.devices[id].(waker := Some(id))], pc := SecondPop(id))
    case SecondPop(id) =>
      var d := s.devices[id];
      if d.queue == [] then s.(pc := NextTask)
      else s.(devices := s.devices[id := d.(queue := d.queue[1..])], pc := TakeWaker(id, d.queue[0]))
    case TakeWaker(id, got) =>
      var d := s.devices[id];
      s.(devices := s.devices[id := d.(waker := None, delivered := d.delivered + [got])], pc := FirstPop(id))
    case CheckIdle => s.(pc := if s.taskQueue == [] then Halted else NextTask)
    case Halted => s
    case Panicked => s
  }

  predicate Enabled(s: State, step: Step) {
    PcOk(s) && !s.pc.Panicked? && (step.Input? ==> step.id < |s.devices|)
  }

  function Apply(s: State, step: Step): State
    requires Enabled(s, step)
  {
    match step
    case Execute => Advance(s)
    case Input(id, data) => Interrupt(s, id, data)
    case OtherInterrupt => s.(pc := Resume(s.pc))
  }

  /** Both tasks were spawned, and neither has run yet. */
  function Boot(): State {
    State([Device(Keyboard, false, [], None, [], []), Device(Serial, false, [], None, [], [])], [0, 1], NextTask)
  }

  ghost predicate Run(states: seq<State>, steps: seq<Step>) {
    && |states| == |steps| + 1 && states[0] == Boot()
    && forall i | 0 <= i < |steps| :: Enabled(states[i], steps[i]) && states[i + 1] == Apply(states[i], steps[i])
  }

  // ---- Invariant

  /** Unread input is never forgotten: its task is being polled or is in the ready queue.  A task that is
    * not about to look at its queue again has a registered waker or is in the ready queue. */
  ghost predicate Awake(s: State, id: nat)
    requires id < |s.devices|
  {
    var d := s.devices[id];
    && (d.waker == None || d.waker == Some(id))
    && (d.queue != [] ==> Polling(s, id) || id in s.taskQueue)
    && (!Polling(s, id) || s.pc == SecondPop(id) ==> d.waker == Some(id) || id in s.taskQueue)
    && (Polling(s, id) || d.queue != [] ==> d.initialised)
  }

  /** The byte that poll_next has popped but not returned yet. */
  function InHand(s: State, id: nat): seq<byte> {
    if s.pc.TakeWaker? && s.pc.id == id then [s.pc.got] else []
  }

  ghost predicate InOrder(s: State, id: nat)
    requires id < |s.devices|
  {
    var d := s.devices[id];
    d.accepted == d.delivered + InHand(s, id) + d.queue && |d.queue| <= QUEUE_MAX
  }

  ghost predicate Inv(s: State) {
    && PcOk(s)
    && (s.pc.Halted? ==> s.taskQueue == [])
    && (!s.pc.Panicked? ==> forall id: nat | id < |s.devices| :: Awake(s, id) && InOrder(s, id))
  }

  lemma InterruptInv(s: State, id: nat, data: byte)
    requires Inv(s) && !s.pc.Panicked? && id < |s.devices|
    ensures Inv(Interrupt(s, id, data))
  {
    var s' := Interrupt(s, id, data);
    forall i: nat | i < |s.devices| && !s'.pc.Panicked? ensures Awake(s', i) && InOrder(s', i) {
      assert Awake(s, i) && Awake(s, id) && InOrder(s, i);
    }
  }

  lemma AdvanceInv(s: State)
    requires Inv(s) && !s.pc.Panicked?
    ensures Inv(Advance(s))
  {
    var s' := Advance(s);
    forall i: nat | i < |s.devices| ensures Awake(s', i) && InOrder(s', i) {
      assert Awake(s, i) && InOrder(s, i);
      if s.pc.NextTask? && s.taskQueue != [] {
        assert s.taskQueue == [s.taskQueue[0]] + s'.taskQueue;
      }
    }
  }

  lemma {:induction false} RunInv(states: seq<State>, steps: seq<Step>, i: nat)
    requires Run(states, steps) && i <= |steps|
    ensures Inv(states[i]) && |states[i].devices| == 2
  {
    if i == 0 {
      forall id: nat | id < 2 ensures Awake(Boot(), id) && InOrder(Boot(), id) {}
    } else {
      RunInv(states, steps, i - 1);
      var s := states[i - 1];
      match steps[i - 1]
      case Execute => AdvanceInv(s);
      case Input(id, data) => InterruptInv(s, id, data);
      case OtherInterrupt =>
        forall d: nat | d < |s.devices| ensures Awake(states[i], d) && InOrder(states[i], d) {
          assert Awake(s, d) && InOrder(s, d);
        }
    }
  }

  /** No lost wakeup: in every interleaving, a device with unread input has its task being polled or in the
    * ready queue, and the executor is not halted. */
  lemma NoLostWakeup(states: seq<State>, steps: seq<Step>, i: nat, id: nat)
    requires Run(states, steps) && i <= |steps| && id < 2 && |states[i].devices| == 2 && !states[i].pc.Panicked?
    requires states[i].devices[id].queue != []
    ensures Polling(states[i], id) || id in states[i].taskQueue
    ensures states[i].pc != Halted
  {
    RunInv(states, steps, i);
    assert Awake(states[i], id);
  }

  /** The executor halts only when there is no unread input, at the moment it halts. */
  lemma SleepsOnlyIfIdle(states: seq<State>, steps: seq<Step>, i: nat)
    requires Run(states, steps) && i < |steps| && steps[i] == Execute && states[i].pc == CheckIdle
    requires states[i + 1].pc == Halted
    ensures forall d | d in states[i + 1].devices :: d.queue == []
  {
    RunInv(states, steps, i);
    assert Awake(states[i], 0) && Awake(states[i], 1);
  }

  // ---- What came in and what went out, told by the run alone

  /** The task of this device was polled before: that is what makes its queue. */
  ghost predicate PolledBefore(states: seq<State>, steps: seq<Step>, i: nat, id: nat)
    requires |states| == |steps| + 1 && i <= |steps|
  {
    exists j: nat :: j < i && steps[j] == Execute && states[j].pc == NextTask && states[j].taskQueue != []
                && states[j].taskQueue[0] == id
  }

  /** The bytes that came for this device among the first i steps, in order, leaving out those that came before its
    * task was first polled, or with 100 bytes waiting. */
  ghost function Arrived(states: seq<State>, steps: seq<Step>, i: nat, id: nat): seq<byte>
    requires |states| == |steps| + 1 && i <= |steps|
    decreases i, 0
  {
    if i == 0 then []
    else
      var before, step := Arrived(states, steps, i - 1, id), steps[i - 1];
      if step.Input? && step.id == id && PolledBefore(states, steps, i - 1, id)
         && Waiting(states, steps, i - 1, id) < 100
      then before + [step.data] else before
  }

  /** The bytes that poll_next returned for this device among the first i steps: what the first pop found, and what
    * the second one found, once the waker is taken back. */
  function Returned(states: seq<State>, steps: seq<Step>, i: nat, id: nat): seq<byte>
    requires |states| == |steps| + 1 && i <= |steps|
  {
    if i == 0 then []
    else
      var before, s := Returned(states, steps, i - 1, id), states[i - 1];
      if steps[i - 1] != Execute || id >= |s.devices| then before
      else if s.pc == FirstPop(id) && s.devices[id].queue != [] then before + [s.devices[id].queue[0]]
      else before + InHand(s, id)
  }

  /** How many bytes wait: those that came in, but for those that a pop has taken. */
  ghost function Waiting(states: seq<State>, steps: seq<Step>, i: nat, id: nat): int
    requires |states| == |steps| + 1 && i <= |steps|
    decreases i, 1
  {
    |Arrived(states, steps, i, id)| - |Returned(states, steps, i, id)| - |InHand(states[i], id)|
  }

  /** The two records of a device are what came in and what went out. */
  ghost predicate Recorded(states: seq<State>, steps: seq<Step>, i: nat, id: nat)
    requires |states| == |steps| + 1 && i <= |steps|
  {
    id < |states[i].devices| &&
    var d := states[i].devices[id];
    && d.accepted == Arrived(states, steps, i, id) && d.delivered == Returned(states, steps, i, id)
    && (d.initialised <==> PolledBefore(states, steps, i, id)) && (d.kind.Serial? <==> id == 1)
  }

  lemma AdvanceRecords(s: State, id: nat)
    requires PcOk(s) && id < |s.devices|
    ensures |Advance(s).devices| == |s.devices|
    ensures var d, d' := s.devices[id], Advance(s).devices[id];
      && d'.kind == d.kind && d'.accepted == d.accepted
      && (d'.initialised <==> d.initialised || (s.pc == NextTask && s.taskQueue != [] && s.taskQueue[0] == id))
      && d'.delivered ==
         d.delivered + if s.pc == FirstPop(id) && d.queue != [] then [d.queue[0]] else InHand(s, id)
  {}

  /** An interrupt takes its byte in exactly if the queue exists and has room. */
  lemma InterruptRecords(s: State, at: nat, data: byte, id: nat)
    requires at < |s.devices| && id < |s.devices|
    ensures |Interrupt(s, at, data).devices| == |s.devices|
    ensures var d, d' := s.devices[id], Interrupt(s, at, data).devices[id];
      && d'.kind == d.kind && d'.initialised == d.initialised && d'.delivered == d.delivered
      && d'.accepted == d.accepted + if at == id && d.initialised && |d.queue| < 100 then [data] else []
  {}

  lemma PolledStep(states: seq<State>, steps: seq<Step>, i: nat, id: nat)
    requires |states| == |steps| + 1 && i < |steps|
    ensures PolledBefore(states, steps, i + 1, id) <==>
      || PolledBefore(states, steps, i, id)
      || (steps[i] == Execute && states[i].pc == NextTask && states[i].taskQueue != [] && states[i].taskQueue[0] == id)
  {}

  lemma QueueLength(s: State, id: nat)
    requires Inv(s) && !s.pc.Panicked? && id < |s.devices|
    ensures InOrder(s, id)
  {}

  lemma NotPolledAtFirst(states: seq<State>, steps: seq<Step>, id: nat)
    requires |states| == |steps| + 1
    ensures !PolledBefore(states, steps, 0, id)
  {}

  lemma {:induction false} RunRecorded(states: seq<State>, steps: seq<Step>, i: nat, id: nat)
    requires Run(states, steps) && i <= |steps| && id < 2 && !states[i].pc.Panicked?
    ensures Recorded(states, steps, i, id)
    ensures Waiting(states, steps, i, id) == |states[i].devices[id].queue|
    decreases i
  {
    hide PolledBefore, Inv, Advance, Interrupt;
    RunInv(states, steps, i);
    InvPc(states[i]);
    QueueLength(states[i], id);
    if i == 0 {
      NotPolledAtFirst(states, steps, id);
    } else {
      RunRecorded(states, steps, i - 1, id);
      PolledStep(states, steps, i - 1, id);
      RunInv(states, steps, i - 1);
      match steps[i - 1]
      case Execute => AdvanceRecords(states[i - 1], id);
      case Input(at, data) => InterruptRecords(states[i - 1], at, data, id);
      case OtherInterrupt =>
    }
  }

  /** Input is delivered once, in order, and nothing that came in is dropped. */
  lemma DeliveredInOrder(states: seq<State>, steps: seq<Step>, i: nat, id: nat)
    requires Run(states, steps) && i <= |steps| && id < 2 && !states[i].pc.Panicked?
    ensures |states[i].devices| == 2
    ensures Arrived(states, steps, i, id) ==
      Returned(states, steps, i, id) + InHand(states[i], id) + states[i].devices[id].queue
  {
    RunInv(states, steps, i);
    RunRecorded(states, steps, i, id);
    assert InOrder(states[i], id);
  }

  // ---- Progress

  function Rank(s: State): nat {
    match s.pc
    case Panicked => 0
    case Halted => 0
    case CheckIdle => if s.taskQueue == [] then 1 else 3
    case NextTask => 2
    case SecondPop(_) => 3
    case Register(_) => 4
    case FirstPop(_) => 5
    case TakeWaker(_, _) => 6
  }

  function Unread(devices: seq<Device>): nat {
    if devices == [] then 0 else Unread(devices[..|devices| - 1]) + |devices[|devices| - 1].queue|
  }

  function Work(s: State): nat {
    4 * Unread(s.devices) + 4 * |s.taskQueue| + Rank(s)
  }

  lemma {:induction false} UnreadUpdate(devices: seq<Device>, id: nat, d: Device)
    requires id < |devices|
    ensures Unread(devices[id := d]) == Unread(devices) - |devices[id].queue| + |d.queue|
    ensures Unread(devices) >= |devices[id].queue|
    decreases |devices|
  {
    var k := |devices| - 1;
    if id == k {
      assert devices[id := d][..k] == devices[..k];
    } else {
      UnreadUpdate(devices[..k], id, d);
      assert devices[id := d][..k] == devices[..k][id := d];
    }
  }

  /** Every step of the executor leaves less to do, until it halts. */
  lemma LessWork(s: State)
    requires PcOk(s) && !s.pc.Halted? && !s.pc.Panicked?
    ensures Work(Advance(s)) < Work(s)
  {
    var s' := Advance(s);
    if s.pc.NextTask? && s.taskQueue != [] && s.taskQueue[0] < |s.devices| {
      UnreadUpdate(s.devices, s.taskQueue[0], s'.devices[s.taskQueue[0]]);
    } else if Polled(s.pc).Some? {
      UnreadUpdate(s.devices, Polled(s.pc).value, s'.devices[Polled(s.pc).value]);
    }
  }

  function AdvanceBy(s: State, n: nat): State
    requires PcOk(s)
    decreases n
  {
    if n == 0 then s
    else
      AdvancePc(s);
      AdvanceBy(Advance(s), n - 1)
  }

  lemma AdvancePc(s: State)
    requires PcOk(s)
    ensures PcOk(Advance(s)) && |Advance(s).devices| == |s.devices|
  {}

  lemma {:induction false} DrainsFrom(s: State, n: nat)
    requires Inv(s) && !s.pc.Panicked? && n >= Work(s)
    ensures PcOk(s) && AdvanceBy(s, n).pc.Halted?
    ensures |AdvanceBy(s, n).devices| == |s.devices|
    ensures forall id: nat | id < |s.devices| ::
      AdvanceBy(s, n).devices[id].delivered == AdvanceBy(s, n).devices[id].accepted == s.devices[id].accepted
    decreases n
  {
    if s.pc.Halted? {
      forall id: nat | id < |s.devices| ensures s.devices[id].delivered == s.devices[id].accepted {
        assert Awake(s, id) && InOrder(s, id);
      }
      StaysHalted(s, n);
    } else {
      LessWork(s);
      AdvanceInv(s);
      DrainsFrom(Advance(s), n - 1);
    }
  }

  /** Wherever a run stands: if no more interrupts come, the executor halts within Work steps with every byte
    * delivered that came in. */
  lemma Drains(states: seq<State>, steps: seq<Step>, i: nat, n: nat)
    requires Run(states, steps) && i <= |steps| && !states[i].pc.Panicked? && n >= Work(states[i])
    ensures PcOk(states[i]) && AdvanceBy(states[i], n).pc.Halted?
    ensures |states[i].devices| == |AdvanceBy(states[i], n).devices| == 2
    ensures forall id: nat | id < 2 ::
      AdvanceBy(states[i], n).devices[id].delivered == Arrived(states, steps, i, id)
  {
    RunInv(states, steps, i);
    DrainsFrom(states[i], n);
    forall id: nat | id < 2 ensures AdvanceBy(states[i], n).devices[id].delivered == Arrived(states, steps, i, id) {
      RunRecorded(states, steps, i, id);
    }
  }

  lemma {:induction false} StaysHalted(s: State, n: nat)
    requires PcOk(s) && s.pc.Halted?
    ensures AdvanceBy(s, n) == s
    decreases n
  {
    if n > 0 {
      StaysHalted(Advance(s), n - 1);
    }
  }

  // ---- The ready queue can overflow

  /** The task has emptied its queue and is about to look at it again. */
  ghost predicate Caught(s: State, id: nat) {
    s.pc == FirstPop(id) && id < |s.devices| && s.devices[id].queue == [] && s.devices[id].initialised
  }

  /** The poll of this task has registered its waker and is not over yet. */
  predicate Registered(pc: Pc, id: nat) {
    pc == SecondPop(id) || (pc.TakeWaker? && pc.id == id)
  }

  /** How many of the first i inputs came for a task whose waker was registered by a poll still under way. */
  function Extra(states: seq<State>, steps: seq<Step>, i: nat): nat
    requires |states| == |steps| + 1 && i <= |steps|
  {
    if i == 0 then 0
    else
      Extra(states, steps, i - 1) +
        if steps[i - 1].Input? && Registered(states[i - 1].pc, steps[i - 1].id) then 1 else 0
  }

  /** The wakeup that an input for this device would cause finds the ready queue full: the kernel panics. */
  predicate FindsQueueFull(s: State, id: nat) {
    && id < |s.devices| && s.devices[id].initialised && |s.devices[id].queue| < QUEUE_MAX
    && s.devices[id].waker.Some? && |s.taskQueue| >= TASK_MAX
  }

  function Wakers(devices: seq<Device>): nat {
    if devices == [] then 0 else Wakers(devices[..|devices| - 1]) + if devices[|devices| - 1].waker.Some? then 1 else 0
  }

  /** Ways into the ready queue, taken and open: entries, registered wakers, and a poll that will register one. */
  function Tokens(s: State): nat {
    |s.taskQueue| + Wakers(s.devices) + if WillRegister(s) then 1 else 0
  }

  predicate WillRegister(s: State) {
    match Polled(s.pc)
    case None => false
    case Some(id) => !Registered(s.pc, id) || (id < |s.devices| && s.devices[id].waker == None)
  }

  lemma {:induction false} WakersUpdate(devices: seq<Device>, id: nat, d: Device)
    requires id < |devices|
    ensures Wakers(devices[id := d]) + (if devices[id].waker.Some? then 1 else 0) ==
      Wakers(devices) + if d.waker.Some? then 1 else 0
    ensures devices[id].waker.Some? ==> Wakers(devices) >= 1
    decreases |devices|
  {
    var k := |devices| - 1;
    if id == k {
      assert devices[id := d][..k] == devices[..k];
    } else {
      WakersUpdate(devices[..k], id, d);
      assert devices[id := d][..k] == devices[..k][id := d];
    }
  }

  lemma TokensAdvance(s: State)
    requires PcOk(s) && !s.pc.Panicked?
    ensures Tokens(Advance(s)) <= Tokens(s)
  {
    var s' := Advance(s);
    if s.pc.NextTask? && s.taskQueue != [] && s.taskQueue[0] < |s.devices| {
      WakersUpdate(s.devices, s.taskQueue[0], s'.devices[s.taskQueue[0]]);
    }
    if Polled(s.pc).Some? {
      var id := Polled(s.pc).value;
      WakersUpdate(s.devices, id, s'.devices[id]);
      assert s.devices[id := s.devices[id]] == s.devices;
    }
  }

  lemma TokensInterrupt(s: State, id: nat, data: byte)
    requires Inv(s) && !s.pc.Panicked? && id < |s.devices| && !Interrupt(s, id, data).pc.Panicked?
    ensures Tokens(Interrupt(s, id, data)) <= Tokens(s) + if Registered(s.pc, id) then 1 else 0
  {
    assert Awake(s, id);
    var s' := Interrupt(s, id, data);
    WakersUpdate(s.devices, id, s'.devices[id]);
    assert s.devices[id := s.devices[id]] == s.devices;
  }

  /** Every entry of the ready queue beyond the two tasks' own was put there by an input that came while a
    * waker was registered. */
  lemma {:induction false} TokensBound(states: seq<State>, steps: seq<Step>, i: nat)
    requires Run(states, steps) && i <= |steps| && !states[i].pc.Panicked?
    ensures Tokens(states[i]) <= 2 + Extra(states, steps, i)
  {
    hide Inv;
    if i == 0 {
      assert Wakers(Boot().devices[..1]) == 0 && Wakers(Boot().devices) == 0;
    } else {
      var s := states[i - 1];
      RunInv(states, steps, i - 1);
      TokensBound(states, steps, i - 1);
      match steps[i - 1]
      case Input(id, data) => TokensInterrupt(s, id, data);
      case Execute => TokensAdvance(s);
      case OtherInterrupt =>
    }
  }

  ghost predicate OverflowsAfter(states: seq<State>, steps: seq<Step>, k: nat) {
    && Run(states, steps) && |steps| > 0 && steps[|steps| - 1].Input?
    && FindsQueueFull(states[|steps| - 1], steps[|steps| - 1].id)
    && Extra(states, steps, |steps| - 1) == k
  }

  lemma OverflowNeeds(states: seq<State>, steps: seq<Step>, k: nat)
    requires OverflowsAfter(states, steps, k)
    ensures k >= TASK_MAX - 1 && states[|steps|].pc == Panicked
  {
    var i := |steps| - 1;
    TokensBound(states, steps, i);
    WakersUpdate(states[i].devices, steps[i].id, states[i].devices[steps[i].id]);
  }

  // ---- A run that overflows

  lemma {:induction false} ExtraPrefix(states: seq<State>, steps: seq<Step>, states': seq<State>, steps': seq<Step>,
                                       i: nat)
    requires |states| == |steps| + 1 && |states'| == |steps'| + 1 && i <= |steps|
    requires steps <= steps' && states <= states'
    ensures Extra(states', steps', i) == Extra(states, steps, i)
  {
    if i > 0 {
      ExtraPrefix(states, steps, states', steps', i - 1);
    }
  }

  /** One more step of a run. */
  lemma Extend(states: seq<State>, steps: seq<Step>, step: Step) returns (states': seq<State>, steps': seq<Step>)
    requires Run(states, steps) && Enabled(states[|steps|], step)
    ensures Run(states', steps') && |steps'| == |steps| + 1 && steps' == steps + [step]
    ensures states'[|steps|] == states[|steps|] && states'[|steps'|] == Apply(states[|steps|], step)
    ensures Extra(states', steps', |steps|) == Extra(states, steps, |steps|)
    ensures Extra(states', steps', |steps'|) ==
      Extra(states, steps, |steps|) + if step.Input? && Registered(states[|steps|].pc, step.id) then 1 else 0
  {
    steps' := steps + [step];
    states' := states + [Apply(states[|steps|], step)];
    ExtraPrefix(states, steps, states', steps', |steps|);
  }

  lemma {:induction false} ArrivedPrefix(states: seq<State>, steps: seq<Step>, states': seq<State>,
                                         steps': seq<Step>, i: nat, id: nat)
    requires |states| == |steps| + 1 && |states'| == |steps'| + 1 && i <= |steps|
    requires steps <= steps' && states <= states'
    ensures Arrived(states', steps', i, id) == Arrived(states, steps, i, id)
    ensures Returned(states', steps', i, id) == Returned(states, steps, i, id)
  {
    if i > 0 {
      ArrivedPrefix(states, steps, states', steps', i - 1, id);
      assert PolledBefore(states', steps', i - 1, id) <==> PolledBefore(states, steps, i - 1, id);
    }
  }

  /** The run goes on with n steps of the executor. */
  lemma {:induction false} GoOn(states: seq<State>, steps: seq<Step>, n: nat) returns (states': seq<State>,
                                steps': seq<Step>)
    requires Run(states, steps) && PcOk(states[|steps|]) && Inv(states[|steps|]) && !states[|steps|].pc.Panicked?
    ensures Run(states', steps') && states <= states' && steps <= steps' && |steps'| == |steps| + n
    ensures states'[|steps'|] == AdvanceBy(states[|steps|], n)
    ensures forall k | |steps| <= k < |steps'| :: steps'[k] == Execute
    ensures forall id: nat :: Arrived(states', steps', |steps'|, id) == Arrived(states, steps, |steps|, id)
    decreases n
  {
    states', steps' := states, steps;
    if n > 0 {
      AdvanceInv(states[|steps|]);
      var more := steps + [Execute];
      var longer := states + [Advance(states[|steps|])];
      forall id: nat ensures Arrived(longer, more, |more|, id) == Arrived(states, steps, |steps|, id) {
        ArrivedPrefix(states, steps, longer, more, |steps|, id);
      }
      states', steps' := GoOn(longer, more, n - 1);
    }
  }

  /** Every run can go on so that all that came in has gone out, and nothing else: n steps of the executor do it,
    * for any n of at least Work. */
  lemma DrainedRun(states: seq<State>, steps: seq<Step>, n: nat) returns (states': seq<State>, steps': seq<Step>)
    requires Run(states, steps) && !states[|steps|].pc.Panicked? && n >= Work(states[|steps|])
    ensures Run(states', steps') && states <= states' && steps <= steps' && |steps'| == |steps| + n
    ensures forall k | |steps| <= k < |steps'| :: steps'[k] == Execute
    ensures states'[|steps'|].pc == Halted
    ensures forall id: nat | id < 2 :: Returned(states', steps', |steps'|, id) == Arrived(states, steps, |steps|, id)
  {
    hide Inv;
    RunInv(states, steps, |steps|);
    InvPc(states[|steps|]);
    Drains(states, steps, |steps|, n);
    states', steps' := GoOn(states, steps, n);
    forall id: nat | id < 2 ensures Returned(states', steps', |steps'|, id) == Arrived(states, steps, |steps|, id) {
      RunRecorded(states', steps', |steps'|, id);
    }
  }

  /** Between the registration and the second pop any number of inputs can come; the first used the waker. */
  lemma {:induction false} MoreInputs(states: seq<State>, steps: seq<Step>, k: nat) returns (states': seq<State>,
                                      steps': seq<Step>)
    requires Run(states, steps) && Keyboards(states[|steps|]) && states[|steps|].pc == SecondPop(0)
    requires states[|steps|].devices[0].waker == None && states[|steps|].devices[0].queue != []
    ensures Run(states', steps') && Keyboards(states'[|steps'|]) && states'[|steps'|].pc == SecondPop(0)
    ensures states'[|steps'|].devices[0].waker == None && states'[|steps'|].devices[0].queue != []
    ensures states'[|steps'|].taskQueue == states[|steps|].taskQueue
    ensures Extra(states', steps', |steps'|) == Extra(states, steps, |steps|) + k
    decreases k
  {
    states', steps' := states, steps;
    if k > 0 {
      states', steps' := Extend(states, steps, Input(0, 0));
      states', steps' := MoreInputs(states', steps', k - 1);
    }
  }

  ghost predicate Keyboards(s: State) {
    |s.devices| > 0 && s.devices[0].kind.Keyboard? && s.devices[0].initialised
  }

  lemma {:induction false} ReadAll(states: seq<State>, steps: seq<Step>) returns (states': seq<State>,
                                   steps': seq<Step>)
    requires Run(states, steps) && Keyboards(states[|steps|]) && states[|steps|].pc == FirstPop(0)
    ensures Run(states', steps') && Keyboards(states'[|steps'|]) && Caught(states'[|steps'|], 0)
    ensures states'[|steps'|].taskQueue == states[|steps|].taskQueue
    ensures Extra(states', steps', |steps'|) == Extra(states, steps, |steps|)
    decreases |states[|steps|].devices[0].queue|
  {
    states', steps' := states, steps;
    if states[|steps|].devices[0].queue != [] {
      states', steps' := Extend(states, steps, Execute);
      states', steps' := ReadAll(states', steps');
    }
  }

  lemma RegisterAgain(states: seq<State>, steps: seq<Step>, id: nat) returns (states': seq<State>, steps': seq<Step>)
    requires Run(states, steps) && Caught(states[|steps|], id)
    ensures Run(states', steps') && |states'[|steps'|].devices| == |states[|steps|].devices|
    ensures states'[|steps'|] == states[|steps|].(
      pc := SecondPop(id), devices := states[|steps|].devices[id := states[|steps|].devices[id].(waker := Some(id))])
    ensures Extra(states', steps', |steps'|) == Extra(states, steps, |steps|)
  {
    states', steps' := Extend(states, steps, Execute);
    states', steps' := Extend(states', steps', Execute);
  }

  /** One byte that arrives between registering the waker and the second pop is delivered by this very poll,
    * and yet it puts the task in the ready queue once more: when that is full, the wakeup panics. */
  lemma {:induction false} ExtraWakeup(states: seq<State>, steps: seq<Step>, id: nat, data: byte)
    returns (states': seq<State>, steps': seq<Step>)
    requires Run(states, steps) && Caught(states[|steps|], id)
    ensures var (s, k) := (states[|steps|], Extra(states, steps, |steps|));
      if |s.taskQueue| < TASK_MAX then
        && Run(states', steps') && Extra(states', steps', |steps'|) == k + 1
        && Caught(states'[|steps'|], id) && states'[|steps'|].taskQueue == s.taskQueue + [id]
        && states'[|steps'|].devices[id].delivered == s.devices[id].delivered + [data]
      else OverflowsAfter(states', steps', k) && states'[|steps'|].pc == Panicked
  {
    states', steps' := RegisterAgain(states, steps, id);
    states', steps' := Extend(states', steps', Input(id, data));
    if |states[|steps|].taskQueue| < TASK_MAX {
      states', steps' := Extend(states', steps', Execute);
      states', steps' := Extend(states', steps', Execute);
    }
  }

  /** So from there a run can go on in which the ready queue overflows, and the kernel panics. */
  lemma {:induction false} ReadyQueueOverflows(states: seq<State>, steps: seq<Step>, id: nat, data: byte)
    returns (states': seq<State>, steps': seq<Step>)
    requires Run(states, steps) && Caught(states[|steps|], id) && |states[|steps|].taskQueue| <= TASK_MAX
    ensures OverflowsAfter(states', steps', Extra(states, steps, |steps|) + TASK_MAX - |states[|steps|].taskQueue|)
    ensures states'[|steps'|].pc == Panicked
    decreases TASK_MAX - |states[|steps|].taskQueue|
  {
    states', steps' := ExtraWakeup(states, steps, id, data);
    if |states[|steps|].taskQueue| < TASK_MAX {
      states', steps' := ReadyQueueOverflows(states', steps', id, data);
    }
  }

  /** Any number of keyboard inputs in that gap puts the task in the ready queue only once more. */
  lemma ManyInputs(states: seq<State>, steps: seq<Step>, k: nat) returns (states': seq<State>, steps': seq<Step>)
    requires Run(states, steps) && Keyboards(states[|steps|]) && Caught(states[|steps|], 0)
    requires |states[|steps|].taskQueue| < TASK_MAX && k > 0
    ensures Run(states', steps') && Caught(states'[|steps'|], 0)
    ensures states'[|steps'|].taskQueue == states[|steps|].taskQueue + [0]
    ensures Extra(states', steps', |steps'|) == Extra(states, steps, |steps|) + k
  {
    states', steps' := RegisterAgain(states, steps, 0);
    states', steps' := Extend(states', steps', Input(0, 0));
    states', steps' := MoreInputs(states', steps', k - 1);
    states', steps' := Extend(states', steps', Execute);
    states', steps' := Extend(states', steps', Execute);
    states', steps' := ReadAll(states', steps');
  }

  lemma CaughtIsReachable() returns (states: seq<State>, steps: seq<Step>)
    ensures Run(states, steps) && Keyboards(states[|steps|]) && Caught(states[|steps|], 0)
    ensures states[|steps|].taskQueue == [1] && Extra(states, steps, |steps|) == 0
  {
    steps := [Execute];
    states := [Boot(), Apply(Boot(), Execute)];
    assert Extra(states, steps, 0) == 0;
  }

  /** The ready queue can overflow after k inputs that came while a waker was registered exactly if k is at
    * least 99, one less than the queue has room for. */
  lemma OverflowThreshold(k: nat)
    ensures (exists states, steps :: OverflowsAfter(states, steps, k)) <==> k >= 99
  {
    hide Run, Advance, Interrupt, Extra, Work;
    if states, steps :| OverflowsAfter(states, steps, k) {
      OverflowNeeds(states, steps, k);
    }
    if k >= TASK_MAX - 1 {
      var states, steps := CaughtIsReachable();
      states, steps := ManyInputs(states, steps, k - (TASK_MAX - 2));
      states, steps := ReadyQueueOverflows(states, steps, 0, 0);
    }
  }

  /** No input comes for a task between its registering the waker and the end of that round of its poll. */
  ghost predicate Calm(states: seq<State>, steps: seq<Step>) {
    && |states| == |steps| + 1
    && forall i | 0 <= i < |steps| && steps[i].Input? :: !Registered(states[i].pc, steps[i].id)
  }

  /** A task is in the ready queue, or has its waker registered, or is being polled, and in the queue once. */
  ghost predicate Once(s: State) {
    && (forall a, b | 0 <= a < b < |s.taskQueue| :: s.taskQueue[a] != s.taskQueue[b])
    && (forall id | id in s.taskQueue :: id < |s.devices| && s.devices[id].waker == None && !Polling(s, id))
    && (forall id: nat | id < |s.devices| && Polling(s, id) && s.devices[id].waker.Some? :: Registered(s.pc, id))
  }

  lemma OnceInterrupt(s: State, id: nat, data: byte)
    requires Inv(s) && Once(s) && !s.pc.Panicked? && id < |s.devices| && !Registered(s.pc, id)
    ensures Once(Interrupt(s, id, data))
  {
    assert Awake(s, id);
  }

  lemma OnceAdvance(s: State)
    requires PcOk(s) && Once(s) && !s.pc.Panicked?
    ensures Once(Advance(s))
  {
    match s.pc
    case NextTask =>
      if s.taskQueue != [] {
        FirstIsGone(s.taskQueue);
      }
    case Register(id) => assert !(id in s.taskQueue);
    case SecondPop(id) => assert !(id in s.taskQueue);
    case TakeWaker(id, _) => assert !(id in s.taskQueue);
    case _ =>
  }

  lemma FirstIsGone(q: seq<nat>)
    requires q != [] && forall a, b | 0 <= a < b < |q| :: q[a] != q[b]
    ensures q[0] in q && q[0] !in q[1..] && forall id | id in q[1..] :: id in q
  {}

  function At(q: seq<nat>, i: nat): nat {
    if i < |q| then q[i] else 0
  }

  lemma InvPc(s: State)
    requires Inv(s)
    ensures PcOk(s)
  {}

  lemma AtMostTwo(q: seq<nat>)
    requires (forall a, b | 0 <= a < b < |q| :: q[a] != q[b]) && forall id | id in q :: id < 2
    ensures |q| <= 2
  {
    assert forall k | 0 <= k < |q| :: q[k] in q;
    var a, b, c := At(q, 0), At(q, 1), At(q, 2);
  }

  /** In a run that is calm the ready queue never holds more than the two tasks, so no wakeup panics. */
  lemma {:induction false} CalmNeverOverflows(states: seq<State>, steps: seq<Step>, i: nat)
    requires Run(states, steps) && Calm(states, steps) && i <= |steps|
    ensures Once(states[i]) && |states[i].taskQueue| <= 2
  {
    hide Inv;
    RunInv(states, steps, i);
    if i > 0 {
      CalmNeverOverflows(states, steps, i - 1);
      RunInv(states, steps, i - 1);
      match steps[i - 1]
      case Input(id, data) => OnceInterrupt(states[i - 1], id, data);
      case Execute => InvPc(states[i - 1]); OnceAdvance(states[i - 1]);
      case OtherInterrupt =>
    }
    AtMostTwo(states[i].taskQueue);
  }

  /** When the kernel panics: at an input that is taken in and whose wakeup finds the ready queue full, or at one for
    * the serial device that finds 100 bytes waiting; the same input for the keyboard is dropped. */
  lemma PanicsExactly(states: seq<State>, steps: seq<Step>, i: nat)
    requires Run(states, steps) && i < |steps|
    ensures states[i + 1].pc.Panicked? <==>
      && steps[i].Input? && steps[i].id < |states[i].devices| && PolledBefore(states, steps, i, steps[i].id)
      && if Waiting(states, steps, i, steps[i].id) < 100 then
           states[i].devices[steps[i].id].waker.Some? && |states[i].taskQueue| >= 100
         else steps[i].id == 1
  {
    hide Inv, PolledBefore;
    assert Enabled(states[i], steps[i]);
    RunInv(states, steps, i);
    if steps[i].Input? {
      RunRecorded(states, steps, i, steps[i].id);
    }
  }

  // ---- The code itself

  ghost predicate SameDelivered(before: seq<Device>, after: seq<Device>) {
    |after| == |before| && forall i | 0 <= i < |before| :: after[i].delivered == before[i].delivered
  }

  /** The static queues and wakers, and the executor's ready queue.  What the code does to them is recorded as
    * a run of the state machine, so that all that holds of runs holds of the code. */
  class Input {
    var devices: seq<Device>
    var taskQueue: seq<nat>
    var pc: Pc
    ghost var states: seq<State>
    ghost var steps: seq<Step>

    ghost predicate Valid()
      reads this
    {
      Run(states, steps) && states[|steps|] == State(devices, taskQueue, pc) && PcOk(states[|steps|])
    }

    constructor ()
      ensures Valid() && steps == []
    {
      devices := [Device(Keyboard, false, [], None, [], []), Device(Serial, false, [], None, [], [])];
      taskQueue := [0, 1];
      pc := NextTask;
      states := [Boot()];
      steps := [];
    }

    ghost method Record(step: Step)
      requires Run(states, steps) && Enabled(states[|steps|], step)
      requires State(devices, taskQueue, pc) == Apply(states[|steps|], step)
      modifies this`states, this`steps
      ensures Valid() && steps == old(steps) + [step]
    {
      states := states + [State(devices, taskQueue, pc)];
      steps := steps + [step];
    }

    /** add_scancode and add_byte; false if the kernel panics. */
    method Add(id: nat, data: byte) returns (ok: bool)
      requires Valid() && pc != Panicked && id < |devices|
      modifies this
      ensures Valid() && steps == old(steps) + [Step.Input(id, data)]
      ensures ok <==> pc != Panicked
      ensures ok ==> pc == Resume(old(pc)) && SameDelivered(old(devices), devices)
      ensures |devices| == |old(devices)| && forall i | 0 <= i < |devices| && i != id :: devices[i] == old(devices)[i]
      ensures var d := old(devices)[id];
        if d.initialised && |d.queue| < 100 then
          && devices[id].queue == d.queue + [data] && devices[id].waker == None
          && taskQueue == old(taskQueue) + (if ok && d.waker.Some? then [d.waker.value] else [])
          && (ok <==> d.waker == None || |old(taskQueue)| < 100)
        else
          && devices[id] == d && taskQueue == old(taskQueue)
          && (ok <==> !d.initialised || d.kind.Keyboard?)
    {
      ok := true;
      pc := Resume(pc);
      var d := devices[id];
      if d.initialised {
        if |d.queue| < QUEUE_MAX {
          d := d.(queue := d.queue + [data], accepted := d.accepted + [data]);
          devices := devices[id := d];
          if d.waker.Some? {
            devices := devices[id := d.(waker := None)];
            if |taskQueue| >= TASK_MAX {
              pc := Panicked;
              ok := false;
            } else {
              taskQueue := taskQueue + [d.waker.value];
            }
          }
        } else if d.kind.Serial? {
          pc := Panicked;
          ok := false;
        }
      }
      Record(Step.Input(id, data));
    }

    /** The interrupts that come at one point of the code. */
    method Interrupts(arrivals: seq<(nat, byte)>) returns (ok: bool)
      requires Valid() && pc != Panicked && forall a | a in arrivals :: a.0 < |devices|
      modifies this
      ensures Valid() && old(steps) <= steps && (ok <==> pc != Panicked)
      ensures ok ==> SameDelivered(old(devices), devices) && (old(pc) != Halted ==> pc == old(pc))
    {
      for i := 0 to |arrivals|
        invariant Valid() && pc != Panicked && old(steps) <= steps && SameDelivered(old(devices), devices)
        invariant old(pc) != Halted ==> pc == old(pc)
      {
        assert arrivals[i] in arrivals;
        ok := Add(arrivals[i].0, arrivals[i].1);
        if !ok {
          return false;
        }
      }
      ok := true;
    }

    /** The first or the second pop of poll_next; a byte of the first is delivered at once. */
    method Pop(id: nat) returns (r: Option<byte>)
      requires Valid() && (pc == FirstPop(id) || pc == SecondPop(id))
      modifies this
      ensures Valid() && steps == old(steps) + [Execute]
      ensures id < |devices| && |devices| == old(|devices|) && devices[id].waker == old(devices)[id].waker
      ensures taskQueue == old(taskQueue)
      ensures old(pc) == FirstPop(id) ==>
        && pc == (if r.Some? then FirstPop(id) else Register(id))
        && devices[id].delivered == old(devices)[id].delivered + if r.Some? then [r.value] else []
      ensures old(pc) == SecondPop(id) ==>
        && pc == (if r.Some? then TakeWaker(id, r.value) else NextTask)
        && devices[id].delivered == old(devices)[id].delivered
      ensures r.None? ==> devices[id].queue == []
    {
      var d := devices[id];
      r := None;
      if d.queue != [] {
        r := Some(d.queue[0]);
        var delivered := if pc.FirstPop? then d.delivered + [d.queue[0]] else d.delivered;
        devices := devices[id := d.(queue := d.queue[1..], delivered := delivered)];
      }
      pc := if pc.FirstPop? then (if r.Some? then pc else Pc.Register(id))
            else (if r.Some? then Pc.TakeWaker(id, r.value) else NextTask);
      Record(Execute);
    }

    method RegisterWaker(id: nat)
      requires Valid() && pc == Pc.Register(id)
      modifies this
      ensures Valid() && steps == old(steps) + [Execute] && pc == SecondPop(id)
      ensures SameDelivered(old(devices), devices)
    {
      devices := devices[id := devices[id].(waker := Some(id))];
      pc := SecondPop(id);
      Record(Execute);
    }

    /** The waker is taken back, and the byte of the second pop delivered. */
    method Take(id: nat, got: byte)
      requires Valid() && pc == TakeWaker(id, got)
      modifies this
      ensures Valid() && steps == old(steps) + [Execute] && pc == FirstPop(id)
      ensures id < |devices| && |devices| == old(|devices|)
      ensures devices[id].delivered == old(devices)[id].delivered + [got]
    {
      devices := devices[id := devices[id].(waker := None, delivered := devices[id].delivered + [got])];
      pc := FirstPop(id);
      Record(Execute);
    }

    /** poll_next, with the interrupts that come before the registration, before the second pop, and before
      * the waker is taken back.  Pending is returned only with the waker registered or already used. */
    method PollNext(id: nat, gap1: seq<(nat, byte)>, gap2: seq<(nat, byte)>,
                    gap3: seq<(nat, byte)>) returns (r: Option<byte>, ok: bool)
      requires Valid() && pc == FirstPop(id) && forall a | a in gap1 + gap2 + gap3 :: a.0 < |devices|
      modifies this
      ensures Valid() && old(steps) <= steps && (ok <==> pc != Panicked)
      ensures id < old(|devices|)
      ensures ok && r.Some? ==>
        pc == FirstPop(id) && id < |devices| && devices[id].delivered == old(devices)[id].delivered + [r.value]
      ensures ok && r.None? ==>
        && pc == NextTask && id < |devices| && devices[id].queue == []
        && (devices[id].waker == Some(id) || id in taskQueue)
    {
      hide Run;
      r := Pop(id);
      if r.Some? {
        return r, true;
      }
      ok := Interrupts(gap1);
      if !ok {
        return;
      }
      RegisterWaker(id);
      ok := Interrupts(gap2);
      if !ok {
        return;
      }
      PendingIsAwake(states, steps, id);
      r := Pop(id);
      if r.None? {
        return;
      }
      ok := Interrupts(gap3);
      if !ok {
        return;
      }
      Take(id, r.value);
    }

    /** The pop of run_ready_tasks; the first poll of a task makes its queue. */
    method PopTask() returns (r: Option<nat>)
      requires Valid() && pc == NextTask
      modifies this
      ensures Valid() && steps == old(steps) + [Execute]
      ensures r.Some? ==> pc == FirstPop(r.value)
      ensures r.None? ==> pc == if old(taskQueue) == [] then CheckIdle else NextTask
    {
      r := None;
      if taskQueue == [] {
        pc := CheckIdle;
      } else {
        var id := taskQueue[0];
        taskQueue := taskQueue[1..];
        if id < |devices| {
          devices := devices[id := devices[id].(initialised := true)];
          pc := FirstPop(id);
          r := Some(id);
        }
      }
      Record(Execute);
    }

    /** sleep_if_idle: with interrupts off, halt only if the ready queue is empty. */
    method SleepIfIdle() returns (halted: bool)
      requires Valid() && pc == CheckIdle
      modifies this
      ensures Valid() && steps == old(steps) + [Execute]
      ensures pc == if halted then Halted else NextTask
      ensures halted ==> forall d | d in devices :: d.queue == []
    {
      halted := taskQueue == [];
      if halted {
        IdleMeansRead(states, steps);
      }
      pc := if halted then Halted else NextTask;
      Record(Execute);
    }
  }

  lemma PendingIsAwake(states: seq<State>, steps: seq<Step>, id: nat)
    requires Run(states, steps) && states[|steps|].pc == SecondPop(id)
    ensures var s := states[|steps|]; id < |s.devices| && (s.devices[id].waker == Some(id) || id in s.taskQueue)
  {
    RunInv(states, steps, |steps|);
    assert Awake(states[|steps|], id);
  }

  lemma IdleMeansRead(states: seq<State>, steps: seq<Step>)
    requires Run(states, steps) && states[|steps|].pc == CheckIdle && states[|steps|].taskQueue == []
    ensures forall d | d in states[|steps|].devices :: d.queue == []
  {
    RunInv(states, steps, |steps|);
    assert Awake(states[|steps|], 0) && Awake(states[|steps|], 1);
  }
}
