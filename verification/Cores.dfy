/**
  The cores of a machine as an interleaved step system: the ready barrier, start-up of secondary cores, bounded message
  queues with an interrupt behind them, and the physical console passed between VMs (vm.rs, vcpu.rs, virtdev/lapic.rs).
*/
module Cores {
  import opened Common
  import Wheels = TimerWheel

  type CoreId = nat

  const MAX_PENDING_MSG: nat := 100

  datatype Msg =
    | GrantConsole | CancelTimer(owner: CoreId, timer: nat) | StartVcpu(addr: nat) | GuestInterrupt(vector: nat)

  /** A message with its sender and how many messages that sender had sent before. */
  datatype Envelope = Envelope(msg: Msg, from: CoreId, number: nat, notify: bool)

  /** The two halves of the interrupt command register at a start-up command. */
  datatype IcrWrite = IcrWrite(high: nat, low: nat)

  /** Where a core is. `Handler(true)` has acknowledged the IPC interrupt and not yet taken its messages. */
  datatype Phase = Booting | AtBarrier | Waiting | Starting | InGuest | Handler(drain: bool) | Halted

  /**
    `batch` holds messages taken from the queue and not yet handled, `hand` a console taken from its slot and not yet
    sent, `notifying` the target of a send whose interrupt is still to come. `arrived` and `handled` record the messages
    put into the queue and dealt with so far, `launches` the entries into the guest from `launch`, and `commands` the
    start-up commands given. `wheel` is the core's timer wheel and `clock` its last reading of the time.
  */
  datatype Core = Core(
    vm: nat, phase: Phase, queue: seq<Envelope>, ipi: bool, batch: seq<Envelope>, hand: bool,
    notifying: Option<CoreId>, icr: Option<nat>, selector: Option<nat>, sends: nat, launches: nat,
    arrived: seq<Envelope>, handled: seq<Envelope>, commands: seq<IcrWrite>, wheel: Wheels.Wheel, clock: nat)

  datatype State = State(
    cores: map<CoreId, Core>, bsps: seq<CoreId>, sizes: seq<nat>, slots: seq<bool>, ready: seq<nat>, lost: bool)

  /**
    One step of one core. The interrupts that a write of the low half of the interrupt command register asks for are
    `SendInterrupt` steps before `WriteIcrOther`, which forgets the destination; so are those a device routes.
    `UseWheel` registers a timer of the core, expires its elapsed timers, or removes one of its own.
  */
  datatype Step =
    | NotifyReady(c: CoreId)
    | PassBarrier(c: CoreId)
    | Poll(c: CoreId)
    | Launch(c: CoreId)
    | Exit(c: CoreId, ipc: bool)
    | Drain(c: CoreId)
    | Handle(c: CoreId)
    | TakeConsole(c: CoreId)
    | PassConsole(c: CoreId)
    | WriteIcrHigh(c: CoreId, value: nat)
    | WriteIcrOther(c: CoreId, value: nat)
    | WriteIcrStartup(c: CoreId, value: nat)
    | SendInterrupt(c: CoreId, dst: CoreId, vector: nat)
    | SendCancel(c: CoreId, owner: CoreId, timer: nat)
    | UseWheel(c: CoreId, op: Wheels.Op)
    | Interrupt(c: CoreId)
    | Resume(c: CoreId)

  // What happens to one core.

  /** One turn of the loop of `wait_for_init`: a start message sets the code selector, any other is dropped. */
  function Polled(x: Core): Core
    requires x.queue != []
  {
    var e := x.queue[0];
    var rest := x.(queue := x.queue[1..], handled := x.handled + [e]);
    if e.msg.StartVcpu? then rest.(selector := Some(e.msg.addr / 16), phase := Starting) else rest
  }

  /** `recv_all_msgs`: the whole queue at once. */
  function Drained(x: Core): Core {
    x.(phase := Handler(false), batch := x.queue, queue := [])
  }

  /** One message of the batch is dealt with. */
  function Popped(x: Core): Core
    requires x.batch != []
  {
    x.(batch := x.batch[1..], handled := x.handled + [x.batch[0]])
  }

  /** `remove_timer` for a timer of this core. */
  function Cancelled(x: Core, timer: nat): Core {
    x.(wheel := x.wheel.(timers := x.wheel.timers - {timer}))
  }

  /** One message of the batch is dealt with, and the timer it cancels here is gone. */
  function Handled(x: Core, c: CoreId): Core
    requires x.batch != []
  {
    match x.batch[0].msg
    case CancelTimer(owner, timer) => if owner == c then Cancelled(Popped(x), timer) else Popped(x)
    case _ => Popped(x)
  }

  ghost function Ticked(x: Core, op: Wheels.Op): Core
    requires x.wheel.freq > 0
  {
    x.(wheel := Wheels.Step(x.wheel, op), clock := Wheels.ClockAfter(x.clock, op))
  }

  function Commanding(x: Core, low: nat): Core
    requires x.icr.Some?
  {
    x.(icr := None, commands := x.commands + [IcrWrite(x.icr.value, low)])
  }

  function Received(x: Core, e: Envelope): Core {
    x.(queue := x.queue + [e], arrived := x.arrived + [e])
  }

  function Sent(x: Core, notify: Option<CoreId>): Core {
    x.(sends := x.sends + 1, hand := false, notifying := notify)
  }

  /** An error from an exit handler panics, and the core stops. */
  function Stopped(x: Core): Core {
    x.(phase := Halted, hand := false)
  }

  // What happens to the machine.

  function Update(s: State, c: CoreId, x: Core): State {
    s.(cores := s.cores[c := x])
  }

  predicate CanReceive(s: State, dst: CoreId) {
    dst in s.cores && |s.cores[dst].queue| < MAX_PENDING_MSG
  }

  /** `send_msg_core` up to its interrupt: an unknown core or a full queue is an error and the message is dropped. */
  function Send(s: State, c: CoreId, dst: CoreId, msg: Msg, notify: bool): State
    requires c in s.cores
  {
    if CanReceive(s, dst) then
      var s1 := Update(s, dst, Received(s.cores[dst], Envelope(msg, c, s.cores[c].sends, notify)));
      Update(s1, c, Sent(s1.cores[c], if notify then Some(dst) else None))
    else
      Update(s, c, Stopped(s.cores[c])).(lost := s.lost || msg.GrantConsole?)
  }

  predicate IsBsp(s: State, c: CoreId) {
    c in s.cores && s.cores[c].vm < |s.bsps| && s.bsps[s.cores[c].vm] == c
  }

  /** Every VM has a first core, and cores belong to VMs. */
  ghost predicate Layout(s: State) {
    && |s.bsps| == |s.slots| == |s.ready| == |s.sizes| > 0
    && (forall c :: c in s.cores ==> s.cores[c].vm < |s.bsps|)
    && (forall v :: 0 <= v < |s.bsps| ==> s.bsps[v] in s.cores && s.cores[s.bsps[v]].vm == v)
  }

  /** The destination field of the high half of the interrupt command register. */
  function DestinationOf(value: nat): CoreId {
    value / 0x100_0000
  }

  const START_UP: nat := 6

  /** The delivery mode in the low half. */
  function ModeOf(value: nat): nat {
    value / 256 % 8
  }

  predicate Busy(x: Core) {
    x.phase == Handler(false) && x.notifying.None?
  }

  /** In an exit handler, past the message loop. */
  predicate Free(x: Core) {
    Busy(x) && x.batch == [] && !x.hand
  }

  ghost predicate Enabled(s: State, st: Step) {
    && Layout(s) && st.c in s.cores
    && var x := s.cores[st.c];
    match st
    case NotifyReady(_) => x.phase == Booting
    case PassBarrier(_) => x.phase == AtBarrier && s.ready[x.vm] == s.sizes[x.vm]
    case Poll(_) => x.phase == Waiting && x.queue != []
    case Launch(_) => x.phase == Starting
    case Exit(_, ipc) => x.phase == InGuest && (ipc ==> x.ipi)
    case Drain(_) => x.phase == Handler(true)
    case Handle(_) => Busy(x) && x.batch != []
    case TakeConsole(_) => Free(x)
    case PassConsole(_) => Busy(x) && x.batch == [] && x.hand
    case WriteIcrHigh(_, _) => Free(x)
    case WriteIcrOther(_, value) => Free(x) && ModeOf(value) != START_UP
    case WriteIcrStartup(_, value) => Free(x) && ModeOf(value) == START_UP
    case SendInterrupt(_, _, _) => Free(x)
    case SendCancel(c, owner, _) => Free(x) && owner != c
    case UseWheel(_, op) => Free(x) && x.wheel.freq > 0 && Wheels.Timely(x.wheel, x.clock, op)
    case Interrupt(_) => x.phase == Handler(false) && x.notifying.Some?
    case Resume(_) => Free(x)
  }

  function Next(s: State, c: CoreId): CoreId
    requires c in s.cores && |s.bsps| > 0
  {
    s.bsps[(s.cores[c].vm + 1) % |s.bsps|]
  }

  /** The message loop of `handle_ipc`, one message. */
  function AfterHandle(s: State, c: CoreId): State
    requires c in s.cores && s.cores[c].batch != [] && s.cores[c].vm < |s.slots|
  {
    var x := s.cores[c];
    var s1 := Update(s, c, Handled(x, c));
    match x.batch[0].msg
    case GrantConsole => s1.(slots := s.slots[x.vm := true])
    case CancelTimer(owner, timer) => if owner == c then s1 else Send(s1, c, owner, x.batch[0].msg, true)
    case StartVcpu(_) => s1
    case GuestInterrupt(_) => s1
  }

  function AfterStartup(s: State, c: CoreId, value: nat): State
    requires c in s.cores
  {
    var x := s.cores[c];
    if x.icr.None? then s
    else Send(Update(s, c, Commanding(x, value)), c, DestinationOf(x.icr.value), StartVcpu(value % 256 * 4096), false)
  }

  function AfterInterrupt(s: State, c: CoreId): State
    requires c in s.cores && s.cores[c].notifying.Some?
  {
    var dst := s.cores[c].notifying.value;
    var s1 := Update(s, c, s.cores[c].(notifying := None));
    if dst in s1.cores then Update(s1, dst, s1.cores[dst].(ipi := true)) else s1
  }

  ghost function Apply(s: State, st: Step): State
    requires Enabled(s, st)
  {
    var c, x := st.c, s.cores[st.c];
    match st
    case NotifyReady(_) => Update(s, c, x.(phase := AtBarrier)).(ready := s.ready[x.vm := s.ready[x.vm] + 1])
    case PassBarrier(_) => Update(s, c, x.(phase := if IsBsp(s, c) then Starting else Waiting))
    case Poll(_) => Update(s, c, Polled(x))
    case Launch(_) => Update(s, c, x.(phase := InGuest, launches := x.launches + 1))
    case Exit(_, ipc) => Update(s, c, x.(phase := Handler(ipc), ipi := x.ipi && !ipc))
    case Drain(_) => Update(s, c, Drained(x))
    case Handle(_) => AfterHandle(s, c)
    case TakeConsole(_) =>
      if s.slots[x.vm] then Update(s, c, x.(hand := true)).(slots := s.slots[x.vm := false])
      else Update(s, c, Stopped(x))
    case PassConsole(_) => Send(s, c, Next(s, c), GrantConsole, true)
    case WriteIcrHigh(_, value) => Update(s, c, x.(icr := Some(value)))
    case WriteIcrOther(_, _) => Update(s, c, x.(icr := None))
    case WriteIcrStartup(_, value) => AfterStartup(s, c, value)
    case SendInterrupt(_, dst, vector) => Send(s, c, dst, GuestInterrupt(vector), true)
    case SendCancel(_, owner, timer) => Send(s, c, owner, CancelTimer(owner, timer), true)
    case UseWheel(_, op) => Update(s, c, Ticked(x, op))
    case Interrupt(_) => AfterInterrupt(s, c)
    case Resume(_) => Update(s, c, x.(phase := InGuest))
  }

  ghost predicate IsRun(s: State, run: seq<Step>)
    decreases |run|
  {
    run == [] || (Enabled(s, run[0]) && IsRun(Apply(s, run[0]), run[1..]))
  }

  ghost function After(s: State, run: seq<Step>): State
    requires IsRun(s, run)
    decreases |run|
  {
    if run == [] then s else After(Apply(s, run[0]), run[1..])
  }

  // What every core keeps: its messages, its phase, and how it was started.

  ghost predicate NoStart(q: seq<Envelope>) {
    forall i :: 0 <= i < |q| ==> !q[i].msg.StartVcpu?
  }

  /** The code selector comes from the first start message that arrived. */
  ghost predicate StartedAt(x: Core, i: nat) {
    && i < |x.handled| && x.handled[i].msg.StartVcpu? && NoStart(x.handled[..i])
    && x.selector == Some(x.handled[i].msg.addr / 16)
  }

  predicate Running(p: Phase) {
    p.InGuest? || p.Handler? || p.Halted?
  }

  ghost predicate CoreOk(x: Core, bsp: bool) {
    && x.arrived == x.handled + x.batch + x.queue
    && |x.queue| <= MAX_PENDING_MSG
    && (x.batch != [] ==> x.phase == Handler(false) || x.phase == Halted)
    && (x.notifying.Some? ==> x.phase == Handler(false))
    && (x.hand ==> x.phase == Handler(false) && x.batch == [] && x.notifying.None?)
    && x.launches == (if Running(x.phase) then 1 else 0)
    && (bsp ==> !x.phase.Waiting?)
    && (!bsp && (Running(x.phase) || x.phase.Starting?) ==> exists i: nat :: StartedAt(x, i))
    && (!bsp && !Running(x.phase) && !x.phase.Starting? ==> NoStart(x.handled))
    && x.wheel.freq > 0 && (!Running(x.phase) ==> x.wheel.counter == 0)
  }

  ghost predicate CoresOk(s: State) {
    Layout(s) && forall c :: c in s.cores ==> CoreOk(s.cores[c], IsBsp(s, c))
  }

  lemma UpdateOk(s: State, c: CoreId, x: Core)
    requires CoresOk(s) && c in s.cores && x.vm == s.cores[c].vm && CoreOk(x, IsBsp(s, c))
    ensures CoresOk(Update(s, c, x))
  {
    UpdateLayout(s, c, x);
    hide CoreOk, Layout, IsBsp;
    var s' := Update(s, c, x);
    forall d | d in s'.cores ensures CoreOk(s'.cores[d], IsBsp(s', d)) {
      assert IsBsp(s', d) == IsBsp(s, d);
    }
  }

  lemma UpdateLayout(s: State, c: CoreId, x: Core)
    requires Layout(s) && c in s.cores && x.vm == s.cores[c].vm
    ensures Layout(Update(s, c, x))
    ensures forall d :: d in s.cores ==> IsBsp(Update(s, c, x), d) == IsBsp(s, d)
  {
  }

  /** Slots and counters are not part of it. */
  lemma SharedOk(s: State, s': State)
    requires CoresOk(s) && s'.cores == s.cores && s'.bsps == s.bsps && s'.sizes == s.sizes
    requires |s'.slots| == |s.slots| && |s'.ready| == |s.ready|
    ensures CoresOk(s')
  {
    hide CoreOk;
    assert forall d :: d in s.cores ==> IsBsp(s', d) == IsBsp(s, d);
  }

  lemma HandledSoFar(x: Core, y: Core, bsp: bool)
    requires CoreOk(x, bsp) && y.handled == x.handled && y.selector == x.selector && Running(y.phase)
    requires Running(x.phase) || x.phase.Starting?
    ensures !bsp ==> exists i: nat :: StartedAt(y, i)
  {
    if !bsp {
      var i: nat :| StartedAt(x, i);
      assert StartedAt(y, i);
    }
  }

  lemma ReceivedOk(x: Core, e: Envelope, bsp: bool)
    requires CoreOk(x, bsp) && |x.queue| < MAX_PENDING_MSG
    ensures CoreOk(Received(x, e), bsp)
  {
    var y := Received(x, e);
    assert y.arrived == y.handled + y.batch + y.queue;
    if !bsp && (Running(x.phase) || x.phase.Starting?) {
      var i: nat :| StartedAt(x, i);
      assert StartedAt(y, i);
    }
  }

  lemma PolledOk(x: Core)
    requires CoreOk(x, false) && x.phase == Waiting && x.queue != []
    ensures CoreOk(Polled(x), false)
  {
    var y := Polled(x);
    assert y.arrived == y.handled + y.batch + y.queue by {
      assert x.queue == [x.queue[0]] + x.queue[1..];
    }
    if y.phase.Starting? {
      assert y.handled[..|x.handled|] == x.handled;
      assert StartedAt(y, |x.handled|);
    }
  }

  lemma PoppedOk(x: Core, bsp: bool)
    requires CoreOk(x, bsp) && x.phase == Handler(false) && x.batch != [] && x.notifying.None?
    ensures CoreOk(Popped(x), bsp)
  {
    var y := Popped(x);
    assert y.arrived == y.handled + y.batch + y.queue by {
      assert x.batch == [x.batch[0]] + x.batch[1..];
    }
    if !bsp {
      var i: nat :| StartedAt(x, i);
      assert y.handled[..i] == x.handled[..i];
      assert StartedAt(y, i);
    }
  }

  lemma LocalOk(x: Core, y: Core, bsp: bool)
    requires CoreOk(x, bsp) && x.phase == Handler(false) && Running(y.phase) && y.launches == x.launches
    requires y.arrived == x.arrived && y.handled == x.handled && y.selector == x.selector && y.queue == x.queue
    requires y.wheel.freq > 0 && y.batch == x.batch
    requires (y.batch != [] ==> y.phase == Handler(false) || y.phase == Halted)
    requires y.notifying.Some? ==> y.phase == Handler(false)
    requires y.hand ==> y.phase == Handler(false) && y.batch == [] && y.notifying.None?
    ensures CoreOk(y, bsp)
  {
    HandledSoFar(x, y, bsp);
  }

  lemma SendOk(s: State, c: CoreId, dst: CoreId, msg: Msg, notify: bool)
    requires CoresOk(s) && c in s.cores && Busy(s.cores[c])
    ensures CoresOk(Send(s, c, dst, msg, notify))
  {
    var bsp := IsBsp(s, c);
    if CanReceive(s, dst) {
      var e := Envelope(msg, c, s.cores[c].sends, notify);
      ReceivedOk(s.cores[dst], e, IsBsp(s, dst));
      UpdateOk(s, dst, Received(s.cores[dst], e));
      var s1 := Update(s, dst, Received(s.cores[dst], e));
      var y := Sent(s1.cores[c], if notify then Some(dst) else None);
      LocalOk(s1.cores[c], y, bsp);
      hide CoreOk, CoresOk, Layout;
      UpdateOk(s1, c, y);
    } else {
      var y := Stopped(s.cores[c]);
      LocalOk(s.cores[c], y, bsp);
      hide CoreOk, CoresOk, Layout;
      UpdateOk(s, c, y);
      SharedOk(Update(s, c, y), Send(s, c, dst, msg, notify));
    }
  }

  /**
    What a send does: to a core of the machine with fewer than a hundred messages waiting it appends the message to
    that queue and changes no other; to any other core it appends nothing, and the sender stops.
  */
  lemma SendMeans(s: State, c: CoreId, dst: CoreId, msg: Msg, notify: bool, d: CoreId)
    requires c in s.cores && d in s.cores
    ensures var s', q := Send(s, c, dst, msg, notify), s.cores[d].queue;
            && d in s'.cores
            && (if dst in s.cores && |s.cores[dst].queue| < 100 then
                  && s'.cores[d].queue == (if d == dst then q + [Envelope(msg, c, s.cores[c].sends, notify)] else q)
                  && s'.cores[d].phase == s.cores[d].phase
                else
                  s'.cores[d].queue == q && s'.cores[d].phase == if d == c then Halted else s.cores[d].phase)
  {
  }

  predicate Sends(st: Step) {
    st.PassConsole? || st.WriteIcrStartup? || st.SendInterrupt? || st.SendCancel?
  }

  lemma SendStepOk(s: State, st: Step)
    requires CoresOk(s) && Enabled(s, st) && Sends(st)
    ensures CoresOk(Apply(s, st))
  {
    hide CoresOk, Send;
    var c, x := st.c, s.cores[st.c];
    match st {
      case PassConsole(_) => SendOk(s, c, Next(s, c), GrantConsole, true);
      case WriteIcrStartup(_, value) => StartupOk(s, c, value);
      case SendInterrupt(_, dst, vector) => SendOk(s, c, dst, GuestInterrupt(vector), true);
      case SendCancel(_, owner, timer) => SendOk(s, c, owner, CancelTimer(owner, timer), true);
    }
  }

  lemma StartupOk(s: State, c: CoreId, value: nat)
    requires CoresOk(s) && c in s.cores && Free(s.cores[c])
    ensures CoresOk(AfterStartup(s, c, value))
  {
    var x := s.cores[c];
    if x.icr.Some? {
      var y := Commanding(x, value);
      LocalOk(x, y, IsBsp(s, c));
      UpdateOk(s, c, y);
      hide CoreOk, CoresOk, Layout, Send;
      SendOk(Update(s, c, y), c, DestinationOf(x.icr.value), StartVcpu(value % 256 * 4096), false);
    }
  }

  lemma HandleOk(s: State, c: CoreId)
    requires CoresOk(s) && c in s.cores && Busy(s.cores[c]) && s.cores[c].batch != []
    ensures CoresOk(AfterHandle(s, c))
  {
    var x := s.cores[c];
    PoppedOk(x, IsBsp(s, c));
    LocalOk(Popped(x), Handled(x, c), IsBsp(s, c));
    UpdateOk(s, c, Handled(x, c));
    hide CoreOk, CoresOk, Send;
    var s1 := Update(s, c, Handled(x, c));
    match x.batch[0].msg {
      case GrantConsole => SharedOk(s1, AfterHandle(s, c));
      case CancelTimer(owner, _) => if owner != c { SendOk(s1, c, owner, x.batch[0].msg, true); }
      case _ =>
    }
  }

  lemma InterruptOk(s: State, c: CoreId)
    requires CoresOk(s) && c in s.cores && s.cores[c].phase == Handler(false) && s.cores[c].notifying.Some?
    ensures CoresOk(AfterInterrupt(s, c))
  {
    var x := s.cores[c];
    var y := x.(notifying := None);
    LocalOk(x, y, IsBsp(s, c));
    UpdateOk(s, c, y);
    var s1 := Update(s, c, y);
    var dst := x.notifying.value;
    if dst in s1.cores {
      SignalOk(s1.cores[dst], IsBsp(s1, dst));
      hide CoreOk, CoresOk, Layout;
      UpdateOk(s1, dst, s1.cores[dst].(ipi := true));
    }
  }

  lemma SignalOk(x: Core, bsp: bool)
    requires CoreOk(x, bsp)
    ensures CoreOk(x.(ipi := true), bsp)
  {
    if !bsp && (Running(x.phase) || x.phase.Starting?) {
      var i: nat :| StartedAt(x, i);
      assert StartedAt(x.(ipi := true), i);
    }
  }

  /** What a step that sends nothing makes of its own core. */
  ghost function Own(s: State, st: Step): Core
    requires Enabled(s, st) && !Sends(st) && !st.Handle? && !st.Interrupt?
  {
    var x := s.cores[st.c];
    match st
    case NotifyReady(_) => x.(phase := AtBarrier)
    case PassBarrier(_) => x.(phase := if IsBsp(s, st.c) then Starting else Waiting)
    case Poll(_) => Polled(x)
    case Launch(_) => x.(phase := InGuest, launches := x.launches + 1)
    case Exit(_, ipc) => x.(phase := Handler(ipc), ipi := x.ipi && !ipc)
    case Drain(_) => Drained(x)
    case TakeConsole(_) => if s.slots[x.vm] then x.(hand := true) else Stopped(x)
    case WriteIcrHigh(_, value) => x.(icr := Some(value))
    case WriteIcrOther(_, _) => x.(icr := None)
    case UseWheel(_, op) => Ticked(x, op)
    case Resume(_) => x.(phase := InGuest)
  }

  lemma DrainedOk(x: Core, bsp: bool)
    requires CoreOk(x, bsp) && x.phase == Handler(true)
    ensures CoreOk(Drained(x), bsp)
  {
    var y := Drained(x);
    assert y.arrived == y.handled + y.batch + y.queue;
    HandledSoFar(x, y, bsp);
  }

  lemma OwnOk(s: State, st: Step)
    requires CoresOk(s) && Enabled(s, st) && !Sends(st) && !st.Handle? && !st.Interrupt?
    ensures Own(s, st).vm == s.cores[st.c].vm && CoreOk(Own(s, st), IsBsp(s, st.c))
  {
    var x := s.cores[st.c];
    var bsp := IsBsp(s, st.c);
    assert CoreOk(x, bsp);
    hide Layout, CoresOk, Drained, Polled, Wheels.Timely, Wheels.Expired, Wheels.ClockAfter;
    match st {
      case Poll(_) => PolledOk(x);
      case Drain(_) => DrainedOk(x, bsp);
      case Launch(_) => HandledSoFar(x, Own(s, st), bsp);
      case Exit(_, _) => HandledSoFar(x, Own(s, st), bsp);
      case TakeConsole(_) => HandledSoFar(x, Own(s, st), bsp);
      case WriteIcrHigh(_, _) => HandledSoFar(x, Own(s, st), bsp);
      case WriteIcrOther(_, _) => HandledSoFar(x, Own(s, st), bsp);
      case UseWheel(_, _) => HandledSoFar(x, Own(s, st), bsp);
      case Resume(_) => HandledSoFar(x, Own(s, st), bsp);
      case _ =>
    }
  }

  lemma OwnIsApply(s: State, st: Step)
    requires Enabled(s, st) && !Sends(st) && !st.Handle? && !st.Interrupt?
    ensures var s', u := Apply(s, st), Update(s, st.c, Own(s, st));
            && s'.cores == u.cores && s'.bsps == s.bsps && s'.sizes == s.sizes && s'.lost == s.lost
            && |s'.slots| == |s.slots| && |s'.ready| == |s.ready| && (!st.NotifyReady? ==> s'.ready == s.ready)
  {
    hide Polled, Drained, Stopped;
  }

  /** Every step keeps what every core keeps. */
  lemma StepOk(s: State, st: Step)
    requires CoresOk(s) && Enabled(s, st)
    ensures CoresOk(Apply(s, st))
  {
    if Sends(st) {
      SendStepOk(s, st);
    } else if st.Handle? {
      HandleOk(s, st.c);
    } else if st.Interrupt? {
      InterruptOk(s, st.c);
    } else {
      OwnOk(s, st);
      OwnIsApply(s, st);
      hide CoresOk, CoreOk, Own, Apply, Layout;
      UpdateOk(s, st.c, Own(s, st));
      SharedOk(Update(s, st.c, Own(s, st)), Apply(s, st));
    }
  }

  // Messages: whom they are for, and in which order they come.

  ghost predicate MsgFor(s: State, c: CoreId, msg: Msg) {
    match msg
    case GrantConsole => IsBsp(s, c)
    case CancelTimer(owner, _) => owner == c
    case StartVcpu(addr) => addr % 4096 == 0 && addr / 4096 < 256
    case GuestInterrupt(_) => true
  }

  /** The core gave a start-up command with this destination and this page. */
  ghost predicate Commanded(x: Core, c: CoreId, addr: nat) {
    exists k :: 0 <= k < |x.commands| && DestinationOf(x.commands[k].high) == c &&
                ModeOf(x.commands[k].low) == START_UP && addr == x.commands[k].low % 256 * 4096
  }

  ghost predicate EnvelopeOk(s: State, c: CoreId, e: Envelope) {
    && e.from in s.cores && e.number < s.cores[e.from].sends && MsgFor(s, c, e.msg)
    && (e.msg.StartVcpu? ==> Commanded(s.cores[e.from], c, e.msg.addr))
  }

  /** Messages of one sender are in the order it sent them. */
  ghost predicate InOrder(q: seq<Envelope>) {
    forall i, j :: 0 <= i < j < |q| && q[i].from == q[j].from ==> q[i].number < q[j].number
  }

  ghost predicate MailTo(s: State, c: CoreId)
    requires c in s.cores
  {
    && InOrder(s.cores[c].arrived)
    && forall i :: 0 <= i < |s.cores[c].arrived| ==> EnvelopeOk(s, c, s.cores[c].arrived[i])
  }

  ghost predicate MailOk(s: State) {
    forall c :: c in s.cores ==> MailTo(s, c)
  }

  predicate SameLetters(x: Core, y: Core) {
    y.vm == x.vm && y.arrived == x.arrived && y.sends == x.sends && x.commands <= y.commands
  }

  /** No mail, no sends. */
  ghost predicate SameMail(s: State, s': State) {
    && s'.bsps == s.bsps && s'.cores.Keys == s.cores.Keys
    && forall d :: d in s.cores ==> SameLetters(s.cores[d], s'.cores[d])
  }

  lemma SameMailOk(s: State, s': State)
    requires MailOk(s) && SameMail(s, s')
    ensures MailOk(s')
  {
    hide InOrder;
    forall c | c in s'.cores ensures MailTo(s', c) {
      assert MailTo(s, c);
      forall i | 0 <= i < |s'.cores[c].arrived| ensures EnvelopeOk(s', c, s'.cores[c].arrived[i]) {
        EnvelopeStays(s, s', c, s.cores[c].arrived[i]);
      }
    }
  }

  lemma InOrderNext(q: seq<Envelope>, e: Envelope)
    requires InOrder(q) && forall i :: 0 <= i < |q| && q[i].from == e.from ==> q[i].number < e.number
    ensures InOrder(q + [e])
  {
  }

  lemma EnvelopeStays(s: State, s': State, c: CoreId, e: Envelope)
    requires EnvelopeOk(s, c, e) && c in s.cores && s'.bsps == s.bsps && s'.cores.Keys == s.cores.Keys
    requires forall d :: d in s.cores ==> s'.cores[d].vm == s.cores[d].vm && s'.cores[d].sends >= s.cores[d].sends
    requires forall d :: d in s.cores ==> s.cores[d].commands <= s'.cores[d].commands
    ensures EnvelopeOk(s', c, e)
  {
    MsgForStays(s, s', c, e.msg);
    if e.msg.StartVcpu? { CommandedStays(s.cores[e.from], s'.cores[e.from], c, e.msg.addr); }
  }

  lemma CommandedStays(x: Core, y: Core, c: CoreId, addr: nat)
    requires Commanded(x, c, addr) && x.commands <= y.commands
    ensures Commanded(y, c, addr)
  {
    var k :| 0 <= k < |x.commands| && DestinationOf(x.commands[k].high) == c &&
      ModeOf(x.commands[k].low) == START_UP && addr == x.commands[k].low % 256 * 4096;
    assert y.commands[k] == x.commands[k];
  }

  lemma SendMail(s: State, c: CoreId, dst: CoreId, msg: Msg, notify: bool)
    requires MailOk(s) && c in s.cores && (dst in s.cores ==> MsgFor(s, dst, msg))
    requires msg.StartVcpu? ==> Commanded(s.cores[c], dst, msg.addr)
    ensures MailOk(Send(s, c, dst, msg, notify))
  {
    hide InOrder, MsgFor;
    var s' := Send(s, c, dst, msg, notify);
    if CanReceive(s, dst) {
      var e := Envelope(msg, c, s.cores[c].sends, notify);
      assert s'.cores.Keys == s.cores.Keys;
      forall d | d in s'.cores ensures MailTo(s', d) {
        assert MailTo(s, d);
        var q := s.cores[d].arrived;
        assert s'.cores[d].arrived == if d == dst then q + [e] else q;
        if d == dst {
          assert forall i :: 0 <= i < |q| ==> EnvelopeOk(s, d, q[i]);
          InOrderNext(q, e);
          MsgForStays(s, s', d, msg);
        }
        forall i | 0 <= i < |q| ensures EnvelopeOk(s', d, q[i]) {
          EnvelopeStays(s, s', d, q[i]);
        }
      }
    } else {
      SameMailOk(s, s');
    }
  }

  lemma MsgForStays(s: State, s': State, c: CoreId, msg: Msg)
    requires MsgFor(s, c, msg) && c in s.cores && c in s'.cores && s'.bsps == s.bsps && s'.cores[c].vm == s.cores[c].vm
    ensures MsgFor(s', c, msg)
  {
  }

  /** A cancellation is always handled on the core that owns the timer: it is never forwarded. */
  lemma CancelIsLocal(s: State, c: CoreId)
    requires CoresOk(s) && MailOk(s) && c in s.cores && s.cores[c].batch != []
    ensures s.cores[c].batch[0].msg.CancelTimer? ==> s.cores[c].batch[0].msg.owner == c
    ensures s.cores[c].batch[0].msg.GrantConsole? ==> IsBsp(s, c)
  {
    hide Layout, InOrder;
    var x := s.cores[c];
    assert CoreOk(x, IsBsp(s, c)) && MailTo(s, c);
    assert x.arrived[|x.handled|] == x.batch[0];
  }

  lemma UpdateMail(s: State, c: CoreId, x: Core, s': State)
    requires MailOk(s) && c in s.cores && SameLetters(s.cores[c], x)
    requires s'.cores == s.cores[c := x] && s'.bsps == s.bsps
    ensures MailOk(s')
  {
    assert SameMail(s, s');
    SameMailOk(s, s');
  }

  lemma OwnMail(s: State, st: Step)
    requires MailOk(s) && Enabled(s, st) && !Sends(st) && !st.Handle? && !st.Interrupt?
    ensures MailOk(Apply(s, st))
  {
    OwnIsApply(s, st);
    assert SameLetters(s.cores[st.c], Own(s, st)) by { hide Layout; }
    hide Apply, MailOk, Layout, Own;
    UpdateMail(s, st.c, Own(s, st), Apply(s, st));
  }

  lemma HandleMail(s: State, c: CoreId)
    requires CoresOk(s) && MailOk(s) && c in s.cores && s.cores[c].batch != []
    ensures MailOk(AfterHandle(s, c))
  {
    CancelIsLocal(s, c);
    hide MailOk, CoresOk;
    UpdateMail(s, c, Handled(s.cores[c], c), AfterHandle(s, c));
  }

  lemma InterruptMail(s: State, c: CoreId)
    requires MailOk(s) && c in s.cores && s.cores[c].notifying.Some?
    ensures MailOk(AfterInterrupt(s, c))
  {
    hide MailOk;
    var x := s.cores[c].(notifying := None);
    var s1 := Update(s, c, x);
    UpdateMail(s, c, x, s1);
    var dst := s.cores[c].notifying.value;
    if dst in s1.cores { UpdateMail(s1, dst, s1.cores[dst].(ipi := true), AfterInterrupt(s, c)); }
  }

  lemma StartAddress(value: nat)
    ensures value % 256 * 4096 % 4096 == 0 && value % 256 * 4096 / 4096 == value % 256
  {
  }

  lemma StartupMail(s: State, c: CoreId, value: nat)
    requires MailOk(s) && c in s.cores && ModeOf(value) == START_UP
    ensures MailOk(AfterStartup(s, c, value))
  {
    hide MailOk, Send, ModeOf;
    var x := s.cores[c];
    if x.icr.Some? {
      var y := Commanding(x, value);
      var s1 := Update(s, c, y);
      UpdateMail(s, c, y, s1);
      StartAddress(value);
      assert y.commands[|x.commands|] == IcrWrite(x.icr.value, value);
      SendMail(s1, c, DestinationOf(x.icr.value), StartVcpu(value % 256 * 4096), false);
    }
  }

  lemma SendStepMail(s: State, st: Step)
    requires MailOk(s) && Enabled(s, st) && Sends(st)
    ensures MailOk(Apply(s, st))
  {
    hide MailOk, Send;
    var c := st.c;
    match st {
      case PassConsole(_) =>
        assert IsBsp(s, Next(s, c));
        SendMail(s, c, Next(s, c), GrantConsole, true);
      case WriteIcrStartup(_, value) => StartupMail(s, c, value);
      case SendInterrupt(_, dst, vector) => SendMail(s, c, dst, GuestInterrupt(vector), true);
      case SendCancel(_, owner, timer) => SendMail(s, c, owner, CancelTimer(owner, timer), true);
    }
  }

  /** A new message has its place: a grant goes to a first core, a start address is a page of the low megabyte. */
  lemma StepMail(s: State, st: Step)
    requires CoresOk(s) && MailOk(s) && Enabled(s, st)
    ensures MailOk(Apply(s, st))
  {
    hide CoresOk, MailOk, AfterHandle, AfterInterrupt, Layout;
    if Sends(st) {
      SendStepMail(s, st);
    } else if st.Handle? {
      HandleMail(s, st.c);
    } else if st.Interrupt? {
      InterruptMail(s, st.c);
    } else {
      OwnMail(s, st);
    }
  }

  // No wake-up is lost.

  ghost predicate HasNotice(q: seq<Envelope>) {
    exists i :: 0 <= i < |q| && q[i].notify
  }

  /** An IPC interrupt is pending or the queue is about to be taken. */
  predicate Alert(x: Core) {
    x.ipi || x.phase == Handler(true)
  }

  /** Some sender has pushed a message for the core and is about to send its interrupt. */
  ghost predicate Announced(s: State, c: CoreId) {
    exists d :: d in s.cores && s.cores[d].notifying == Some(c)
  }

  ghost predicate WakeOk(s: State) {
    forall c :: c in s.cores && HasNotice(s.cores[c].queue) ==> Alert(s.cores[c]) || Announced(s, c)
  }

  /** A change to one core that announces as before, and gains no message and loses no alert it needs. */
  lemma UpdateWake(s: State, c: CoreId, x: Core, s': State)
    requires WakeOk(s) && c in s.cores && s'.cores == s.cores[c := x]
    requires s.cores[c].notifying.Some? ==> x.notifying == s.cores[c].notifying
    requires HasNotice(x.queue) ==> HasNotice(s.cores[c].queue) && (Alert(s.cores[c]) ==> Alert(x))
    ensures WakeOk(s')
  {
    hide HasNotice, Alert;
    forall d | d in s'.cores && HasNotice(s'.cores[d].queue) ensures Alert(s'.cores[d]) || Announced(s', d) {
      if Announced(s, d) {
        var e :| e in s.cores && s.cores[e].notifying == Some(d);
        assert e in s'.cores && s'.cores[e].notifying == Some(d);
      }
    }
  }

  lemma OwnWake(s: State, st: Step)
    requires CoresOk(s) && WakeOk(s) && Enabled(s, st) && !Sends(st) && !st.Handle? && !st.Interrupt?
    ensures WakeOk(Apply(s, st))
  {
    var x, y := s.cores[st.c], Own(s, st);
    OwnIsApply(s, st);
    assert CoreOk(x, IsBsp(s, st.c));
    hide Apply, WakeOk, CoresOk, Layout;
    if HasNotice(y.queue) {
      var i :| 0 <= i < |y.queue| && y.queue[i].notify;
      assert y.queue[i] == x.queue[if st.Poll? then i + 1 else i];
    }
    UpdateWake(s, st.c, y, Apply(s, st));
  }

  lemma SendWake(s: State, c: CoreId, dst: CoreId, msg: Msg, notify: bool)
    requires WakeOk(s) && c in s.cores && Busy(s.cores[c])
    ensures WakeOk(Send(s, c, dst, msg, notify))
  {
    var s' := Send(s, c, dst, msg, notify);
    if CanReceive(s, dst) {
      forall d | d in s'.cores && HasNotice(s'.cores[d].queue) ensures Alert(s'.cores[d]) || Announced(s', d) {
        if d == dst && notify {
          assert s'.cores[c].notifying == Some(d);
        } else {
          var i :| 0 <= i < |s'.cores[d].queue| && s'.cores[d].queue[i].notify;
          assert s.cores[d].queue[i].notify;
          if Announced(s, d) {
            var e :| e in s.cores && s.cores[e].notifying == Some(d);
            assert s'.cores[e].notifying == Some(d);
          }
        }
      }
    } else {
      hide WakeOk;
      UpdateWake(s, c, Stopped(s.cores[c]), s');
    }
  }

  lemma InterruptWake(s: State, c: CoreId)
    requires WakeOk(s) && c in s.cores && s.cores[c].notifying.Some?
    ensures WakeOk(AfterInterrupt(s, c))
  {
    var s' := AfterInterrupt(s, c);
    var dst := s.cores[c].notifying.value;
    hide HasNotice;
    forall d | d in s'.cores && HasNotice(s'.cores[d].queue) ensures Alert(s'.cores[d]) || Announced(s', d) {
      if d != dst && Announced(s, d) {
        var e :| e in s.cores && s.cores[e].notifying == Some(d);
        assert s'.cores[e].notifying == Some(d);
      }
    }
  }

  lemma StartupWake(s: State, c: CoreId, value: nat)
    requires WakeOk(s) && c in s.cores && Busy(s.cores[c])
    ensures WakeOk(AfterStartup(s, c, value))
  {
    hide WakeOk, Send, HasNotice;
    var x := s.cores[c];
    if x.icr.Some? {
      var s1 := Update(s, c, Commanding(x, value));
      UpdateWake(s, c, Commanding(x, value), s1);
      SendWake(s1, c, DestinationOf(x.icr.value), StartVcpu(value % 256 * 4096), false);
    }
  }

  lemma SendStepWake(s: State, st: Step)
    requires WakeOk(s) && Enabled(s, st) && Sends(st)
    ensures WakeOk(Apply(s, st))
  {
    hide WakeOk, Send, AfterStartup;
    var c := st.c;
    match st {
      case PassConsole(_) => SendWake(s, c, Next(s, c), GrantConsole, true);
      case WriteIcrStartup(_, value) => StartupWake(s, c, value);
      case SendInterrupt(_, dst, vector) => SendWake(s, c, dst, GuestInterrupt(vector), true);
      case SendCancel(_, owner, timer) => SendWake(s, c, owner, CancelTimer(owner, timer), true);
    }
  }

  lemma HandleWake(s: State, c: CoreId)
    requires CoresOk(s) && MailOk(s) && WakeOk(s) && c in s.cores && s.cores[c].batch != []
    ensures WakeOk(AfterHandle(s, c))
  {
    CancelIsLocal(s, c);
    hide MailOk, CoresOk, WakeOk, HasNotice;
    UpdateWake(s, c, Handled(s.cores[c], c), AfterHandle(s, c));
  }

  /** In every interleaving a core with a message it was to be told of is alerted, or is about to be. */
  lemma StepWake(s: State, st: Step)
    requires CoresOk(s) && MailOk(s) && WakeOk(s) && Enabled(s, st)
    ensures WakeOk(Apply(s, st))
  {
    hide CoresOk, MailOk, WakeOk, AfterHandle, AfterInterrupt, Layout;
    if Sends(st) {
      SendStepWake(s, st);
    } else if st.Handle? {
      HandleWake(s, st.c);
    } else if st.Interrupt? {
      InterruptWake(s, st.c);
    } else {
      OwnWake(s, st);
    }
  }

  // The console.

  /** Where a console can be: in a VM's slot, in a message that is queued or taken, or in the hands of a core. */
  datatype Place = InSlot(v: nat) | InQueue(c: CoreId, i: nat) | InBatch(c: CoreId, i: nat) | InHand(c: CoreId)

  predicate Has(s: State, p: Place) {
    match p
    case InSlot(v) => v < |s.slots| && s.slots[v]
    case InQueue(c, i) => c in s.cores && i < |s.cores[c].queue| && s.cores[c].queue[i].msg.GrantConsole?
    case InBatch(c, i) => c in s.cores && i < |s.cores[c].batch| && s.cores[c].batch[i].msg.GrantConsole?
    case InHand(c) => c in s.cores && s.cores[c].hand
  }

  /** The console is at one place and no other, or there is none. */
  ghost predicate ConsoleAt(s: State, o: Option<Place>) {
    forall p :: Has(s, p) <==> o == Some(p)
  }

  ghost predicate ConsoleOk(s: State) {
    exists o :: ConsoleAt(s, o) && (s.lost <==> o.None?)
  }

  /** A step that changes no place. */
  ghost predicate SamePlaces(s: State, s': State) {
    && s'.slots == s.slots && s'.lost == s.lost && s'.cores.Keys == s.cores.Keys
    && forall d :: d in s.cores ==>
         && s'.cores[d].queue == s.cores[d].queue && s'.cores[d].batch == s.cores[d].batch
         && s'.cores[d].hand == s.cores[d].hand
  }

  lemma SamePlacesAt(s: State, s': State, o: Option<Place>)
    requires ConsoleAt(s, o) && SamePlaces(s, s')
    ensures ConsoleAt(s', o)
  {
    assert forall p :: Has(s', p) == Has(s, p);
  }

  /** A step by which the console moves, or stays where it is. */
  function Moved(s: State, st: Step, o: Option<Place>): Option<Place>
    requires st.c in s.cores
  {
    var c := st.c;
    match o
    case Some(InQueue(d, i)) =>
      if st.Drain? && d == c then Some(InBatch(c, i))
      else if st.Poll? && d == c && i > 0 then Some(InQueue(c, i - 1)) else o
    case Some(InBatch(d, i)) =>
      if st.Handle? && d == c then if i == 0 then Some(InSlot(s.cores[c].vm)) else Some(InBatch(c, i - 1)) else o
    case Some(InSlot(v)) => if st.TakeConsole? && v == s.cores[c].vm then Some(InHand(c)) else o
    case _ => o
  }

  lemma DrainConsole(s: State, c: CoreId, o: Option<Place>)
    requires ConsoleAt(s, o) && c in s.cores && s.cores[c].batch == []
    ensures ConsoleAt(Update(s, c, Drained(s.cores[c])), Moved(s, Drain(c), o))
  {
    var s' := Update(s, c, Drained(s.cores[c]));
    forall p ensures Has(s', p) <==> Moved(s, Drain(c), o) == Some(p) {
      match p {
        case InBatch(d, i) => assert Has(s', p) == Has(s, if d == c then InQueue(c, i) else p);
        case InQueue(d, i) => assert d != c ==> Has(s', p) == Has(s, p);
        case _ => assert Has(s', p) == Has(s, p);
      }
    }
  }

  lemma PollConsole(s: State, c: CoreId, o: Option<Place>)
    requires ConsoleAt(s, o) && c in s.cores && s.cores[c].queue != [] && !s.cores[c].queue[0].msg.GrantConsole?
    ensures ConsoleAt(Update(s, c, Polled(s.cores[c])), Moved(s, Poll(c), o))
  {
    var s' := Update(s, c, Polled(s.cores[c]));
    assert !Has(s, InQueue(c, 0));
    forall p ensures Has(s', p) <==> Moved(s, Poll(c), o) == Some(p) {
      match p {
        case InQueue(d, i) => assert Has(s', p) == Has(s, if d == c then InQueue(c, i + 1) else p);
        case _ => assert Has(s', p) == Has(s, p);
      }
    }
  }

  lemma HandledPlaces(x: Core, c: CoreId)
    requires x.batch != []
    ensures Handled(x, c).queue == x.queue && Handled(x, c).batch == x.batch[1..] && Handled(x, c).hand == x.hand
  {
  }

  lemma HandleConsole(s: State, c: CoreId, o: Option<Place>)
    requires ConsoleAt(s, o) && c in s.cores && s.cores[c].batch != [] && s.cores[c].vm < |s.slots|
    requires s.cores[c].batch[0].msg.CancelTimer? ==> s.cores[c].batch[0].msg.owner == c
    ensures ConsoleAt(AfterHandle(s, c), Moved(s, Handle(c), o)) && AfterHandle(s, c).lost == s.lost
  {
    hide Handled, Send;
    HandledPlaces(s.cores[c], c);
    var s' := AfterHandle(s, c);
    var v := s.cores[c].vm;
    var grant := s.cores[c].batch[0].msg.GrantConsole?;
    assert grant == Has(s, InBatch(c, 0));
    forall p ensures Has(s', p) <==> Moved(s, Handle(c), o) == Some(p) {
      match p {
        case InBatch(d, i) => assert Has(s', p) == Has(s, if d == c then InBatch(c, i + 1) else p);
        case InSlot(w) => assert Has(s', p) == (if w == v && grant then true else Has(s, p));
        case _ => assert Has(s', p) == Has(s, p);
      }
    }
  }

  lemma TakeConsoleMoves(s: State, c: CoreId, o: Option<Place>, s': State)
    requires ConsoleAt(s, o) && c in s.cores && s.cores[c].vm < |s.slots| && s.slots[s.cores[c].vm]
    requires s'.cores == s.cores[c := s.cores[c].(hand := true)] && s'.slots == s.slots[s.cores[c].vm := false]
    ensures ConsoleAt(s', Moved(s, TakeConsole(c), o))
  {
    var v := s.cores[c].vm;
    assert Has(s, InSlot(v));
    assert o == Some(InSlot(v));
    forall p ensures Has(s', p) <==> p == InHand(c) {
      match p {
        case InSlot(w) => assert w != v ==> Has(s', p) == Has(s, p);
        case InHand(d) => assert d != c ==> Has(s', p) == Has(s, p);
        case _ => assert Has(s', p) == Has(s, p);
      }
    }
  }

  lemma SendOther(s: State, c: CoreId, dst: CoreId, msg: Msg, notify: bool, o: Option<Place>)
    requires ConsoleAt(s, o) && c in s.cores && !s.cores[c].hand && !msg.GrantConsole?
    ensures ConsoleAt(Send(s, c, dst, msg, notify), o) && Send(s, c, dst, msg, notify).lost == s.lost
  {
    var s' := Send(s, c, dst, msg, notify);
    forall p ensures Has(s', p) == Has(s, p) {
    }
  }

  /** The console goes from the hands of a core into a queue, or is dropped with the message. */
  lemma SendGrant(s: State, c: CoreId, dst: CoreId, o: Option<Place>)
    requires ConsoleAt(s, o) && c in s.cores && s.cores[c].hand && !s.lost
    ensures var s' := Send(s, c, dst, GrantConsole, true);
            if CanReceive(s, dst) then ConsoleAt(s', Some(InQueue(dst, |s.cores[dst].queue|))) && !s'.lost
            else ConsoleAt(s', None) && s'.lost
  {
    assert Has(s, InHand(c));
    assert o == Some(InHand(c));
    var s' := Send(s, c, dst, GrantConsole, true);
    if CanReceive(s, dst) {
      var n := |s.cores[dst].queue|;
      forall p ensures Has(s', p) <==> p == InQueue(dst, n) {
        if p != InQueue(dst, n) && p != InHand(c) { assert Has(s', p) == Has(s, p); }
      }
    } else {
      forall p ensures !Has(s', p) {
        if p != InHand(c) { assert Has(s', p) == Has(s, p); }
      }
    }
  }

  /** A console that is passed on is next in the queue of the first core of the next VM, in turn. */
  lemma GrantGoesToNextVm(s: State, c: CoreId)
    requires ConsoleOk(s) && Enabled(s, PassConsole(c)) && CanReceive(s, Next(s, c))
    ensures IsBsp(s, Next(s, c)) && s.cores[Next(s, c)].vm == (s.cores[c].vm + 1) % |s.bsps|
    ensures ConsoleAt(Apply(s, PassConsole(c)), Some(InQueue(Next(s, c), |s.cores[Next(s, c)].queue|)))
  {
    var o :| ConsoleAt(s, o) && (s.lost <==> o.None?);
    assert Has(s, InHand(c));
    SendGrant(s, c, Next(s, c), o);
  }

  predicate Still(st: Step) {
    st.NotifyReady? || st.PassBarrier? || st.Launch? || st.Exit? || st.WriteIcrHigh? || st.WriteIcrOther?
    || st.UseWheel? || st.Interrupt? || st.Resume?
  }

  lemma StillConsole(s: State, st: Step, o: Option<Place>)
    requires Enabled(s, st) && Still(st) && ConsoleAt(s, o)
    ensures ConsoleAt(Apply(s, st), o) && Apply(s, st).lost == s.lost
  {
    hide Layout, ConsoleAt, IsBsp;
    assert SamePlaces(s, Apply(s, st));
    SamePlacesAt(s, Apply(s, st), o);
  }

  lemma SendStepConsole(s: State, st: Step, o: Option<Place>) returns (o': Option<Place>)
    requires Enabled(s, st) && Sends(st) && ConsoleAt(s, o) && (s.lost <==> o.None?)
    ensures ConsoleAt(Apply(s, st), o') && (Apply(s, st).lost <==> o'.None?)
  {
    var c, x := st.c, s.cores[st.c];
    o' := o;
    match st {
      case PassConsole(_) =>
        assert Has(s, InHand(c));
        hide ConsoleAt, Send;
        SendGrant(s, c, Next(s, c), o);
        o' := if CanReceive(s, Next(s, c)) then Some(InQueue(Next(s, c), |s.cores[Next(s, c)].queue|)) else None;
      case WriteIcrStartup(_, value) =>
        hide ConsoleAt, Send;
        if x.icr.Some? {
          var s1 := Update(s, c, Commanding(x, value));
          assert SamePlaces(s, s1);
          SamePlacesAt(s, s1, o);
          SendOther(s1, c, DestinationOf(x.icr.value), StartVcpu(value % 256 * 4096), false, o);
        }
      case SendInterrupt(_, dst, vector) => SendOther(s, c, dst, GuestInterrupt(vector), true, o);
      case SendCancel(_, owner, timer) => SendOther(s, c, owner, CancelTimer(owner, timer), true, o);
    }
  }

  /** A waiting core drops no grant: grants go to first cores, and those do not wait. */
  lemma WaitingDropsNoConsole(s: State, c: CoreId)
    requires CoresOk(s) && MailOk(s) && c in s.cores && s.cores[c].phase == Waiting && s.cores[c].queue != []
    ensures !s.cores[c].queue[0].msg.GrantConsole? && !IsBsp(s, c)
  {
    hide Layout, InOrder;
    var x := s.cores[c];
    assert CoreOk(x, IsBsp(s, c)) && MailTo(s, c);
    assert x.arrived[|x.handled|] == x.queue[0];
  }

  /** A grant that is handled finds its slot empty. */
  lemma GrantOverwritesNothing(s: State, c: CoreId)
    requires ConsoleOk(s) && c in s.cores && s.cores[c].batch != [] && s.cores[c].batch[0].msg.GrantConsole?
    ensures s.cores[c].vm < |s.slots| ==> !s.slots[s.cores[c].vm]
  {
    var o :| ConsoleAt(s, o);
    assert Has(s, InBatch(c, 0));
    if s.cores[c].vm < |s.slots| { assert !Has(s, InSlot(s.cores[c].vm)); }
  }

  lemma LocalConsole(s: State, st: Step, o: Option<Place>)
    requires CoresOk(s) && MailOk(s) && Enabled(s, st) && ConsoleAt(s, o)
    requires st.Poll? || st.Drain? || st.Handle? || st.TakeConsole?
    ensures ConsoleAt(Apply(s, st), Moved(s, st, o)) && Apply(s, st).lost == s.lost
  {
    var c, x := st.c, s.cores[st.c];
    assert CoreOk(x, IsBsp(s, c));
    hide CoresOk, MailOk, ConsoleAt, Drained, Polled, AfterHandle;
    match st {
      case Poll(_) =>
        WaitingDropsNoConsole(s, c);
        PollConsole(s, c, o);
      case Drain(_) => DrainConsole(s, c, o);
      case Handle(_) =>
        CancelIsLocal(s, c);
        HandleConsole(s, c, o);
      case TakeConsole(_) =>
        if s.slots[x.vm] { TakeConsoleMoves(s, c, o, Apply(s, st)); } else { EmptyTake(s, st, o); }
    }
  }

  lemma EmptyTake(s: State, st: Step, o: Option<Place>)
    requires Enabled(s, st) && st.TakeConsole? && ConsoleAt(s, o) && !s.slots[s.cores[st.c].vm]
    ensures ConsoleAt(Apply(s, st), Moved(s, st, o)) && Apply(s, st).lost == s.lost
  {
    assert !Has(s, InSlot(s.cores[st.c].vm));
    hide ConsoleAt;
    assert SamePlaces(s, Apply(s, st));
    SamePlacesAt(s, Apply(s, st), o);
  }

  /** Every step leaves exactly one console while no grant has been dropped, and none after. */
  lemma StepConsole(s: State, st: Step)
    requires CoresOk(s) && MailOk(s) && ConsoleOk(s) && Enabled(s, st)
    ensures ConsoleOk(Apply(s, st))
  {
    hide CoresOk, MailOk, ConsoleAt, Layout, Apply, Enabled;
    var o :| ConsoleAt(s, o) && (s.lost <==> o.None?);
    if Sends(st) {
      var o' := SendStepConsole(s, st, o);
    } else if Still(st) {
      StillConsole(s, st, o);
    } else {
      LocalConsole(s, st, o);
    }
  }

  // The ready barrier.

  ghost function Members(s: State, v: nat): set<CoreId> {
    set c | c in s.cores && s.cores[c].vm == v
  }

  /** The cores of a VM that have called `notify_ready`. */
  ghost function Present(s: State, v: nat): set<CoreId> {
    set c | c in s.cores && s.cores[c].vm == v && s.cores[c].phase != Booting
  }

  predicate Past(p: Phase) {
    p != Booting && p != AtBarrier
  }

  ghost predicate BarrierOk(s: State) {
    && |s.ready| == |s.sizes|
    && (forall v :: 0 <= v < |s.ready| ==> s.ready[v] == |Present(s, v)| && s.sizes[v] == |Members(s, v)|)
    && (forall c :: c in s.cores && Past(s.cores[c].phase) ==>
          Present(s, s.cores[c].vm) == Members(s, s.cores[c].vm))
  }

  /** Nobody boots or notifies, and nobody new gets past the barrier. */
  ghost predicate SamePhases(s: State, s': State) {
    && s'.ready == s.ready && s'.sizes == s.sizes && s'.cores.Keys == s.cores.Keys
    && forall d :: d in s.cores ==>
         && s'.cores[d].vm == s.cores[d].vm
         && (s'.cores[d].phase == Booting <==> s.cores[d].phase == Booting)
         && (Past(s'.cores[d].phase) ==> Past(s.cores[d].phase))
  }

  lemma SamePhasesBarrier(s: State, s': State)
    requires BarrierOk(s) && SamePhases(s, s')
    ensures BarrierOk(s')
  {
    forall v: nat ensures Present(s', v) == Present(s, v) && Members(s', v) == Members(s, v) {
    }
  }

  predicate SamePhase(x: Core, y: Core) {
    y.vm == x.vm && (y.phase == Booting <==> x.phase == Booting) && (Past(y.phase) ==> Past(x.phase))
  }

  lemma UpdatePhases(s: State, c: CoreId, x: Core, s': State)
    requires BarrierOk(s) && c in s.cores && SamePhase(s.cores[c], x)
    requires s'.cores == s.cores[c := x] && s'.ready == s.ready && s'.sizes == s.sizes
    ensures BarrierOk(s')
  {
    hide BarrierOk;
    assert SamePhases(s, s');
    SamePhasesBarrier(s, s');
  }

  lemma SendBarrier(s: State, c: CoreId, dst: CoreId, msg: Msg, notify: bool)
    requires BarrierOk(s) && c in s.cores && s.cores[c].phase == Handler(false)
    ensures BarrierOk(Send(s, c, dst, msg, notify))
  {
    hide BarrierOk;
    var s' := Send(s, c, dst, msg, notify);
    if CanReceive(s, dst) {
      var r := Received(s.cores[dst], Envelope(msg, c, s.cores[c].sends, notify));
      var s1 := Update(s, dst, r);
      UpdatePhases(s, dst, r, s1);
      UpdatePhases(s1, c, Sent(s1.cores[c], if notify then Some(dst) else None), s');
    } else {
      UpdatePhases(s, c, Stopped(s.cores[c]), s');
    }
  }

  lemma SendStepBarrier(s: State, st: Step)
    requires BarrierOk(s) && Enabled(s, st) && Sends(st)
    ensures BarrierOk(Apply(s, st))
  {
    hide Send, BarrierOk;
    var c, x := st.c, s.cores[st.c];
    match st {
      case PassConsole(_) => SendBarrier(s, c, Next(s, c), GrantConsole, true);
      case WriteIcrStartup(_, value) =>
        if x.icr.Some? {
          var s1 := Update(s, c, Commanding(x, value));
          UpdatePhases(s, c, Commanding(x, value), s1);
          SendBarrier(s1, c, DestinationOf(x.icr.value), StartVcpu(value % 256 * 4096), false);
        }
      case SendInterrupt(_, dst, vector) => SendBarrier(s, c, dst, GuestInterrupt(vector), true);
      case SendCancel(_, owner, timer) => SendBarrier(s, c, owner, CancelTimer(owner, timer), true);
    }
  }

  lemma HandleBarrier(s: State, c: CoreId)
    requires CoresOk(s) && MailOk(s) && BarrierOk(s) && c in s.cores && s.cores[c].batch != []
    ensures BarrierOk(AfterHandle(s, c))
  {
    CancelIsLocal(s, c);
    hide MailOk, CoresOk, BarrierOk;
    UpdatePhases(s, c, Handled(s.cores[c], c), AfterHandle(s, c));
  }

  lemma InterruptBarrier(s: State, c: CoreId)
    requires BarrierOk(s) && c in s.cores && s.cores[c].notifying.Some?
    ensures BarrierOk(AfterInterrupt(s, c))
  {
    hide BarrierOk;
    var x := s.cores[c].(notifying := None);
    var s1 := Update(s, c, x);
    UpdatePhases(s, c, x, s1);
    var dst := s.cores[c].notifying.value;
    if dst in s1.cores { UpdatePhases(s1, dst, s1.cores[dst].(ipi := true), AfterInterrupt(s, c)); }
  }

  lemma OwnBarrier(s: State, st: Step)
    requires BarrierOk(s) && Enabled(s, st) && !Sends(st) && !st.Handle? && !st.Interrupt?
    requires !st.NotifyReady? && !st.PassBarrier?
    ensures BarrierOk(Apply(s, st))
  {
    OwnIsApply(s, st);
    assert SamePhase(s.cores[st.c], Own(s, st)) by { hide Layout, BarrierOk; }
    hide Apply, BarrierOk, Layout, Own;
    UpdatePhases(s, st.c, Own(s, st), Apply(s, st));
  }

  lemma PresentAfter(s: State, s': State, c: CoreId, v: nat)
    requires c in s.cores && s.cores[c].phase == Booting && s'.cores == s.cores[c := s.cores[c].(phase := AtBarrier)]
    ensures s.cores[c].vm != v ==> Present(s', v) == Present(s, v)
    ensures |Present(s', v)| == |Present(s, v)| + if v == s.cores[c].vm then 1 else 0
  {
    if v == s.cores[c].vm {
      assert Present(s', v) == Present(s, v) + {c} && c !in Present(s, v);
    } else {
      assert Present(s', v) == Present(s, v);
    }
  }

  lemma NotifyBarrier(s: State, c: CoreId)
    requires BarrierOk(s) && Enabled(s, NotifyReady(c))
    ensures BarrierOk(Apply(s, NotifyReady(c)))
  {
    var s', x := Apply(s, NotifyReady(c)), s.cores[c];
    hide Layout;
    forall v: nat ensures Members(s', v) == Members(s, v) {
    }
    forall v: nat ensures |Present(s', v)| == |Present(s, v)| + if v == x.vm then 1 else 0 {
      PresentAfter(s, s', c, v);
    }
    forall d | d in s'.cores && Past(s'.cores[d].phase)
      ensures Present(s', s'.cores[d].vm) == Members(s', s'.cores[d].vm)
    {
      assert c in Members(s, x.vm) && c !in Present(s, x.vm);
      assert Past(s.cores[d].phase);
      PresentAfter(s, s', c, s.cores[d].vm);
    }
  }

  lemma SameSize(a: set<CoreId>, b: set<CoreId>)
    requires a <= b && |a| == |b|
    ensures a == b
  {
    assert b == a + (b - a);
    assert |b - a| == 0;
  }

  lemma PassKeepsBarrier(s: State, c: CoreId)
    requires BarrierOk(s) && Enabled(s, PassBarrier(c))
    ensures BarrierOk(Apply(s, PassBarrier(c)))
  {
    var s', v := Apply(s, PassBarrier(c)), s.cores[c].vm;
    SameSize(Present(s, v), Members(s, v));
    forall w: nat ensures Present(s', w) == Present(s, w) && Members(s', w) == Members(s, w) {
    }
  }

  /** A core past the barrier has seen every core of its VM notify. */
  lemma StepBarrier(s: State, st: Step)
    requires CoresOk(s) && MailOk(s) && BarrierOk(s) && Enabled(s, st)
    ensures BarrierOk(Apply(s, st))
  {
    hide CoresOk, MailOk, BarrierOk, AfterHandle, AfterInterrupt, Layout;
    if st.NotifyReady? {
      NotifyBarrier(s, st.c);
    } else if st.PassBarrier? {
      PassKeepsBarrier(s, st.c);
    } else if Sends(st) {
      SendStepBarrier(s, st);
    } else if st.Handle? {
      HandleBarrier(s, st.c);
    } else if st.Interrupt? {
      InterruptBarrier(s, st.c);
    } else {
      OwnBarrier(s, st);
    }
  }

  // The start, and every run from it.

  /** Core lists as configured: no list is empty and no core is listed twice. */
  ghost predicate GoodConfig(cfg: seq<seq<CoreId>>) {
    && |cfg| > 0
    && (forall v :: 0 <= v < |cfg| ==> |cfg[v]| > 0)
    && (forall v, i, w, j ::
          (0 <= v < |cfg| && 0 <= i < |cfg[v]| && 0 <= w < |cfg| && 0 <= j < |cfg[w]| && cfg[v][i] == cfg[w][j]) ==>
            v == w && i == j)
  }

  /** A core before its first step, with an empty timer wheel. */
  function Idle(v: nat, freq: nat): Core {
    Core(v, Booting, [], false, [], false, None, None, None, 0, 0, [], [], [], Wheels.Wheel(freq, 0, map[]), 0)
  }

  /** The machine once its VMs are set up: the UART is with VM 0. */
  ghost predicate Initial(cfg: seq<seq<CoreId>>, s: State) {
    && |s.bsps| == |s.slots| == |s.ready| == |s.sizes| == |cfg| && !s.lost
    && (forall v :: 0 <= v < |cfg| ==>
          && |cfg[v]| > 0 && s.bsps[v] == cfg[v][0] && s.slots[v] == (v == 0)
          && s.ready[v] == 0 && s.sizes[v] == |cfg[v]|)
    && (forall v, i :: 0 <= v < |cfg| && 0 <= i < |cfg[v]| ==> cfg[v][i] in s.cores && s.cores[cfg[v][i]].vm == v)
    && (forall c :: c in s.cores ==> Listed(cfg, s, c))
  }

  ghost predicate Listed(cfg: seq<seq<CoreId>>, s: State, c: CoreId)
    requires c in s.cores
  {
    && s.cores[c].vm < |cfg| && c in cfg[s.cores[c].vm]
    && s.cores[c] == Idle(s.cores[c].vm, s.cores[c].wheel.freq) && s.cores[c].wheel.freq > 0
  }

  /** The VM that lists a core first, as `context_by_core_id` finds it. */
  function VmOf(cfg: seq<seq<CoreId>>, c: CoreId, v: nat): (r: nat)
    requires v <= |cfg|
    ensures v <= r <= |cfg| && (r < |cfg| ==> c in cfg[r]) && forall w :: v <= w < r ==> c !in cfg[w]
    decreases |cfg| - v
  {
    if v == |cfg| || c in cfg[v] then v else VmOf(cfg, c, v + 1)
  }

  ghost function AllCores(cfg: seq<seq<CoreId>>): set<CoreId> {
    set v, i | 0 <= v < |cfg| && 0 <= i < |cfg[v]| :: cfg[v][i]
  }

  ghost function Start(cfg: seq<seq<CoreId>>, freq: nat): State
    requires GoodConfig(cfg)
  {
    State(map c | c in AllCores(cfg) :: Idle(VmOf(cfg, c, 0), freq), seq(|cfg|, v requires 0 <= v < |cfg| => cfg[v][0]),
          seq(|cfg|, v requires 0 <= v < |cfg| => |cfg[v]|), seq(|cfg|, v => v == 0), seq(|cfg|, v => 0), false)
  }

  /** Every good configuration has such a start. */
  lemma StartIsInitial(cfg: seq<seq<CoreId>>, freq: nat)
    requires GoodConfig(cfg) && freq > 0
    ensures Initial(cfg, Start(cfg, freq))
  {
    var s := Start(cfg, freq);
    forall v, i | 0 <= v < |cfg| && 0 <= i < |cfg[v]| ensures cfg[v][i] in s.cores && s.cores[cfg[v][i]].vm == v {
      var c := cfg[v][i];
      var w := VmOf(cfg, c, 0);
      assert c in cfg[v];
      assert w < |cfg|;
      var j :| 0 <= j < |cfg[w]| && cfg[w][j] == c;
    }
    forall c | c in s.cores ensures Listed(cfg, s, c) {
      var v, i :| 0 <= v < |cfg| && 0 <= i < |cfg[v]| && cfg[v][i] == c;
      assert s.cores[c].vm == v;
    }
  }

  /** What holds in every state of every run. */
  ghost predicate Invariant(s: State) {
    CoresOk(s) && MailOk(s) && WakeOk(s) && ConsoleOk(s) && BarrierOk(s)
  }

  function Elements(q: seq<CoreId>): set<CoreId> {
    set c | c in q
  }

  lemma {:induction false} DistinctCount(q: seq<CoreId>)
    requires forall i, j :: 0 <= i < j < |q| ==> q[i] != q[j]
    ensures |Elements(q)| == |q|
  {
    if q != [] {
      var n := |q| - 1;
      DistinctCount(q[..n]);
      assert q == q[..n] + [q[n]];
      assert Elements(q) == Elements(q[..n]) + {q[n]};
      assert q[n] !in Elements(q[..n]);
    }
  }

  lemma InitialBarrier(cfg: seq<seq<CoreId>>, s: State)
    requires GoodConfig(cfg) && Initial(cfg, s)
    ensures BarrierOk(s)
  {
    forall v | 0 <= v < |s.ready| ensures s.ready[v] == |Present(s, v)| && s.sizes[v] == |Members(s, v)| {
      assert forall c :: c in s.cores ==> Listed(cfg, s, c);
      assert Present(s, v) == {};
      forall c ensures c in Members(s, v) <==> c in cfg[v] {
        if c in Members(s, v) { assert Listed(cfg, s, c); }
      }
      assert Members(s, v) == Elements(cfg[v]);
      DistinctCount(cfg[v]);
    }
    assert forall c :: c in s.cores ==> Listed(cfg, s, c);
  }

  lemma InitialConsole(cfg: seq<seq<CoreId>>, s: State)
    requires GoodConfig(cfg) && Initial(cfg, s)
    ensures ConsoleAt(s, Some(InSlot(0))) && ConsoleOk(s)
  {
    assert forall c :: c in s.cores ==> Listed(cfg, s, c);
    forall p ensures Has(s, p) <==> p == InSlot(0) {
    }
    assert ConsoleAt(s, Some(InSlot(0)));
  }

  lemma InitialCores(cfg: seq<seq<CoreId>>, s: State)
    requires GoodConfig(cfg) && Initial(cfg, s)
    ensures CoresOk(s) && MailOk(s) && WakeOk(s)
  {
    assert forall c :: c in s.cores ==> Listed(cfg, s, c);
    forall v | 0 <= v < |s.bsps| ensures s.bsps[v] in s.cores && s.cores[s.bsps[v]].vm == v {
      assert s.bsps[v] == cfg[v][0];
    }
    forall c | c in s.cores ensures CoreOk(s.cores[c], IsBsp(s, c)) {
      assert Listed(cfg, s, c);
    }
  }

  lemma InitialInvariant(cfg: seq<seq<CoreId>>, s: State)
    requires GoodConfig(cfg) && Initial(cfg, s)
    ensures Invariant(s)
  {
    hide CoresOk, MailOk, WakeOk, ConsoleOk, BarrierOk;
    InitialCores(cfg, s);
    InitialConsole(cfg, s);
    InitialBarrier(cfg, s);
  }

  lemma StepInvariant(s: State, st: Step)
    requires Invariant(s) && Enabled(s, st)
    ensures Invariant(Apply(s, st))
  {
    hide CoresOk, MailOk, WakeOk, ConsoleOk, BarrierOk, Apply, Enabled;
    StepOk(s, st);
    StepMail(s, st);
    StepWake(s, st);
    StepConsole(s, st);
    StepBarrier(s, st);
  }

  lemma {:induction false} RunInvariant(s: State, run: seq<Step>)
    requires Invariant(s) && IsRun(s, run)
    ensures Invariant(After(s, run))
    decreases |run|
  {
    hide Invariant, Apply, Enabled;
    if run != [] {
      StepInvariant(s, run[0]);
      RunInvariant(Apply(s, run[0]), run[1..]);
    }
  }

  /** Every interleaving of every configuration keeps the invariant. */
  lemma EveryRun(cfg: seq<seq<CoreId>>, s: State, run: seq<Step>)
    requires GoodConfig(cfg) && Initial(cfg, s) && IsRun(s, run)
    ensures Invariant(After(s, run))
  {
    hide IsRun, Initial, GoodConfig, Invariant;
    InitialInvariant(cfg, s);
    RunInvariant(s, run);
  }

  // What the invariant says, in the terms of the design.

  /** At most one console exists across all slots and messages, and exactly one while no grant was dropped. */
  lemma OneConsole(s: State)
    requires ConsoleOk(s)
    ensures forall p, q :: Has(s, p) && Has(s, q) ==> p == q
    ensures !s.lost <==> exists p :: Has(s, p)
  {
    var o :| ConsoleAt(s, o) && (s.lost <==> o.None?);
    if o.Some? { assert Has(s, o.value); }
  }

  /** A core whose queue holds a message it was to be told of is alerted, or some sender's next step alerts it. */
  lemma WakeUpComes(s: State, c: CoreId)
    requires Invariant(s) && c in s.cores && HasNotice(s.cores[c].queue)
    ensures Alert(s.cores[c]) || exists d :: Alerts(s, d, c)
  {
    hide HasNotice, MailOk, ConsoleOk, BarrierOk, Layout;
    if !Alert(s.cores[c]) {
      var d :| d in s.cores && s.cores[d].notifying == Some(c);
      assert CoreOk(s.cores[d], IsBsp(s, d));
      assert Alerts(s, d, c);
    }
  }

  ghost predicate Alerts(s: State, d: CoreId, c: CoreId) {
    Enabled(s, Interrupt(d)) && c in Apply(s, Interrupt(d)).cores && Apply(s, Interrupt(d)).cores[c].ipi
  }

  /** Messages of one sender are handled in the order they were sent, and none is skipped. */
  lemma FifoPerSender(s: State, c: CoreId, i: nat, j: nat)
    requires CoresOk(s) && MailOk(s) && c in s.cores && i < |s.cores[c].arrived| && j < |s.cores[c].handled|
    requires s.cores[c].arrived[i].from == s.cores[c].handled[j].from
    ensures s.cores[c].handled <= s.cores[c].arrived
    ensures s.cores[c].arrived[i].number < s.cores[c].handled[j].number <==> i < j
  {
    var x := s.cores[c];
    assert CoreOk(x, IsBsp(s, c)) && MailTo(s, c);
    hide CoresOk, MailOk;
    assert x.arrived[j] == x.handled[j];
  }

  /**
    A secondary core launches at most once, and only with the page of the first start message that arrived, for which
    its sender wrote this core and that vector to its interrupt command register.
  */
  lemma LaunchesOnce(s: State, c: CoreId)
    requires Invariant(s) && c in s.cores && !IsBsp(s, c)
    ensures s.cores[c].launches <= 1
    ensures s.cores[c].launches == 1 ==>
              exists i: nat, vector: nat ::
                && FirstStart(s.cores[c], i, vector) && s.cores[c].selector == Some(vector * 256)
                && s.cores[c].arrived[i].from in s.cores
                && WroteIcr(s.cores[s.cores[c].arrived[i].from], c, vector)
  {
    hide Layout, WakeOk, ConsoleOk, BarrierOk, InOrder;
    var x := s.cores[c];
    assert CoreOk(x, false) && MailTo(s, c);
    if x.launches == 1 {
      var i: nat :| StartedAt(x, i);
      assert x.arrived[i] == x.handled[i] && EnvelopeOk(s, c, x.arrived[i]);
      assert x.arrived[..i] == x.handled[..i];
      var addr := x.handled[i].msg.addr;
      PageToSelector(addr);
      assert FirstStart(x, i, addr / 4096);
      CommandedWrote(s.cores[x.arrived[i].from], c, addr);
    }
  }

  /**
    How a guest starts a core: with core `d` in bits 31:24 of the high half, a low half of delivery mode 6 and some
    vector puts a start message for the page of that number into the queue of core `d`, without an interrupt.
  */
  lemma StartupIsQueued(s: State, c: CoreId, d: CoreId, rest: nat, low: nat)
    requires Layout(s) && c in s.cores && Free(s.cores[c]) && rest < 0x100_0000
    requires s.cores[c].icr == Some(d * 0x100_0000 + rest) && low / 256 % 8 == 6 && CanReceive(s, d)
    ensures Enabled(s, WriteIcrStartup(c, low))
    ensures var s' := Apply(s, WriteIcrStartup(c, low));
            var e := Envelope(StartVcpu(low % 256 * 4096), c, s.cores[c].sends, false);
            && d in s'.cores && s'.cores[d].queue == s.cores[d].queue + [e]
            && s'.cores[c].icr == None && s'.cores[c].notifying == None
  {
    hide Layout;
    assert DestinationOf(d * 0x100_0000 + rest) == d;
  }

  /** The core wrote a start-up command with this destination and vector. */
  ghost predicate WroteIcr(x: Core, c: CoreId, vector: nat) {
    exists k :: 0 <= k < |x.commands| && DestinationOf(x.commands[k].high) == c &&
                ModeOf(x.commands[k].low) == START_UP && vector == x.commands[k].low % 256
  }

  lemma CommandedWrote(x: Core, c: CoreId, addr: nat)
    requires Commanded(x, c, addr)
    ensures WroteIcr(x, c, addr / 4096)
  {
    var k :| 0 <= k < |x.commands| && DestinationOf(x.commands[k].high) == c &&
      ModeOf(x.commands[k].low) == START_UP && addr == x.commands[k].low % 256 * 4096;
    StartAddress(x.commands[k].low);
  }

  /** Message `i` to arrive is the first start message, and it carries the vector. */
  ghost predicate FirstStart(x: Core, i: nat, vector: nat) {
    && i < |x.arrived| && x.arrived[i].msg == StartVcpu(vector * 4096) && vector < 256
    && NoStart(x.arrived[..i])
  }

  lemma PageToSelector(addr: nat)
    requires addr % 4096 == 0
    ensures addr == addr / 4096 * 4096 && addr / 16 == addr / 4096 * 256
  {
  }

  /** Nobody is past the barrier while a core of the same VM still boots. */
  lemma BarrierHolds(s: State, c: CoreId, d: CoreId)
    requires BarrierOk(s) && c in s.cores && d in s.cores && s.cores[c].vm == s.cores[d].vm && Past(s.cores[c].phase)
    ensures s.cores[d].phase != Booting
  {
    assert d in Members(s, s.cores[c].vm);
    assert d in Present(s, s.cores[c].vm);
  }
}
