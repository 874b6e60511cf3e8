/**
  The timer wheels of all cores in the step system of the machine, and cancelling a timer from another core (time.rs,
  vcpu.rs).
*/
module CoreTimers {
  import opened Common
  import opened Cores
  import Wheels = TimerWheel

  /** A core that a step does nothing to but give it messages and interrupts, send for it, or stop it. */
  ghost predicate Passive(x: Core, y: Core) {
    && y.wheel == x.wheel && y.clock == x.clock && x.arrived <= y.arrived
    && (Running(x.phase) ==> Running(y.phase) && y.handled == x.handled)
  }

  lemma SendPassive(s: State, c: CoreId, dst: CoreId, msg: Msg, notify: bool, d: CoreId)
    requires c in s.cores && d in s.cores && Running(s.cores[c].phase)
    ensures d in Send(s, c, dst, msg, notify).cores && Passive(s.cores[d], Send(s, c, dst, msg, notify).cores[d])
  {
  }

  lemma SendStepPassive(s: State, st: Step, d: CoreId)
    requires Enabled(s, st) && Sends(st) && d in s.cores
    ensures d in Apply(s, st).cores && Passive(s.cores[d], Apply(s, st).cores[d])
  {
    hide Send;
    var c, x := st.c, s.cores[st.c];
    match st {
      case PassConsole(_) => SendPassive(s, c, Next(s, c), GrantConsole, true, d);
      case WriteIcrStartup(_, value) =>
        if x.icr.Some? {
          var s1 := Update(s, c, Commanding(x, value));
          SendPassive(s1, c, DestinationOf(x.icr.value), StartVcpu(value % 256 * 4096), false, d);
        }
      case SendInterrupt(_, dst, vector) => SendPassive(s, c, dst, GuestInterrupt(vector), true, d);
      case SendCancel(_, owner, timer) => SendPassive(s, c, owner, CancelTimer(owner, timer), true, d);
    }
  }

  lemma OwnPassive(s: State, st: Step)
    requires Enabled(s, st) && !Sends(st) && !st.Handle? && !st.Interrupt? && !st.UseWheel?
    ensures Passive(s.cores[st.c], Own(s, st))
  {
    hide Layout;
  }

  /** What a step does to a core: its own wheel step, its own message, or nothing to its timers. */
  lemma StepEffect(s: State, st: Step, d: CoreId)
    requires CoresOk(s) && MailOk(s) && Enabled(s, st) && d in s.cores
    ensures d in Apply(s, st).cores
    ensures var x, y := s.cores[d], Apply(s, st).cores[d];
            if st.c == d && st.UseWheel? then y == Ticked(x, st.op)
            else if st.c == d && st.Handle? then y == Handled(x, d)
            else Passive(x, y)
  {
    hide CoresOk, MailOk, Handled, Ticked, Passive, AfterHandle, AfterInterrupt;
    if Sends(st) {
      SendStepPassive(s, st, d);
    } else if st.Handle? {
      HandleEffect(s, st.c, d);
    } else if st.Interrupt? {
      InterruptPassive(s, st.c, d);
    } else {
      OwnEffect(s, st, d);
    }
  }

  lemma HandleEffect(s: State, c: CoreId, d: CoreId)
    requires CoresOk(s) && MailOk(s) && c in s.cores && s.cores[c].batch != [] && d in s.cores
    requires s.cores[c].vm < |s.slots|
    ensures var s' := AfterHandle(s, c);
            && d in s'.cores && (d != c ==> Passive(s.cores[d], s'.cores[d]))
            && (d == c ==> s'.cores[d] == Handled(s.cores[d], d))
  {
    CancelIsLocal(s, c);
    hide CoresOk, MailOk, Handled, Send;
  }

  lemma InterruptPassive(s: State, c: CoreId, d: CoreId)
    requires c in s.cores && s.cores[c].notifying.Some? && d in s.cores
    ensures d in AfterInterrupt(s, c).cores && Passive(s.cores[d], AfterInterrupt(s, c).cores[d])
  {
  }

  lemma OwnEffect(s: State, st: Step, d: CoreId)
    requires Enabled(s, st) && !Sends(st) && !st.Handle? && !st.Interrupt? && d in s.cores
    ensures var s' := Apply(s, st);
            && d in s'.cores && (!(d == st.c && st.UseWheel?) ==> Passive(s.cores[d], s'.cores[d]))
            && (d == st.c && st.UseWheel? ==> s'.cores[d] == Ticked(s.cores[d], st.op))
  {
    OwnIsApply(s, st);
    if !st.UseWheel? { OwnPassive(s, st); }
    hide Layout, Apply, Ticked;
  }

  /** The operation a step performs on the timer wheel of a core, if any. */
  ghost function OpIn(s: State, st: Step, c: CoreId): seq<Wheels.Op>
    requires Enabled(s, st) && c in s.cores
  {
    if st.c != c then []
    else
      match st
      case UseWheel(_, op) => [op]
      case Handle(_) =>
        (match s.cores[c].batch[0].msg
         case CancelTimer(owner, timer) => if owner == c then [Wheels.Remove(timer)] else []
         case _ => [])
      case _ => []
  }

  ghost predicate Follows(x: Core, ops: seq<Wheels.Op>, y: Core) {
    && x.wheel.freq > 0 && Wheels.IsRun(x.wheel, x.clock, ops)
    && y.wheel == Wheels.WheelAfter(x.wheel, ops) && y.clock == Wheels.ClockAfterAll(x.clock, ops)
  }

  lemma FrequencyOk(s: State, c: CoreId)
    requires CoresOk(s) && c in s.cores
    ensures s.cores[c].wheel.freq > 0
  {
    assert CoreOk(s.cores[c], IsBsp(s, c));
  }

  lemma StepFollows(s: State, st: Step, c: CoreId)
    requires CoresOk(s) && MailOk(s) && Enabled(s, st) && c in s.cores
    ensures c in Apply(s, st).cores && Follows(s.cores[c], OpIn(s, st, c), Apply(s, st).cores[c])
  {
    FrequencyOk(s, c);
    StepEffect(s, st, c);
    var x, y, ops := s.cores[c], Apply(s, st).cores[c], OpIn(s, st, c);
    hide CoresOk, MailOk, Layout, Apply, Wheels.Expired, Wheels.Timely;
    if ops != [] { FollowsOne(x, ops[0], y); }
  }

  lemma FollowsOne(x: Core, op: Wheels.Op, y: Core)
    requires x.wheel.freq > 0 && Wheels.Timely(x.wheel, x.clock, op)
    requires y.wheel == Wheels.Step(x.wheel, op) && y.clock == Wheels.ClockAfter(x.clock, op)
    ensures Follows(x, [op], y)
  {
    hide Wheels.Step, Wheels.ClockAfter, Wheels.Timely;
    StepKeepsFrequency(x.wheel, op);
    var ops, w, now := [op], Wheels.Step(x.wheel, op), Wheels.ClockAfter(x.clock, op);
    assert ops[0] == op && ops[1..] == [];
    assert Wheels.IsRun(w, now, ops[1..]);
    assert Wheels.WheelAfter(w, ops[1..]) == w && Wheels.ClockAfterAll(now, ops[1..]) == now;
  }

  /** The operations a run performs on the timer wheel of a core. */
  ghost function OpsOf(s: State, run: seq<Step>, c: CoreId): seq<Wheels.Op>
    requires Invariant(s) && IsRun(s, run) && c in s.cores
    decreases |run|
  {
    if run == [] then []
    else
      StepInvariant(s, run[0]);
      StepFollows(s, run[0], c);
      OpIn(s, run[0], c) + OpsOf(Apply(s, run[0]), run[1..], c)
  }

  lemma {:induction false} FollowsJoin(x: Core, ops: seq<Wheels.Op>, y: Core, more: seq<Wheels.Op>, z: Core)
    requires Follows(x, ops, y) && Follows(y, more, z)
    ensures Follows(x, ops + more, z)
    decreases |ops|
  {
    hide Wheels.Step, Wheels.ClockAfter, Wheels.Timely;
    if ops == [] {
      assert ops + more == more;
    } else {
      assert (ops + more)[1..] == ops[1..] + more;
      assert (ops + more)[0] == ops[0];
      assert Wheels.Step(x.wheel, ops[0]).freq > 0 by { StepKeepsFrequency(x.wheel, ops[0]); }
      var x1 := x.(wheel := Wheels.Step(x.wheel, ops[0]), clock := Wheels.ClockAfter(x.clock, ops[0]));
      FollowsJoin(x1, ops[1..], y, more, z);
    }
  }

  lemma StepKeepsFrequency(w: Wheels.Wheel, op: Wheels.Op)
    requires w.freq > 0
    ensures Wheels.Step(w, op).freq == w.freq
  {
    hide Wheels.Expired;
  }

  /**
    In every run of the machine each core's timer wheel goes through a run of the timer wheel: what holds of all its
    runs (conservation, no drift, starts in the past) holds of every core.
  */
  lemma {:induction false} WheelsAreRuns(s: State, run: seq<Step>, c: CoreId)
    requires Invariant(s) && IsRun(s, run) && c in s.cores
    ensures c in After(s, run).cores && Follows(s.cores[c], OpsOf(s, run, c), After(s, run).cores[c])
    decreases |run|
  {
    if run == [] {
      assert CoreOk(s.cores[c], IsBsp(s, c));
    } else {
      StepInvariant(s, run[0]);
      StepFollows(s, run[0], c);
      hide Invariant, Follows, OpIn, Apply, Enabled;
      WheelsAreRuns(Apply(s, run[0]), run[1..], c);
      FollowsJoin(s.cores[c], OpIn(s, run[0], c), Apply(s, run[0]).cores[c],
                  OpsOf(Apply(s, run[0]), run[1..], c), After(s, run).cores[c]);
    }
  }

  /** How often a timer of a core fires in a run. */
  ghost function Firings(s: State, run: seq<Step>, c: CoreId, mode: Wheels.Mode, timer: nat): nat
    requires Invariant(s) && IsRun(s, run) && c in s.cores && s.cores[c].wheel.freq > 0
  {
    Wheels.FireCount(s.cores[c].wheel, OpsOf(s, run, c), mode, timer)
  }

  /** The timer numbers of a core are given out and do not run out in the run. */
  ghost predicate NumbersLast(s: State, run: seq<Step>, c: CoreId)
    requires Invariant(s) && IsRun(s, run) && c in s.cores
  {
    Wheels.Numbered(s.cores[c].wheel, OpsOf(s, run, c))
  }

  /** Message `n` to arrive at a core cancels a timer it has given out; once it is handled the timer is gone. */
  ghost predicate Cancelling(s: State, c: CoreId, timer: nat, n: nat) {
    && c in s.cores && Running(s.cores[c].phase) && timer < s.cores[c].wheel.counter
    && n < |s.cores[c].arrived| && s.cores[c].arrived[n].msg == CancelTimer(c, timer)
    && (n < |s.cores[c].handled| ==> timer !in s.cores[c].wheel.timers)
  }

  /** A cancel that is sent without error is in the owner's mail, and the owner has not handled it yet. */
  lemma CancelArrives(s: State, c: CoreId, owner: CoreId, timer: nat)
    requires Invariant(s) && Enabled(s, SendCancel(c, owner, timer)) && CanReceive(s, owner)
    requires timer < s.cores[owner].wheel.counter
    ensures var s' := Apply(s, SendCancel(c, owner, timer));
            && Cancelling(s', owner, timer, |s.cores[owner].arrived|)
            && |s'.cores[owner].handled| <= |s.cores[owner].arrived|
  {
    hide MailOk, WakeOk, ConsoleOk, BarrierOk, Layout;
    assert CoreOk(s.cores[owner], IsBsp(s, owner));
  }

  /** Handling a cancel takes that timer off that core's wheel and touches no other timer of any core. */
  lemma CancelTouchesOne(s: State, c: CoreId, d: CoreId)
    requires Invariant(s) && Enabled(s, Handle(c)) && s.cores[c].batch[0].msg.CancelTimer? && d in s.cores
    ensures d in Apply(s, Handle(c)).cores
    ensures var w, w' := s.cores[d].wheel, Apply(s, Handle(c)).cores[d].wheel;
            && w'.counter == w.counter && w'.freq == w.freq
            && w'.timers == if d == c then w.timers - {s.cores[c].batch[0].msg.timer} else w.timers
  {
    CancelIsLocal(s, c);
    StepEffect(s, Handle(c), d);
    hide Invariant, CoresOk, MailOk, WakeOk, ConsoleOk, BarrierOk, Layout, Apply;
  }

  lemma TickKeepsCancelling(x: Core, op: Wheels.Op, timer: nat)
    requires x.wheel.freq > 0 && timer < x.wheel.counter && (op.Register? ==> x.wheel.counter + 1 < Wheels.COUNTER_WRAP)
    ensures timer < Ticked(x, op).wheel.counter && Ticked(x, op).phase == x.phase
    ensures Ticked(x, op).arrived == x.arrived && Ticked(x, op).handled == x.handled
    ensures timer !in x.wheel.timers ==> timer !in Ticked(x, op).wheel.timers
  {
    hide Wheels.Fires, Wheels.ElapsesAt;
  }

  lemma StepCancelling(s: State, st: Step, c: CoreId, timer: nat, n: nat)
    requires CoresOk(s) && MailOk(s) && Enabled(s, st) && Cancelling(s, c, timer, n)
    requires st.c == c && st.UseWheel? && st.op.Register? ==> s.cores[c].wheel.counter + 1 < Wheels.COUNTER_WRAP
    ensures Cancelling(Apply(s, st), c, timer, n)
  {
    var x := s.cores[c];
    assert CoreOk(x, IsBsp(s, c));
    StepEffect(s, st, c);
    hide CoresOk, MailOk, Layout, Apply, Handled, Ticked;
    if st.c == c && st.UseWheel? {
      TickKeepsCancelling(x, st.op, timer);
    } else if st.c == c && st.Handle? {
      assert x.arrived[|x.handled|] == x.batch[0];
      HandledTimers(x, c, timer);
    }
  }

  lemma HandledTimers(x: Core, c: CoreId, timer: nat)
    requires x.batch != []
    ensures var y := Handled(x, c);
            && y.arrived == x.arrived && y.handled == x.handled + [x.batch[0]] && y.phase == x.phase
            && y.wheel.counter == x.wheel.counter && y.wheel.timers.Keys <= x.wheel.timers.Keys
            && (x.batch[0].msg == CancelTimer(c, timer) ==> timer !in y.wheel.timers)
  {
  }

  lemma NumbersLastNext(s: State, run: seq<Step>, c: CoreId)
    requires Invariant(s) && IsRun(s, run) && run != [] && c in s.cores && NumbersLast(s, run, c)
    ensures Invariant(Apply(s, run[0])) && c in Apply(s, run[0]).cores
    ensures NumbersLast(Apply(s, run[0]), run[1..], c)
    ensures run[0].c == c && run[0].UseWheel? && run[0].op.Register? ==>
              s.cores[c].wheel.counter + 1 < Wheels.COUNTER_WRAP
  {
    var st := run[0];
    StepInvariant(s, st);
    assert CoreOk(s.cores[c], IsBsp(s, c));
    StepFollows(s, st, c);
    hide Invariant, Apply, Enabled, Wheels.Step, Wheels.Timely, Wheels.ClockAfter;
    var ops, rest := OpIn(s, st, c), OpsOf(Apply(s, st), run[1..], c);
    if ops != [] {
      assert (ops + rest)[1..] == rest && (ops + rest)[0] == ops[0];
      Wheels.NumberedStep(s.cores[c].wheel, ops + rest);
      assert ops[1..] == [];
    } else {
      assert ops + rest == rest;
    }
  }

  lemma {:induction false} RunCancelling(s: State, run: seq<Step>, c: CoreId, timer: nat, n: nat)
    requires Invariant(s) && IsRun(s, run) && Cancelling(s, c, timer, n) && NumbersLast(s, run, c)
    ensures Cancelling(After(s, run), c, timer, n)
    decreases |run|
  {
    if run != [] {
      NumbersLastNext(s, run, c);
      StepCancelling(s, run[0], c, timer, n);
      hide Invariant, Apply, Enabled, Cancelling, NumbersLast;
      RunCancelling(Apply(s, run[0]), run[1..], c, timer, n);
    }
  }

  /** Once the cancel is handled the timer is never live again on its core and never fires. */
  lemma CancelledNeverFires(s: State, run: seq<Step>, c: CoreId, mode: Wheels.Mode, timer: nat, n: nat)
    requires Invariant(s) && IsRun(s, run) && Cancelling(s, c, timer, n) && NumbersLast(s, run, c)
    requires n < |s.cores[c].handled|
    ensures s.cores[c].wheel.freq > 0 && Firings(s, run, c, mode, timer) == 0
    ensures c in After(s, run).cores && timer !in After(s, run).cores[c].wheel.timers
  {
    assert CoreOk(s.cores[c], IsBsp(s, c));
    WheelsAreRuns(s, run, c);
    hide Invariant, IsRun, OpsOf, After;
    Wheels.GoneTimersStaySilent(s.cores[c].wheel, s.cores[c].clock, OpsOf(s, run, c), timer, mode);
  }

  /**
    A cancel sent from another core: it reaches the owner, and in every run, from the moment the owner has handled it,
    the timer is not live and does not fire.
  */
  lemma CancelReachesOwner(s: State, d: CoreId, c: CoreId, timer: nat, run: seq<Step>, more: seq<Step>,
                           mode: Wheels.Mode)
    requires Invariant(s) && Enabled(s, SendCancel(d, c, timer)) && CanReceive(s, c) && timer < s.cores[c].wheel.counter
    requires Invariant(Apply(s, SendCancel(d, c, timer))) && IsRun(Apply(s, SendCancel(d, c, timer)), run)
    requires c in Apply(s, SendCancel(d, c, timer)).cores && NumbersLast(Apply(s, SendCancel(d, c, timer)), run, c)
    requires var e := After(Apply(s, SendCancel(d, c, timer)), run);
             Invariant(e) && IsRun(e, more) && c in e.cores && NumbersLast(e, more, c)
    ensures var n, e := |s.cores[c].arrived|, After(Apply(s, SendCancel(d, c, timer)), run);
            && n < |e.cores[c].arrived| && e.cores[c].arrived[n].msg == CancelTimer(c, timer)
            && (n < |e.cores[c].handled| ==>
                  && timer !in e.cores[c].wheel.timers && e.cores[c].wheel.freq > 0
                  && Firings(e, more, c, mode, timer) == 0
                  && c in After(e, more).cores && timer !in After(e, more).cores[c].wheel.timers)
  {
    var s1 := Apply(s, SendCancel(d, c, timer));
    var n := |s.cores[c].arrived|;
    CancelArrives(s, d, c, timer);
    hide Invariant, Apply, Enabled, IsRun, NumbersLast, Firings, CanReceive;
    RunCancelling(s1, run, c, timer, n);
    var e := After(s1, run);
    if n < |e.cores[c].handled| { CancelledNeverFires(e, more, c, mode, timer, n); }
  }

  /** How many timers a core registers in a run. */
  function Registers(run: seq<Step>, c: CoreId): nat
    decreases |run|
  {
    if run == [] then 0 else RegistersIn(run[0], c) + Registers(run[1..], c)
  }

  function RegistersIn(st: Step, c: CoreId): nat {
    if st.c == c && st.UseWheel? && st.op.Register? then 1 else 0
  }

  lemma {:induction false} RegistersAreOps(s: State, run: seq<Step>, c: CoreId)
    requires Invariant(s) && IsRun(s, run) && c in s.cores
    ensures Wheels.RegisterCount(OpsOf(s, run, c)) == Registers(run, c)
    decreases |run|
  {
    if run != [] {
      StepInvariant(s, run[0]);
      StepFollows(s, run[0], c);
      hide Invariant, Apply, Enabled;
      OpInRegisters(s, run[0], c);
      RegistersAreOps(Apply(s, run[0]), run[1..], c);
      hide OpIn, RegistersIn, Wheels.RegisterCount;
      RegisterCountJoin(OpIn(s, run[0], c), OpsOf(Apply(s, run[0]), run[1..], c));
    }
  }

  lemma OpInRegisters(s: State, st: Step, c: CoreId)
    requires Enabled(s, st) && c in s.cores
    ensures Wheels.RegisterCount(OpIn(s, st, c)) == RegistersIn(st, c)
  {
    hide Layout, Wheels.Timely;
    var ops := OpIn(s, st, c);
    if ops != [] { assert ops[1..] == []; }
  }

  lemma {:induction false} RegisterCountJoin(a: seq<Wheels.Op>, b: seq<Wheels.Op>)
    ensures Wheels.RegisterCount(a + b) == Wheels.RegisterCount(a) + Wheels.RegisterCount(b)
    decreases |a|
  {
    if a == [] {
      assert a + b == b;
    } else {
      assert (a + b)[1..] == a[1..] + b;
      RegisterCountJoin(a[1..], b);
    }
  }

  /** The core's timers have numbers below its counter, and `k` more numbers can be given out. */
  ghost predicate Numbers(s: State, c: CoreId, k: nat) {
    && c in s.cores && s.cores[c].wheel.counter + k < Wheels.COUNTER_WRAP
    && forall id :: id in s.cores[c].wheel.timers ==> id < s.cores[c].wheel.counter
  }

  lemma NumbersSuffice(s: State, run: seq<Step>, c: CoreId, k: nat)
    requires Invariant(s) && IsRun(s, run) && Numbers(s, c, Registers(run, c) + k)
    ensures NumbersLast(s, run, c)
  {
    hide Invariant, IsRun, OpsOf;
    RegistersAreOps(s, run, c);
  }

  lemma TickKeepsNumbers(x: Core, op: Wheels.Op)
    requires x.wheel.freq > 0 && (op.Register? ==> x.wheel.counter + 1 < Wheels.COUNTER_WRAP)
    requires forall id :: id in x.wheel.timers ==> id < x.wheel.counter
    ensures Ticked(x, op).wheel.counter == x.wheel.counter + if op.Register? then 1 else 0
    ensures forall id :: id in Ticked(x, op).wheel.timers ==> id < Ticked(x, op).wheel.counter
  {
    hide Wheels.Fires, Wheels.ElapsesAt;
  }

  lemma StepNumbers(s: State, st: Step, c: CoreId, k: nat)
    requires Invariant(s) && Enabled(s, st) && Numbers(s, c, RegistersIn(st, c) + k)
    ensures Numbers(Apply(s, st), c, k)
  {
    assert CoreOk(s.cores[c], IsBsp(s, c));
    StepEffect(s, st, c);
    hide Invariant, CoresOk, MailOk, WakeOk, ConsoleOk, BarrierOk, Layout, Apply;
    if st.c == c && st.UseWheel? {
      TickKeepsNumbers(s.cores[c], st.op);
    } else {
      var x, y := s.cores[c].wheel, Apply(s, st).cores[c].wheel;
      assert y.counter == x.counter && y.timers.Keys <= x.timers.Keys;
    }
  }

  lemma {:induction false} RunNumbers(s: State, run: seq<Step>, c: CoreId, k: nat)
    requires Invariant(s) && IsRun(s, run) && Numbers(s, c, Registers(run, c) + k)
    ensures Numbers(After(s, run), c, k)
    decreases |run|
  {
    hide Invariant, Apply, Enabled, Numbers, RegistersIn;
    if run != [] {
      StepInvariant(s, run[0]);
      assert Registers(run, c) == RegistersIn(run[0], c) + Registers(run[1..], c);
      StepNumbers(s, run[0], c, Registers(run[1..], c) + k);
      RunNumbers(Apply(s, run[0]), run[1..], c, k);
    }
  }

  /** The same from the start of the machine, as long as the owner does not give out all of its 2^64 numbers. */
  lemma EveryCancel(cfg: seq<seq<CoreId>>, s: State, before: seq<Step>, d: CoreId, c: CoreId, timer: nat,
                    run: seq<Step>, more: seq<Step>, mode: Wheels.Mode)
    requires GoodConfig(cfg) && Initial(cfg, s) && IsRun(s, before)
    requires var m := After(s, before);
             && Enabled(m, SendCancel(d, c, timer)) && CanReceive(m, c) && timer < m.cores[c].wheel.counter
             && IsRun(Apply(m, SendCancel(d, c, timer)), run)
             && IsRun(After(Apply(m, SendCancel(d, c, timer)), run), more)
    requires Registers(before, c) + Registers(run, c) + Registers(more, c) < Wheels.COUNTER_WRAP
    ensures var m := After(s, before);
            var n, e := |m.cores[c].arrived|, After(Apply(m, SendCancel(d, c, timer)), run);
            && Invariant(e) && c in e.cores && c in After(e, more).cores && e.cores[c].wheel.freq > 0
            && n < |e.cores[c].arrived| && e.cores[c].arrived[n].msg == CancelTimer(c, timer)
            && (n < |e.cores[c].handled| ==>
                  && timer !in e.cores[c].wheel.timers && timer !in After(e, more).cores[c].wheel.timers
                  && Firings(e, more, c, mode, timer) == 0)
  {
    hide Initial, GoodConfig, Invariant, Apply, Enabled, IsRun, After, Registers, Firings;
    var m, step := After(s, before), SendCancel(d, c, timer);
    assert CanReceive(m, c);
    EveryRun(cfg, s, before);
    StartNumbers(cfg, s, before, c, Registers(run, c) + Registers(more, c));
    CancelIsNoRegister(m, d, c, timer, Registers(run, c) + Registers(more, c));
    StepInvariant(m, step);
    var s1 := Apply(m, step);
    NumbersSuffice(s1, run, c, Registers(more, c));
    RunInvariant(s1, run);
    RunNumbers(s1, run, c, Registers(more, c));
    var e := After(s1, run);
    NumbersSuffice(e, more, c, 0);
    WheelsAreRuns(e, more, c);
    CancelReachesOwner(m, d, c, timer, run, more, mode);
    assert e.cores[c].wheel.freq > 0 by { assert Follows(e.cores[c], OpsOf(e, more, c), After(e, more).cores[c]); }
  }

  lemma CancelIsNoRegister(s: State, d: CoreId, c: CoreId, timer: nat, k: nat)
    requires Invariant(s) && Enabled(s, SendCancel(d, c, timer)) && Numbers(s, c, k)
    ensures Numbers(Apply(s, SendCancel(d, c, timer)), c, k)
  {
    hide Invariant, Numbers, Apply, Enabled;
    StepNumbers(s, SendCancel(d, c, timer), c, k);
  }

  lemma InitialNumbers(cfg: seq<seq<CoreId>>, s: State, c: CoreId, k: nat)
    requires Initial(cfg, s) && c in s.cores && k < Wheels.COUNTER_WRAP
    ensures Numbers(s, c, k)
  {
    assert Listed(cfg, s, c);
  }

  lemma StartNumbers(cfg: seq<seq<CoreId>>, s: State, run: seq<Step>, c: CoreId, k: nat)
    requires GoodConfig(cfg) && Initial(cfg, s) && IsRun(s, run)
    requires c in After(s, run).cores && Registers(run, c) + k < Wheels.COUNTER_WRAP
    ensures Numbers(After(s, run), c, k)
  {
    hide Initial, GoodConfig, IsRun, After, Invariant, Numbers, Registers;
    InitialInvariant(cfg, s);
    RunKeepsCores(s, run);
    InitialNumbers(cfg, s, c, Registers(run, c) + k);
    RunNumbers(s, run, c, k);
  }

  lemma {:induction false} RunKeepsCores(s: State, run: seq<Step>)
    requires Invariant(s) && IsRun(s, run)
    ensures After(s, run).cores.Keys == s.cores.Keys
    decreases |run|
  {
    if run != [] {
      StepInvariant(s, run[0]);
      StepKeepsCores(s, run[0]);
      hide Invariant, Apply, Enabled;
      RunKeepsCores(Apply(s, run[0]), run[1..]);
    }
  }

  lemma StepKeepsCores(s: State, st: Step)
    requires Enabled(s, st)
    ensures Apply(s, st).cores.Keys == s.cores.Keys
  {
    hide Layout, Handled, Commanding, Ticked, Polled, Drained, Received, Sent, Stopped;
  }
}
