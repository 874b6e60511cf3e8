/**
  Instants, timers and the per-core timer wheel (time.rs). Instants are ticks of
  the system counter, durations are nanoseconds; both conversions round down.
*/
module Instants {

  const NS_PER_SEC: nat := 1_000_000_000

  /** `Duration` to ticks, as adding a duration to an instant computes it. */
  function TicksOf(freq: nat, duration: nat): nat {
    freq * duration / NS_PER_SEC
  }

  /** Ticks to nanoseconds. */
  function NanosOf(freq: nat, ticks: nat): nat
    requires freq > 0
  {
    ticks * NS_PER_SEC / freq
  }

  function AddDuration(freq: nat, t: nat, duration: nat): nat {
    t + TicksOf(freq, duration)
  }

  /** The difference of two instants; it takes the absolute value. */
  function Since(freq: nat, now: nat, started: nat): nat
    requires freq > 0
  {
    NanosOf(freq, if now >= started then now - started else started - now)
  }

  /** A duration in ticks is its exact length in ticks rounded down, once. */
  lemma TicksAreFloor(freq: nat, duration: nat)
    ensures TicksOf(freq, duration) * NS_PER_SEC <= freq * duration < (TicksOf(freq, duration) + 1) * NS_PER_SEC
    ensures TicksOf(freq, duration) * NS_PER_SEC == freq * duration - freq * duration % NS_PER_SEC
  {
    var x := freq * duration;
    assert x == x / NS_PER_SEC * NS_PER_SEC + x % NS_PER_SEC;
  }

  lemma FloorExceeds(x: nat, f: nat, d: nat)
    requires f > 0
    ensures x / f > d <==> x >= (d + 1) * f
  {
    var q, r := x / f, x % f;
    assert x == q * f + r;
    if q >= d + 1 {
      assert q * f >= (d + 1) * f;
    } else {
      assert q * f <= d * f;
      assert (d + 1) * f == d * f + f;
    }
  }

  /** The exact moment the elapsed test turns true, as long as the clock has not run backwards. */
  lemma SinceExceeds(freq: nat, now: nat, started: nat, d: nat)
    requires freq > 0 && started <= now
    ensures Since(freq, now, started) > d <==> (now - started) * NS_PER_SEC >= (d + 1) * freq
  {
    FloorExceeds((now - started) * NS_PER_SEC, freq, d);
  }

  /** Both roundings together: what is over by the nanosecond test is over by the tick count too. */
  lemma ElapsedIsPastDeadline(freq: nat, now: nat, started: nat, d: nat)
    requires freq > 0 && started <= now && Since(freq, now, started) > d
    ensures AddDuration(freq, started, d) < now
  {
    SinceExceeds(freq, now, started, d);
    var ticks := TicksOf(freq, d);
    assert ticks * NS_PER_SEC <= freq * d;
    assert (d + 1) * freq == freq * d + freq;
  }
}

module TimerWheel {
  import opened Common
  import opened Instants

  const COUNTER_WRAP: nat := 0x1_0000_0000_0000_0000

  datatype Interrupt = Direct(vector: nat, kind: nat) | Gsi(gsi: nat)

  datatype Mode = OneShot | Periodic

  datatype Timer = Timer(duration: nat, mode: Mode, started: nat, interrupt: Interrupt)

  /** The timers of one core by number, the number to give out next, and the clock's frequency. */
  datatype Wheel = Wheel(freq: nat, counter: nat, timers: map<nat, Timer>)

  predicate Elapsed(freq: nat, t: Timer, now: nat)
    requires freq > 0
  {
    Since(freq, now, t.started) > t.duration
  }

  function ElapsesAt(freq: nat, t: Timer): nat {
    AddDuration(freq, t.started, t.duration)
  }

  /** `RunningTimer::reset`. */
  function Reset(freq: nat, t: Timer, now: nat): Timer {
    t.(started := if t.mode.Periodic? then ElapsesAt(freq, t) else now)
  }

  /** No timer of the wheel was started after `now`. */
  ghost predicate StartedBy(timers: map<nat, Timer>, now: nat) {
    forall id :: id in timers ==> timers[id].started <= now
  }

  // ---- what one call does, given the clock reading that decided each timer --

  type Readings = map<nat, nat>

  predicate Fires(freq: nat, timers: map<nat, Timer>, at: Readings, mode: Mode, id: nat)
    requires freq > 0
  {
    id in timers && id in at && timers[id].mode == mode && Elapsed(freq, timers[id], at[id])
  }

  ghost function FiredIds(freq: nat, timers: map<nat, Timer>, at: Readings, mode: Mode): set<nat>
    requires freq > 0
  {
    set id | id in timers && Fires(freq, timers, at, mode, id)
  }

  /** Expired one-shots are gone, expired periodic timers restart where they elapsed. */
  ghost function Expired(freq: nat, timers: map<nat, Timer>, at: Readings): map<nat, Timer>
    requires freq > 0
  {
    map id | id in timers && !Fires(freq, timers, at, OneShot, id) ::
      if Fires(freq, timers, at, Periodic, id) then timers[id].(started := ElapsesAt(freq, timers[id])) else timers[id]
  }

  /** The elements of a set in increasing order, as an ordered map iterates over its keys. */
  function Ordered(s: set<nat>): seq<nat>
    decreases |s|
  {
    if s == {} then [] else [Least(s)] + Ordered(s - {Least(s)})
  }

  function Interrupts(timers: map<nat, Timer>, ids: seq<nat>): seq<Interrupt>
    requires forall id :: id in ids ==> id in timers
  {
    seq(|ids|, i requires 0 <= i < |ids| => assert ids[i] in ids; timers[ids[i]].interrupt)
  }

  lemma {:induction false} OrderedMembers(s: set<nat>, x: nat)
    ensures x in Ordered(s) <==> x in s
    decreases |s|
  {
    if s != {} && x != Least(s) { OrderedMembers(s - {Least(s)}, x); }
  }

  /** The system clock, read at unknown moments but never running backwards. */
  class Clock {
    var now: nat

    method Read() returns (t: nat)
      modifies this
      ensures t == now >= old(now)
    {
      t :| t >= now;
      now := t;
    }
  }

  ghost predicate Increasing(q: seq<nat>) {
    forall i, j :: 0 <= i < j < |q| ==> q[i] < q[j]
  }

  lemma {:induction false} IncreasingIsOrdered(q: seq<nat>, s: set<nat>)
    requires Increasing(q) && forall x :: x in q <==> x in s
    ensures q == Ordered(s)
    decreases |q|
  {
    if q == [] {
      assert s == {};
    } else {
      assert q[0] in s && Least(s) in q;
      var k :| 0 <= k < |q| && q[k] == Least(s);
      assert k == 0;
      assert forall x :: x in q[1..] <==> x in s - {q[0]};
      IncreasingIsOrdered(q[1..], s - {q[0]});
    }
  }

  ghost predicate Before(done: set<nat>, rest: set<nat>) {
    forall x, y :: x in done && y in rest ==> x < y
  }

  lemma BeforeNone(rest: set<nat>)
    ensures Before({}, rest)
  {
  }

  lemma BeforeNext(done: set<nat>, rest: set<nat>, id: nat)
    requires Before(done, rest) && IsLeast(id, rest)
    ensures id in rest && Before(done + {id}, rest - {id}) && forall x :: x in done ==> x < id
  {
  }

  /** Every timer was tested at a reading of the clock in this period. */
  ghost predicate ReadBetween(at: Readings, from: nat, to: nat) {
    forall id :: id in at ==> from <= at[id] <= to
  }

  /** A pass over the timers `done`, lowest number first: those of the mode that fire are `ids`. */
  ghost predicate Tested(freq: nat, timers: map<nat, Timer>, mode: Mode, done: set<nat>, ids: seq<nat>, at: Readings)
    requires freq > 0
  {
    && at.Keys == done <= timers.Keys && Increasing(ids)
    && (forall id :: id in ids ==> Fires(freq, timers, at, mode, id))
    && (forall id :: Fires(freq, timers, at, mode, id) ==> id in ids)
  }

  lemma TestedNone(freq: nat, timers: map<nat, Timer>, mode: Mode)
    requires freq > 0
    ensures Tested(freq, timers, mode, {}, [], map[])
  {
  }

  lemma TestedNext(freq: nat, timers: map<nat, Timer>, mode: Mode, done: set<nat>, ids: seq<nat>, at: Readings,
                   id: nat, now: nat)
    requires freq > 0 && Tested(freq, timers, mode, done, ids, at)
    requires id in timers && forall x :: x in done ==> x < id
    ensures Tested(freq, timers, mode, done + {id},
                   if Elapsed(freq, timers[id], now) && timers[id].mode == mode then ids + [id] else ids, at[id := now])
  {
    hide Elapsed;
    var at' := at[id := now];
    assert forall x :: x in done ==> (Fires(freq, timers, at', mode, x) <==> Fires(freq, timers, at, mode, x));
    var ids' := if Elapsed(freq, timers[id], now) && timers[id].mode == mode then ids + [id] else ids;
    forall i | 0 <= i < |ids| ensures ids[i] in done {
      assert Fires(freq, timers, at, mode, ids[i]);
    }
    assert forall x :: x in ids' <==> x in ids || (x == id && Fires(freq, timers, at', mode, id));
    assert forall x :: Fires(freq, timers, at', mode, x) ==> x in done || x == id;
  }

  class CoreWheel {
    const freq: nat
    const coreId: nat
    var counter: nat
    var timers: map<nat, Timer>
    var deadline: Option<nat>

    ghost predicate Valid()
      reads this
    {
      freq > 0 && counter < COUNTER_WRAP
    }

    ghost function View(): Wheel
      reads this
    {
      Wheel(freq, counter, timers)
    }

    constructor (freq: nat, coreId: nat)
      requires freq > 0
      ensures Valid() && View() == Wheel(freq, 0, map[]) && this.coreId == coreId && deadline == None
    {
      this.freq, this.coreId, counter, timers, deadline := freq, coreId, 0, map[], None;
    }

    /** The first pass of `expire_elapsed_timers`: the one-shot timers that have elapsed. */
    method ElapsedOneShots(clock: Clock) returns (ids: seq<nat>, ghost at: Readings)
      requires Valid()
      modifies clock
      ensures Tested(freq, timers, OneShot, timers.Keys, ids, at) && ReadBetween(at, old(clock.now), clock.now)
      ensures clock.now >= old(clock.now)
    {
      hide Elapsed, Tested, Least, Before, IsLeast;
      assert Before({}, timers.Keys) by { BeforeNone(timers.Keys); }
      ids, at := [], map[];
      TestedNone(freq, timers, OneShot);
      var rest := timers.Keys;
      ghost var done := {};
      while rest != {}
        invariant done + rest == timers.Keys && Before(done, rest) && clock.now >= old(clock.now)
        invariant Tested(freq, timers, OneShot, done, ids, at) && ReadBetween(at, old(clock.now), clock.now)
        decreases rest
      {
        var id := Least(rest);
        var now := clock.Read();
        BeforeNext(done, rest, id);
        TestedNext(freq, timers, OneShot, done, ids, at, id, now);
        at := at[id := now];
        if Elapsed(freq, timers[id], now) && timers[id].mode == OneShot { ids := ids + [id]; }
        rest, done := rest - {id}, done + {id};
      }
    }

    /** Taking the elapsed one-shot timers off the wheel. */
    method RemoveElapsed(ids: seq<nat>) returns (interrupts: seq<Interrupt>)
      requires Increasing(ids) && forall id :: id in ids ==> id in timers
      modifies this`timers
      ensures timers == old(timers) - (set id | id in ids)
      ensures interrupts == Interrupts(old(timers), ids)
    {
      interrupts := [];
      for i := 0 to |ids|
        invariant timers == old(timers) - (set id | id in ids[..i])
        invariant interrupts == Interrupts(old(timers), ids[..i])
      {
        assert ids[i] in ids && ids[i] !in ids[..i];
        assert ids[..i + 1] == ids[..i] + [ids[i]];
        interrupts := interrupts + [timers[ids[i]].interrupt];
        timers := timers - {ids[i]};
      }
      assert ids[..|ids|] == ids;
    }

    /** The second pass: elapsed periodic timers fire and restart where they elapsed. */
    method ResetElapsed(clock: Clock) returns (interrupts: seq<Interrupt>, ghost ids: seq<nat>, ghost at: Readings)
      requires Valid()
      modifies this`timers, clock
      ensures Tested(freq, old(timers), Periodic, old(timers).Keys, ids, at)
      ensures ReadBetween(at, old(clock.now), clock.now) && clock.now >= old(clock.now)
      ensures timers == ResetAll(freq, old(timers), ids)
      ensures (forall id :: id in ids ==> id in old(timers)) && interrupts == Interrupts(old(timers), ids)
    {
      hide Elapsed, Tested, Least, Before, IsLeast;
      ghost var before := timers;
      BeforeNone(timers.Keys);
      TestedNone(freq, timers, Periodic);
      interrupts, ids, at := [], [], map[];
      var rest := timers.Keys;
      ghost var done := {};
      while rest != {}
        invariant done + rest == before.Keys == timers.Keys && Before(done, rest) && clock.now >= old(clock.now)
        invariant Tested(freq, before, Periodic, done, ids, at) && ReadBetween(at, old(clock.now), clock.now)
        invariant forall id :: id in rest ==> timers[id] == before[id] && id !in ids
        invariant forall id :: id in ids ==> id in before
        invariant timers == ResetAll(freq, before, ids) && interrupts == Interrupts(before, ids)
        decreases rest
      {
        var id := Least(rest);
        var now := clock.Read();
        BeforeNext(done, rest, id);
        TestedNext(freq, before, Periodic, done, ids, at, id, now);
        at := at[id := now];
        if Elapsed(freq, timers[id], now) && timers[id].mode == Periodic {
          interrupts := interrupts + [timers[id].interrupt];
          timers := timers[id := Reset(freq, timers[id], now)];
          ids := ids + [id];
        }
        rest, done := rest - {id}, done + {id};
      }
    }

    /**
      `expire_elapsed_timers`. Each timer is judged by one reading of the clock
      taken during the call; the timers that fire do so once, one-shots first and
      each group in order of number.
    */
    method ExpireElapsedTimers(clock: Clock) returns (interrupts: seq<Interrupt>, ghost at: Readings)
      requires Valid()
      modifies this`timers, this`deadline, clock
      ensures Valid() && at.Keys == old(timers).Keys
      ensures ReadBetween(at, old(clock.now), clock.now) && clock.now >= old(clock.now)
      ensures View() == Step(old(View()), Expire(at, old(clock.now), clock.now))
      ensures interrupts ==
              FiredInterrupts(freq, old(timers), at, OneShot) + FiredInterrupts(freq, old(timers), at, Periodic)
      ensures deadline == NextDeadline(freq, timers, old(deadline))
    {
      hide Elapsed, Tested, Interrupts, Ordered, Soonest;
      ghost var before := timers;
      var oneShots, at1 := ElapsedOneShots(clock);
      TestedMeans(freq, before, OneShot, before.Keys, oneShots, at1);
      var removed := RemoveElapsed(oneShots);
      ghost var middle := timers;
      var restarted, periodic, at2 := ResetElapsed(clock);
      TestedMeans(freq, middle, Periodic, middle.Keys, periodic, at2);
      at := Judged(before, at1, at2);
      PassesAgree(freq, before, middle, at1, at2, oneShots, periodic);
      assert Interrupts(middle, periodic) == Interrupts(before, periodic) by {
        SameInterrupts(middle, before, periodic);
      }
      interrupts := removed + restarted;
      UpdateDeadline();
    }

    /** `register_timer`: the next number, started at a reading of the clock. */
    method RegisterTimer(clock: Clock, duration: nat, mode: Mode, interrupt: Interrupt)
      returns (id: TimerId, ghost now: nat)
      requires Valid()
      modifies this`timers, this`counter, this`deadline, clock
      ensures Valid() && id == TimerId(old(counter), coreId)
      ensures old(clock.now) <= now == clock.now
      ensures View() == Step(old(View()), Register(duration, mode, interrupt, now))
      ensures deadline == NextDeadline(freq, timers, old(deadline))
    {
      id := TimerId(counter, coreId);
      var t := clock.Read();
      timers := timers[counter := Timer(duration, mode, t, interrupt)];
      counter := (counter + 1) % COUNTER_WRAP;
      UpdateDeadline();
      now := t;
    }

    /** `remove_timer`: numbers are per core, so an id of another core names no timer here. */
    method RemoveTimer(id: TimerId)
      requires Valid()
      modifies this`timers, this`deadline
      ensures Valid() && View() == if id.coreId == coreId then Step(old(View()), Remove(id.timerId)) else old(View())
      ensures deadline == NextDeadline(freq, timers, old(deadline))
    {
      if id.coreId == coreId { timers := timers - {id.timerId}; }
      UpdateDeadline();
    }

    /** `cancel_timer`: remove it here, or say which core to send the cancel to. */
    method CancelTimer(id: TimerId) returns (sendTo: Option<nat>)
      requires Valid()
      modifies this`timers, this`deadline
      ensures Valid()
      ensures id.coreId == coreId ==> sendTo == None && View() == Step(old(View()), Remove(id.timerId))
      ensures id.coreId != coreId ==> sendTo == Some(id.coreId) && View() == old(View())
    {
      if id.coreId == coreId {
        RemoveTimer(id);
        sendTo := None;
      } else {
        sendTo := Some(id.coreId);
      }
    }

    /** `update_interrupt_timer`: the soonest instant a timer elapses goes to the local APIC. */
    method UpdateDeadline()
      modifies this`deadline
      ensures deadline == NextDeadline(freq, timers, old(deadline))
    {
      if timers != map[] { deadline := Some(Soonest(freq, timers)); }
    }
  }

  function Deadlines(freq: nat, timers: map<nat, Timer>): set<nat> {
    set id | id in timers :: ElapsesAt(freq, timers[id])
  }

  function Soonest(freq: nat, timers: map<nat, Timer>): (t: nat)
    requires timers != map[]
    ensures IsLeast(t, Deadlines(freq, timers))
  {
    assert Deadlines(freq, timers) != {} by {
      var id :| id in timers;
      assert ElapsesAt(freq, timers[id]) in Deadlines(freq, timers);
    }
    Least(Deadlines(freq, timers))
  }

  function NextDeadline(freq: nat, timers: map<nat, Timer>, last: Option<nat>): Option<nat> {
    if timers == map[] then last else Some(Soonest(freq, timers))
  }

  ghost function ResetAll(freq: nat, timers: map<nat, Timer>, ids: seq<nat>): map<nat, Timer> {
    map id | id in timers :: if id in ids then timers[id].(started := ElapsesAt(freq, timers[id])) else timers[id]
  }

  ghost function FiredInterrupts(freq: nat, timers: map<nat, Timer>, at: Readings, mode: Mode): seq<Interrupt>
    requires freq > 0
  {
    var ids := Ordered(FiredIds(freq, timers, at, mode));
    FiredAreTimers(freq, timers, at, mode);
    Interrupts(timers, ids)
  }

  lemma FiredAreTimers(freq: nat, timers: map<nat, Timer>, at: Readings, mode: Mode)
    requires freq > 0
    ensures forall id :: id in Ordered(FiredIds(freq, timers, at, mode)) ==> id in timers
  {
    forall id | id in Ordered(FiredIds(freq, timers, at, mode)) ensures id in timers {
      OrderedMembers(FiredIds(freq, timers, at, mode), id);
    }
  }

  lemma TestedMeans(freq: nat, timers: map<nat, Timer>, mode: Mode, done: set<nat>, ids: seq<nat>, at: Readings)
    requires freq > 0 && Tested(freq, timers, mode, done, ids, at)
    ensures at.Keys == done && ids == Ordered(FiredIds(freq, timers, at, mode))
    ensures forall id :: id in ids <==> Fires(freq, timers, at, mode, id)
    ensures Increasing(ids)
  {
    hide Elapsed;
    IncreasingIsOrdered(ids, FiredIds(freq, timers, at, mode));
  }

  /** The reading that decided each timer: the first pass for one-shots, the second for the rest. */
  ghost function Judged(timers: map<nat, Timer>, at1: Readings, at2: Readings): Readings {
    map id | id in timers ::
      if timers[id].mode == OneShot && id in at1 then at1[id] else if id in at2 then at2[id] else 0
  }

  lemma SameInterrupts(timers: map<nat, Timer>, timers': map<nat, Timer>, ids: seq<nat>)
    requires forall id :: id in ids ==> id in timers && id in timers' && timers[id] == timers'[id]
    ensures Interrupts(timers, ids) == Interrupts(timers', ids)
  {
    assert forall i :: 0 <= i < |ids| ==> ids[i] in ids;
  }

  /** Two passes, each over what the one before left, make one judgement of every timer. */
  lemma PassesAgree(freq: nat, before: map<nat, Timer>, middle: map<nat, Timer>, at1: Readings, at2: Readings,
                    oneShots: seq<nat>, periodic: seq<nat>)
    requires freq > 0 && at1.Keys == before.Keys && at2.Keys == middle.Keys
    requires oneShots == Ordered(FiredIds(freq, before, at1, OneShot))
    requires forall id :: id in oneShots <==> Fires(freq, before, at1, OneShot, id)
    requires middle == before - (set id | id in oneShots)
    requires periodic == Ordered(FiredIds(freq, middle, at2, Periodic))
    requires forall id :: id in periodic <==> Fires(freq, middle, at2, Periodic, id)
    ensures var at := Judged(before, at1, at2);
            && oneShots == Ordered(FiredIds(freq, before, at, OneShot))
            && periodic == Ordered(FiredIds(freq, before, at, Periodic))
            && (forall id :: id in before ==> at[id] == if before[id].mode == OneShot then at1[id] else at2[id])
            && ResetAll(freq, middle, periodic) == Expired(freq, before, at)
            && (forall id :: id in periodic ==> id in middle && middle[id] == before[id])
  {
    hide Elapsed, ElapsesAt;
    var at := Judged(before, at1, at2);
    assert forall id :: id in before && before[id].mode == Periodic ==> id in middle;
    assert FiredIds(freq, before, at, OneShot) == FiredIds(freq, before, at1, OneShot);
    assert FiredIds(freq, before, at, Periodic) == FiredIds(freq, middle, at2, Periodic);
  }

  // ---- runs of the wheel ---------------------------------------------------

  datatype TimerId = TimerId(timerId: nat, coreId: nat)

  datatype Op =
    | Register(duration: nat, mode: Mode, interrupt: Interrupt, now: nat)
    | Expire(at: Readings, from: nat, to: nat)
    | Remove(id: nat)

  ghost function Step(w: Wheel, op: Op): Wheel
    requires w.freq > 0
  {
    match op
    case Register(d, mode, interrupt, now) =>
      w.(counter := (w.counter + 1) % COUNTER_WRAP, timers := w.timers[w.counter := Timer(d, mode, now, interrupt)])
    case Expire(at, _, _) => w.(timers := Expired(w.freq, w.timers, at))
    case Remove(id) => w.(timers := w.timers - {id})
  }

  function ClockAfter(clock: nat, op: Op): nat {
    match op
    case Register(_, _, _, now) => now
    case Expire(_, _, to) => to
    case Remove(_) => clock
  }

  /** The operation reads the clock as the methods do: no earlier than before, once per timer when expiring. */
  ghost predicate Timely(w: Wheel, clock: nat, op: Op) {
    match op
    case Register(_, _, _, now) => clock <= now
    case Expire(at, from, to) => clock <= from <= to && at.Keys == w.timers.Keys && ReadBetween(at, from, to)
    case Remove(_) => true
  }

  ghost predicate IsRun(w: Wheel, clock: nat, ops: seq<Op>)
    requires w.freq > 0
    decreases |ops|
  {
    ops == [] || (Timely(w, clock, ops[0]) && IsRun(Step(w, ops[0]), ClockAfter(clock, ops[0]), ops[1..]))
  }

  ghost function WheelAfter(w: Wheel, ops: seq<Op>): Wheel
    requires w.freq > 0
    decreases |ops|
  {
    if ops == [] then w else WheelAfter(Step(w, ops[0]), ops[1..])
  }

  function ClockAfterAll(clock: nat, ops: seq<Op>): nat
    decreases |ops|
  {
    if ops == [] then clock else ClockAfterAll(ClockAfter(clock, ops[0]), ops[1..])
  }

  ghost function FiresIn(w: Wheel, op: Op, mode: Mode, id: nat): nat
    requires w.freq > 0
  {
    if op.Expire? && Fires(w.freq, w.timers, op.at, mode, id) then 1 else 0
  }

  /** How often a timer fired in a run. */
  ghost function FireCount(w: Wheel, ops: seq<Op>, mode: Mode, id: nat): nat
    requires w.freq > 0
    decreases |ops|
  {
    if ops == [] then 0 else FiresIn(w, ops[0], mode, id) + FireCount(Step(w, ops[0]), ops[1..], mode, id)
  }

  /** How often a live timer was removed in a run. */
  ghost function RemoveCount(w: Wheel, ops: seq<Op>, id: nat): nat
    requires w.freq > 0
    decreases |ops|
  {
    if ops == [] then 0
    else (if ops[0] == Remove(id) && id in w.timers then 1 else 0) + RemoveCount(Step(w, ops[0]), ops[1..], id)
  }

  function RegisterCount(ops: seq<Op>): nat
    decreases |ops|
  {
    if ops == [] then 0 else (if ops[0].Register? then 1 else 0) + RegisterCount(ops[1..])
  }

  /** Live timers bear numbers already given out, and the counter will not wrap in this run. */
  ghost predicate Numbered(w: Wheel, ops: seq<Op>) {
    w.counter + RegisterCount(ops) < COUNTER_WRAP && forall id :: id in w.timers ==> id < w.counter
  }

  function One(b: bool): nat { if b then 1 else 0 }

  lemma NumberedStep(w: Wheel, ops: seq<Op>)
    requires w.freq > 0 && ops != [] && Numbered(w, ops)
    ensures Step(w, ops[0]).freq == w.freq && Numbered(Step(w, ops[0]), ops[1..])
    ensures Step(w, ops[0]).counter == w.counter + One(ops[0].Register?)
  {
    hide Fires, Instants.AddDuration;
  }

  /**
    Conservation: in every run, whether a timer is live at the end, how often it
    was removed and how often it fired as a one-shot add up to whether it was
    live at the start or registered in the run. So a one-shot timer is at each
    moment exactly one of live, fired once, or removed.
  */
  lemma {:induction false} TimersAreConserved(w: Wheel, clock: nat, ops: seq<Op>, id: nat)
    requires w.freq > 0 && IsRun(w, clock, ops) && Numbered(w, ops)
    ensures One(id in WheelAfter(w, ops).timers) + RemoveCount(w, ops, id) + FireCount(w, ops, OneShot, id)
            == One(id in w.timers) + One(w.counter <= id < w.counter + RegisterCount(ops))
    decreases |ops|
  {
    hide Fires, ElapsesAt;
    if ops != [] {
      NumberedStep(w, ops);
      TimersAreConserved(Step(w, ops[0]), ClockAfter(clock, ops[0]), ops[1..], id);
      StepConserves(w, ops[0], id);
    }
  }

  lemma StepConserves(w: Wheel, op: Op, id: nat)
    requires w.freq > 0 && forall i :: i in w.timers ==> i < w.counter
    ensures One(id in Step(w, op).timers) + One(op == Remove(id) && id in w.timers) + FiresIn(w, op, OneShot, id)
            == One(id in w.timers) + One(op.Register? && id == w.counter)
  {
    hide Elapsed, ElapsesAt;
  }

  /** A timer that was removed, or fired as a one-shot, never fires again. */
  lemma {:induction false} GoneTimersStaySilent(w: Wheel, clock: nat, ops: seq<Op>, id: nat, mode: Mode)
    requires w.freq > 0 && IsRun(w, clock, ops) && Numbered(w, ops) && id < w.counter && id !in w.timers
    ensures FireCount(w, ops, mode, id) == 0 && id !in WheelAfter(w, ops).timers
    decreases |ops|
  {
    hide Elapsed, ElapsesAt;
    if ops != [] {
      NumberedStep(w, ops);
      GoneTimersStaySilent(Step(w, ops[0]), ClockAfter(clock, ops[0]), ops[1..], id, mode);
    }
  }

  /** A timer fires exactly when its time is up, counted in whole nanoseconds. */
  lemma FiresWhenDue(w: Wheel, at: Readings, id: nat)
    requires w.freq > 0 && id in w.timers && id in at && w.timers[id].started <= at[id]
    ensures Fires(w.freq, w.timers, at, w.timers[id].mode, id) <==>
            (at[id] - w.timers[id].started) * NS_PER_SEC >= (w.timers[id].duration + 1) * w.freq
    ensures Fires(w.freq, w.timers, at, w.timers[id].mode, id) ==> ElapsesAt(w.freq, w.timers[id]) < at[id]
  {
    var t := w.timers[id];
    SinceExceeds(w.freq, at[id], t.started, t.duration);
    if Fires(w.freq, w.timers, at, t.mode, id) { ElapsedIsPastDeadline(w.freq, at[id], t.started, t.duration); }
  }

  lemma StepStartedBy(w: Wheel, clock: nat, op: Op)
    requires w.freq > 0 && Timely(w, clock, op) && StartedBy(w.timers, clock)
    ensures StartedBy(Step(w, op).timers, ClockAfter(clock, op)) && clock <= ClockAfter(clock, op)
  {
    hide Elapsed, ElapsesAt;
    if op.Expire? {
      forall id | id in Step(w, op).timers
        ensures Step(w, op).timers[id].started <= op.to
      {
        FiresWhenDue(w, op.at, id);
      }
    }
  }

  /**
    No wheel ever holds a timer started after the present: a periodic restart
    lands strictly before the reading that caused it. This is what the
    absolute-value subtraction relies on.
  */
  lemma {:induction false} StartsStayInThePast(w: Wheel, clock: nat, ops: seq<Op>)
    requires w.freq > 0 && IsRun(w, clock, ops) && StartedBy(w.timers, clock)
    ensures StartedBy(WheelAfter(w, ops).timers, ClockAfterAll(clock, ops)) && clock <= ClockAfterAll(clock, ops)
    decreases |ops|
  {
    if ops != [] {
      StepStartedBy(w, clock, ops[0]);
      StartsStayInThePast(Step(w, ops[0]), ClockAfter(clock, ops[0]), ops[1..]);
    }
  }

  /**
    A periodic timer does not drift: as long as it is not removed, after k
    firings it counts from exactly k whole periods after its start.
  */
  lemma {:induction false} PeriodicDoesNotDrift(w: Wheel, clock: nat, ops: seq<Op>, id: nat)
    requires w.freq > 0 && IsRun(w, clock, ops) && Numbered(w, ops) && StartedBy(w.timers, clock)
    requires id in w.timers && w.timers[id].mode == Periodic && RemoveCount(w, ops, id) == 0
    ensures id in WheelAfter(w, ops).timers
    ensures var t := w.timers[id];
            WheelAfter(w, ops).timers[id]
            == t.(started := t.started + FireCount(w, ops, Periodic, id) * TicksOf(w.freq, t.duration))
    decreases |ops|
  {
    hide Elapsed, TicksOf, Step, FiresIn, ClockAfter, Timely;
    if ops != [] {
      var op := ops[0];
      NumberedStep(w, ops);
      StepStartedBy(w, clock, op);
      PeriodicStep(w, clock, op, id);
      PeriodicDoesNotDrift(Step(w, op), ClockAfter(clock, op), ops[1..], id);
      Distribute(FiresIn(w, op, Periodic, id), FireCount(Step(w, op), ops[1..], Periodic, id),
                 TicksOf(w.freq, w.timers[id].duration));
    }
  }

  lemma WholePeriods(freq: nat, duration: nat, k: nat)
    ensures k * TicksOf(freq, duration) * NS_PER_SEC == k * (freq * duration - freq * duration % NS_PER_SEC)
    ensures k * TicksOf(freq, duration) * NS_PER_SEC <= k * (freq * duration)
    ensures k * (freq * duration) <= k * TicksOf(freq, duration) * NS_PER_SEC + k * (NS_PER_SEC - 1)
  {
    TicksAreFloor(freq, duration);
    hide TicksOf;
    var ticks, lost := TicksOf(freq, duration), freq * duration % NS_PER_SEC;
    Regroup(k, ticks);
    Distributed(k, ticks * NS_PER_SEC, lost);
    Monotone(k, lost, NS_PER_SEC - 1);
  }

  lemma Regroup(k: nat, ticks: nat)
    ensures k * ticks * NS_PER_SEC == k * (ticks * NS_PER_SEC)
  {
  }

  lemma Distributed(k: nat, a: nat, b: nat)
    ensures k * (a + b) == k * a + k * b
  {
  }

  lemma Monotone(k: nat, a: nat, b: nat)
    requires a <= b
    ensures k * a <= k * b
  {
  }

  /**
    The same against real time: after k firings a periodic timer counts from k times its period, each rounded down to
    a tick once, so it is behind k exact periods by less than k ticks and never ahead.
  */
  lemma PeriodicKeepsTime(w: Wheel, clock: nat, ops: seq<Op>, id: nat)
    requires w.freq > 0 && IsRun(w, clock, ops) && Numbered(w, ops) && StartedBy(w.timers, clock)
    requires id in w.timers && w.timers[id].mode == Periodic && RemoveCount(w, ops, id) == 0
    ensures id in WheelAfter(w, ops).timers
    ensures var t, t' := w.timers[id], WheelAfter(w, ops).timers[id];
            var k, period := FireCount(w, ops, Periodic, id), w.freq * t.duration;
            && t'.duration == t.duration && t'.mode == t.mode && t'.interrupt == t.interrupt && t'.started >= t.started
            && (t'.started - t.started) * NS_PER_SEC == k * (period - period % NS_PER_SEC)
            && (t'.started - t.started) * NS_PER_SEC <= k * period
            && k * period <= (t'.started - t.started) * NS_PER_SEC + k * (NS_PER_SEC - 1)
  {
    hide TicksOf, IsRun, WheelAfter, FireCount, RemoveCount;
    PeriodicDoesNotDrift(w, clock, ops, id);
    WholePeriods(w.freq, w.timers[id].duration, FireCount(w, ops, Periodic, id));
  }

  lemma Distribute(a: nat, b: nat, c: nat)
    ensures (a + b) * c == a * c + b * c
  {
  }

  lemma PeriodicStep(w: Wheel, clock: nat, op: Op, id: nat)
    requires w.freq > 0 && Timely(w, clock, op) && StartedBy(w.timers, clock)
    requires forall i :: i in w.timers ==> i < w.counter
    requires id in w.timers && w.timers[id].mode == Periodic && op != Remove(id)
    ensures id in Step(w, op).timers
    ensures var t := w.timers[id];
            Step(w, op).timers[id] ==
            t.(started := t.started + FiresIn(w, op, Periodic, id) * TicksOf(w.freq, t.duration))
    ensures FiresIn(w, op, Periodic, id) > 0 ==> Step(w, op).timers[id].started < ClockAfter(clock, op)
  {
    hide Elapsed, TicksOf;
    if op.Expire? { FiresWhenDue(w, op.at, id); }
  }

  /** Nor does it get ahead: once it has fired, it counts from strictly before the present. */
  lemma {:induction false} PeriodicStaysBehind(w: Wheel, clock: nat, ops: seq<Op>, id: nat)
    requires w.freq > 0 && IsRun(w, clock, ops) && Numbered(w, ops) && StartedBy(w.timers, clock)
    requires id in w.timers && w.timers[id].mode == Periodic && RemoveCount(w, ops, id) == 0
    requires FireCount(w, ops, Periodic, id) > 0 || w.timers[id].started < clock
    ensures id in WheelAfter(w, ops).timers && WheelAfter(w, ops).timers[id].started < ClockAfterAll(clock, ops)
    decreases |ops|
  {
    hide Elapsed, TicksOf, Step, FiresIn, ClockAfter, Timely;
    if ops != [] {
      var op := ops[0];
      NumberedStep(w, ops);
      StepStartedBy(w, clock, op);
      PeriodicStep(w, clock, op, id);
      if FiresIn(w, op, Periodic, id) == 0 { Distribute(0, 0, TicksOf(w.freq, w.timers[id].duration)); }
      PeriodicStaysBehind(Step(w, op), ClockAfter(clock, op), ops[1..], id);
    }
  }
}
