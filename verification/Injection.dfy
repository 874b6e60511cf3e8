/**
  Delivering interrupts to a virtual CPU (vcpu.rs, `handle_vmexit`): pending
  interrupts by vector, one injected per exit at which the guest can take it,
  and the interrupt-window control to get the next such exit.
*/
module Injection {
  import opened Bits
  import opened Common

  datatype Kind =
    | ExternalInterrupt | NonMaskableInterrupt | HardwareException | SoftwareInterrupt
    | PrivilegedSoftwareException | SoftwareException | OtherEvent

  function KindCode(k: Kind): (c: nat)
    ensures c < 8
  {
    match k
    case ExternalInterrupt => 0
    case NonMaskableInterrupt => 2
    case HardwareException => 3
    case SoftwareInterrupt => 4
    case PrivilegedSoftwareException => 5
    case SoftwareException => 6
    case OtherEvent => 7
  }

  type Pending = map<nat, Kind>

  datatype Arrival = Arrival(vector: nat, kind: Kind)

  /** `inject_interrupt` for each arrival; a vector already pending takes the new kind. */
  function Arrive(p: Pending, arrivals: seq<Arrival>): Pending
    decreases |arrivals|
  {
    if arrivals == [] then p else Arrive(p[arrivals[0].vector := arrivals[0].kind], arrivals[1..])
  }

  /** Some arrival has the vector, and `i` is the last that does. */
  ghost predicate LastArrival(arrivals: seq<Arrival>, v: nat, i: nat) {
    && i < |arrivals| && arrivals[i].vector == v
    && forall j :: i < j < |arrivals| ==> arrivals[j].vector != v
  }

  /** Every arrival becomes pending with the kind of the last of its vector; nothing else changes. */
  lemma {:induction false} ArriveMeans(p: Pending, arrivals: seq<Arrival>, v: nat)
    ensures v in Arrive(p, arrivals) <==> v in p || exists i :: 0 <= i < |arrivals| && arrivals[i].vector == v
    ensures forall i: nat :: LastArrival(arrivals, v, i) ==>
              v in Arrive(p, arrivals) && Arrive(p, arrivals)[v] == arrivals[i].kind
    ensures v in p && (forall i :: 0 <= i < |arrivals| ==> arrivals[i].vector != v) ==>
              v in Arrive(p, arrivals) && Arrive(p, arrivals)[v] == p[v]
    decreases |arrivals|
  {
    if arrivals != [] {
      var a, rest := arrivals[0], arrivals[1..];
      var p' := p[a.vector := a.kind];
      ArriveMeans(p', rest, v);
      assert forall i :: 0 < i < |arrivals| ==> arrivals[i] == rest[i - 1];
      if a.vector == v {
        assert v in p';
      } else if i :| 0 <= i < |arrivals| && arrivals[i].vector == v {
        assert rest[i - 1].vector == v;
      }
      forall i: nat | LastArrival(arrivals, v, i)
        ensures v in Arrive(p, arrivals) && Arrive(p, arrivals)[v] == arrivals[i].kind
      {
        if i > 0 {
          assert LastArrival(rest, v, i - 1);
        } else {
          assert forall j :: 0 <= j < |rest| ==> rest[j] == arrivals[j + 1];
        }
      }
    }
  }

  // ---- the VMCS fields -----------------------------------------------------

  const INTERRUPT_WINDOW_EXITING: nat := 0x4
  const RFLAGS_IF: nat := 0x200
  const ENTRY_VALID: nat := 0x8000_0000

  predicate WindowSet(control: nat) {
    BitAnd(control, INTERRUPT_WINDOW_EXITING) != 0
  }

  function EntryInfo(vector: nat, kind: Kind): nat {
    BitOr(BitOr(ENTRY_VALID, vector), KindCode(kind) * 256)
  }

  /** What the processor reads in the VM-entry interruption-information field. */
  predicate Carries(info: nat, vector: nat, kind: Kind) {
    info / ENTRY_VALID == 1 && info % 256 == vector && info / 256 % 8 == KindCode(kind)
  }

  lemma WindowBit(control: nat)
    ensures WindowSet(control) <==> control / 4 % 2 == 1
  {
    assert Pow2(2) == 4 && Pow2(1) == 2 && Shl(Pow2(1) - 1, 2) == 4;
    AndField(2, 1, control);
    ShlIsTimes(control / 4 % 2, 2);
  }

  lemma WindowWritten(control: nat)
    ensures WindowSet(BitOr(control, INTERRUPT_WINDOW_EXITING))
    ensures !WindowSet(BitClear(control, INTERRUPT_WINDOW_EXITING))
  {
    hide Bitwise, WindowSet;
    WindowBit(BitOr(control, 4));
    WindowBit(BitClear(control, 4));
    Step(Or, control, 4);
    Step(Or, control / 2, 2);
    Step(Or, control / 4, 1);
    Step(AndNot, control, 4);
    Step(AndNot, control / 2, 2);
    Step(AndNot, control / 4, 1);
    Identities(control / 8);
    assert control / 2 / 2 == control / 4 && control / 4 / 2 == control / 8;
  }

  lemma {:induction false} OrCommutes(a: nat, b: nat)
    ensures BitOr(a, b) == BitOr(b, a)
    decreases a + b
  {
    if a != 0 || b != 0 { OrCommutes(a / 2, b / 2); }
  }

  lemma EntryInfoIsSum(vector: nat, kind: Kind)
    requires vector < 256
    ensures EntryInfo(vector, kind) == ENTRY_VALID + vector + KindCode(kind) * 256
  {
    hide Bitwise, KindCode;
    var code := KindCode(kind) * 256;
    assert Pow2(8) == 256;
    PowerOf31();
    LowBitsOnly(Or, 31, ENTRY_VALID, 0, vector);
    Identities(vector);
    LowBitsOnly(Or, 31, ENTRY_VALID, vector, code);
    OrCommutes(vector, code);
    LowBitsOnly(Or, 8, code, 0, vector);
    Identities(code);
  }

  /** The field written for an injection is valid and carries that vector and kind. */
  lemma EntryInfoCarries(vector: nat, kind: Kind)
    requires vector < 256
    ensures Carries(EntryInfo(vector, kind), vector, kind)
  {
    hide EntryInfo, KindCode;
    EntryInfoIsSum(vector, kind);
  }

  /** The entry field as the processor reads it: bit 31, the event type in bits 10:8, the vector in bits 7:0. */
  lemma EntryInfoBits(vector: nat, kind: Kind)
    requires vector < 256
    ensures EntryInfo(vector, kind) == 0x8000_0000 + vector +
            (match kind
             case ExternalInterrupt => 0
             case NonMaskableInterrupt => 0x200
             case HardwareException => 0x300
             case SoftwareInterrupt => 0x400
             case PrivilegedSoftwareException => 0x500
             case SoftwareException => 0x600
             case OtherEvent => 0x700)
  {
    hide EntryInfo;
    EntryInfoIsSum(vector, kind);
  }

  lemma PowerOf31()
    ensures Pow2(31) == 0x8000_0000
  {
    PowerValues();
    assert Pow2(32) == 2 * Pow2(31);
  }

  // ---- one exit, on values -------------------------------------------------

  /** A virtual CPU at the return to the guest: what waits, and what the guest is given. */
  datatype Cpu = Cpu(pending: Pending, window: bool, injected: Option<Arrival>)

  /** An exit: the interrupts that arrive while handling it, and whether the guest could take one. */
  datatype Exit = Exit(arrivals: seq<Arrival>, interruptible: bool)

  /** The specification of `handle_vmexit`: inject the least vector when possible, and ask for a window for the rest. */
  ghost predicate Handles(c: Cpu, e: Exit, c': Cpu) {
    var p := Arrive(c.pending, e.arrivals);
    if p == map[] then c' == Cpu(map[], c.window, None)
    else if !e.interruptible then c' == Cpu(p, true, None)
    else
      exists v :: IsLeast(v, p.Keys) && c' == Cpu(p - {v}, p.Keys != {v}, Some(Arrival(v, p[v])))
  }

  /** The state a VCPU starts in. */
  ghost predicate Initial(c: Cpu) {
    c == Cpu(map[], false, None)
  }

  /** A run: the states before and after each exit. */
  ghost predicate IsRun(states: seq<Cpu>, exits: seq<Exit>) {
    && |states| == |exits| + 1
    && forall i :: 0 <= i < |exits| ==> Handles(states[i], exits[i], states[i + 1])
  }

  // ---- the device ----------------------------------------------------------

  class VCpu {
    var pending: Pending
    var execControl: nat
    var entryInfo: nat
    ghost var injected: Option<Arrival>

    /** The fields show the state: the window bit, and a valid entry field exactly for an injection. */
    ghost predicate Valid()
      reads this
    {
      && (forall v :: v in pending ==> v < 256)
      && (injected.None? ==> entryInfo / ENTRY_VALID % 2 == 0)
      && (injected.Some? ==> Carries(entryInfo, injected.value.vector, injected.value.kind))
    }

    ghost function View(): Cpu
      reads this
    {
      Cpu(pending, WindowSet(execControl), injected)
    }

    constructor (execControl: nat)
      requires !WindowSet(execControl)
      ensures Valid() && Initial(View())
    {
      pending, this.execControl, entryInfo, injected := map[], execControl, 0, None;
    }

    method InjectInterrupt(vector: nat, kind: Kind)
      requires Valid() && vector < 256
      modifies this`pending
      ensures Valid() && pending == old(pending)[vector := kind]
    {
      pending := pending[vector := kind];
    }

    /** The processor clears the valid bit of the entry field on every VM exit. */
    method EnterHost()
      requires Valid()
      modifies this`entryInfo, this`injected
      ensures Valid() && View() == old(View()).(injected := None)
    {
      entryInfo, injected := entryInfo % ENTRY_VALID, None;
    }

    method InjectAll(arrivals: seq<Arrival>)
      requires Valid() && forall i :: 0 <= i < |arrivals| ==> arrivals[i].vector < 256
      modifies this`pending
      ensures Valid() && pending == Arrive(old(pending), arrivals)
    {
      for i := 0 to |arrivals|
        invariant Valid() && Arrive(pending, arrivals[i..]) == Arrive(old(pending), arrivals)
      {
        assert arrivals[i..][1..] == arrivals[i + 1..];
        InjectInterrupt(arrivals[i].vector, arrivals[i].kind);
      }
    }

    /**
      `handle_vmexit` from the point where the exit itself has been handled
      without error, having injected `arrivals`. It fails only on an
      interruptibility state it does not know.
    */
    method HandleVmexit(arrivals: seq<Arrival>, interruptibility: nat, rflags: nat) returns (ok: bool)
      requires Valid() && injected == None && forall i :: 0 <= i < |arrivals| ==> arrivals[i].vector < 256
      modifies this
      ensures Valid()
      ensures ok <==> interruptibility < 32 || Arrive(old(pending), arrivals) == map[]
      ensures ok ==> Handles(old(View()), Exit(arrivals, interruptibility == 0 && rflags / 512 % 2 == 1), View())
    {
      hide BitOr, BitClear, BitAnd, EntryInfo, Carries, WindowSet, Arrive, Least;
      InjectAll(arrivals);
      if pending == map[] { return true; }
      if interruptibility >= 32 { return false; }
      InterruptFlag(rflags);
      var field := execControl;
      WindowWritten(field);
      if interruptibility != 0 || BitAnd(rflags, RFLAGS_IF) == 0 {
        execControl := BitOr(field, INTERRUPT_WINDOW_EXITING);
        return true;
      }
      execControl := BitClear(field, INTERRUPT_WINDOW_EXITING);
      var v := Least(pending.Keys);
      OneLeft(pending, v);
      ghost var p := pending;
      EntryInfoCarries(v, pending[v]);
      entryInfo, injected := EntryInfo(v, pending[v]), Some(Arrival(v, pending[v]));
      pending := pending - {v};
      if pending != map[] {
        execControl := BitOr(field, INTERRUPT_WINDOW_EXITING);
      } else {
        execControl := BitClear(field, INTERRUPT_WINDOW_EXITING);
      }
      assert View() == Cpu(p - {v}, p.Keys != {v}, Some(Arrival(v, p[v])));
      ok := true;
    }
  }

  /** The values an exit presents to `handle_vmexit`: what arrived, and two fields that say if the guest takes it. */
  datatype RawExit = RawExit(arrivals: seq<Arrival>, interruptibility: nat, rflags: nat)

  function ExitOf(raw: RawExit): Exit {
    Exit(raw.arrivals, raw.interruptibility == 0 && raw.rflags / 512 % 2 == 1)
  }

  function ExitsOf(raws: seq<RawExit>): (r: seq<Exit>)
    ensures |r| == |raws| && forall i :: 0 <= i < |raws| ==> r[i] == ExitOf(raws[i])
  {
    seq(|raws|, i requires 0 <= i < |raws| => ExitOf(raws[i]))
  }

  /**
    A virtual CPU through a list of exits, up to the first that is not handled: its states at the returns to the guest
    are a run, so all that holds of runs holds of it.
  */
  method RunExits(cpu: VCpu, raws: seq<RawExit>) returns (handled: nat, ghost states: seq<Cpu>)
    requires cpu.Valid()
    requires forall i, j :: 0 <= i < |raws| && 0 <= j < |raws[i].arrivals| ==> raws[i].arrivals[j].vector < 256
    modifies cpu
    ensures cpu.Valid() && handled <= |raws| && IsRun(states, ExitsOf(raws[..handled]))
    ensures states[0] == old(cpu.View()) && (handled == |raws| ==> states[handled] == cpu.View())
    ensures handled < |raws| ==> raws[handled].interruptibility >= 32
  {
    hide Handles, VCpu.Valid;
    handled, states := 0, [cpu.View()];
    while handled < |raws|
      invariant handled <= |raws| && |states| == handled + 1 && cpu.Valid()
      invariant states[0] == old(cpu.View()) && states[handled] == cpu.View()
      invariant forall i :: 0 <= i < handled ==> Handles(states[i], ExitOf(raws[i]), states[i + 1])
    {
      var raw := raws[handled];
      ghost var before := cpu.View();
      cpu.EnterHost();
      ghost var entered := cpu.View();
      var ok := cpu.HandleVmexit(raw.arrivals, raw.interruptibility, raw.rflags);
      if !ok { return; }
      SameArrivals(before, entered, ExitOf(raw), cpu.View());
      states := states + [cpu.View()];
      handled := handled + 1;
    }
    assert raws[..handled] == raws;
  }

  /** What was injected last does not matter to the next exit. */
  lemma SameArrivals(c: Cpu, d: Cpu, e: Exit, c': Cpu)
    requires d.pending == c.pending && d.window == c.window && Handles(d, e, c')
    ensures Handles(c, e, c')
  {
  }

  lemma OneLeft(p: Pending, v: nat)
    requires v in p
    ensures p - {v} == map[] <==> p.Keys == {v}
  {
    assert (p - {v}).Keys == p.Keys - {v};
    if p - {v} == map[] { assert p.Keys == (p - {v}).Keys + {v}; }
  }

  lemma InterruptFlag(rflags: nat)
    ensures BitAnd(rflags, RFLAGS_IF) != 0 <==> rflags / 512 % 2 == 1
  {
    hide Bitwise;
    assert Pow2(9) == 512 && Pow2(1) == 2;
    ShlIsTimes(1, 9);
    AndField(9, 1, rflags);
    ShlIsTimes(rflags / 512 % 2, 9);
  }

  // ---- all runs ------------------------------------------------------------

  /** At every return to the guest, the window is asked for exactly when something is pending. */
  lemma {:induction false} WindowIffPending(states: seq<Cpu>, exits: seq<Exit>, n: nat)
    requires IsRun(states, exits) && Initial(states[0]) && n < |states|
    ensures states[n].window <==> states[n].pending != map[]
  {
    if n > 0 {
      WindowIffPending(states, exits, n - 1);
      var c, e, c' := states[n - 1], exits[n - 1], states[n];
      assert Handles(c, e, c');
      ArriveKeeps(c.pending, e.arrivals);
      if Arrive(c.pending, e.arrivals) != map[] && e.interruptible {
        var p := Arrive(c.pending, e.arrivals);
        var v :| IsLeast(v, p.Keys) && c' == Cpu(p - {v}, p.Keys != {v}, Some(Arrival(v, p[v])));
        OneLeft(p, v);
      }
    }
  }

  lemma {:induction false} ArriveKeeps(p: Pending, arrivals: seq<Arrival>)
    ensures p.Keys <= Arrive(p, arrivals).Keys
    decreases |arrivals|
  {
    if arrivals != [] { ArriveKeeps(p[arrivals[0].vector := arrivals[0].kind], arrivals[1..]); }
  }

  // ---- waiting -------------------------------------------------------------

  function Ahead(p: Pending, v: nat): set<nat> {
    set u | u in p && u < v
  }

  function CountAhead(arrivals: seq<Arrival>, v: nat): nat {
    if arrivals == [] then 0 else (if arrivals[0].vector < v then 1 else 0) + CountAhead(arrivals[1..], v)
  }

  /** How many vectors below `v` arrive in the first `n` exits. */
  function ArrivedAhead(exits: seq<Exit>, n: nat, v: nat): nat
    requires n <= |exits|
  {
    if n == 0 then 0 else ArrivedAhead(exits, n - 1, v) + CountAhead(exits[n - 1].arrivals, v)
  }

  function InterruptibleExits(exits: seq<Exit>, n: nat): nat
    requires n <= |exits|
  {
    if n == 0 then 0 else InterruptibleExits(exits, n - 1) + (if exits[n - 1].interruptible then 1 else 0)
  }

  lemma {:induction false} ArriveAhead(p: Pending, arrivals: seq<Arrival>, v: nat)
    ensures |Ahead(Arrive(p, arrivals), v)| <= |Ahead(p, v)| + CountAhead(arrivals, v)
    decreases |arrivals|
  {
    if arrivals != [] {
      var u := arrivals[0].vector;
      var p' := p[u := arrivals[0].kind];
      ArriveAhead(p', arrivals[1..], v);
      assert Ahead(p', v) == if u < v then Ahead(p, v) + {u} else Ahead(p, v);
    }
  }

  lemma HandleAhead(c: Cpu, e: Exit, c': Cpu, v: nat)
    requires Handles(c, e, c') && v in Arrive(c.pending, e.arrivals)
    requires c'.injected.None? || c'.injected.value.vector != v
    ensures v in c'.pending
    ensures |Ahead(c'.pending, v)| + (if e.interruptible then 1 else 0)
            <= |Ahead(c.pending, v)| + CountAhead(e.arrivals, v)
  {
    var p := Arrive(c.pending, e.arrivals);
    ArriveKeeps(c.pending, e.arrivals);
    ArriveAhead(c.pending, e.arrivals, v);
    if e.interruptible {
      var u: nat :| IsLeast(u, p.Keys) && c' == Cpu(p - {u}, p.Keys != {u}, Some(Arrival(u, p[u])));
      assert u < v;
      assert Ahead(p, v) == Ahead(c'.pending, v) + {u};
    }
  }

  /**
    No interrupt is lost or starved: a vector that is pending or arrives at the
    first exit stays pending until it is injected, and it waits for at most one
    interruptible exit per smaller vector present or arriving.
  */
  lemma {:induction false} WaitIsBounded(states: seq<Cpu>, exits: seq<Exit>, n: nat, v: nat)
    requires IsRun(states, exits) && n < |states|
    requires v in if n == 0 then states[0].pending else Arrive(states[0].pending, exits[0].arrivals)
    requires forall i :: 0 < i <= n ==> states[i].injected.None? || states[i].injected.value.vector != v
    ensures v in states[n].pending
    ensures |Ahead(states[n].pending, v)| + InterruptibleExits(exits, n)
            <= |Ahead(states[0].pending, v)| + ArrivedAhead(exits, n, v)
  {
    if n > 0 {
      var k := n - 1;
      if k > 0 {
        WaitIsBounded(states, exits, k, v);
        ArriveKeeps(states[k].pending, exits[k].arrivals);
      }
      assert Handles(states[k], exits[k], states[k + 1]);
      HandleAhead(states[k], exits[k], states[n], v);
    }
  }

  lemma RunFrom(states: seq<Cpu>, exits: seq<Exit>, m: nat)
    requires IsRun(states, exits) && m <= |exits|
    ensures IsRun(states[m..], exits[m..])
  {
    hide Handles;
    forall i | 0 <= i < |exits[m..]| ensures Handles(states[m..][i], exits[m..][i], states[m..][i + 1]) {
      assert Handles(states[m + i], exits[m + i], states[m + i + 1]);
    }
  }

  /** The same for a vector that arrives during the run, counted from the exit at which it arrives. */
  lemma ArrivalWaitIsBounded(states: seq<Cpu>, exits: seq<Exit>, m: nat, n: nat, v: nat)
    requires IsRun(states, exits) && m < n < |states|
    requires exists i :: 0 <= i < |exits[m].arrivals| && exits[m].arrivals[i].vector == v
    requires forall i :: m < i <= n ==> states[i].injected.None? || states[i].injected.value.vector != v
    ensures v in states[n].pending
    ensures |Ahead(states[n].pending, v)| + InterruptibleExits(exits[m..], n - m)
            <= |Ahead(states[m].pending, v)| + ArrivedAhead(exits[m..], n - m, v)
  {
    hide Handles;
    RunFrom(states, exits, m);
    ArriveMeans(states[m].pending, exits[m].arrivals, v);
    var s, e := states[m..], exits[m..];
    assert s[0] == states[m] && e[0] == exits[m] && s[n - m] == states[n];
    forall i | 0 < i <= n - m ensures s[i].injected.None? || s[i].injected.value.vector != v {
      assert s[i] == states[m + i];
    }
    WaitIsBounded(s, e, n - m, v);
  }
}
