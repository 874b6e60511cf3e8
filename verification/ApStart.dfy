/**
  Starting the application processors: the boot processor's loop (kmain.rs) and the code each started processor runs
  (ap_startup.S), as steps that interleave over three shared cells and the memory of the stacks.
*/
module ApStart {
  import opened Common

  const STACK_SIZE: nat := 100 * 1024

  /** A processor to start: its APIC id and the core id it is given. */
  datatype Target = Target(apic: nat, core: nat)

  /** The processors the loop starts: not its own, and only those assigned to a guest. */
  function Targets(apics: seq<nat>, own: nat, used: set<nat>): seq<Target> {
    if apics == [] then []
    else
      var idx := |apics| - 1;
      Targets(apics[..idx], own, used)
      + if apics[idx] == own || idx !in used then [] else [Target(apics[idx], idx)]
  }

  /** Distinct APIC ids give distinct processors with distinct core ids. */
  lemma {:induction false} TargetsAreDistinct(apics: seq<nat>, own: nat, used: set<nat>)
    requires forall i, j :: 0 <= i < j < |apics| ==> apics[i] != apics[j]
    ensures var ts := Targets(apics, own, used);
            && (forall t :: t in ts ==> t.core < |apics| && apics[t.core] == t.apic != own && t.core in used)
            && (forall i, j :: 0 <= i < j < |ts| ==> ts[i].core < ts[j].core && ts[i].apic != ts[j].apic)
            && (forall c :: 0 <= c < |apics| && apics[c] != own && c in used ==> Target(apics[c], c) in ts)
  {
    if apics != [] {
      var idx := |apics| - 1;
      var rest := apics[..idx];
      TargetsAreDistinct(rest, own, used);
      var before, ts := Targets(rest, own, used), Targets(apics, own, used);
      forall t | t in ts ensures t.core < |apics| && apics[t.core] == t.apic != own && t.core in used {
        if t in before { assert rest[t.core] == apics[t.core]; }
      }
      forall i, j | 0 <= i < j < |ts| ensures ts[i].core < ts[j].core && ts[i].apic != ts[j].apic {
        assert ts[i] in before && ts[i] == before[i];
        if j < |before| { assert ts[j] == before[j]; } else { assert ts[j] == Target(apics[idx], idx); }
      }
      forall c | 0 <= c < |apics| && apics[c] != own && c in used ensures Target(apics[c], c) in ts {
        if c < idx { assert rest[c] == apics[c] && Target(rest[c], c) in before; }
      }
    }
  }

  // The step system.

  /** Where the boot processor is in its loop body. */
  datatype Bsp = Setup | StackWritten | CoreWritten | InitSent | SipiSent | Clearing

  /** Where a processor is: `Fetch` has been started, `Reported` has set the ready flag and not yet entered Rust. */
  datatype Ap =
    | Off | AwaitSipi | Fetch | HasStack(rsp: nat) | Pushed(rdi: nat) | Reported(rdi: nat)
    | Entered(rdi: nat, core: nat)

  /** `k` counts finished iterations; `bases` are the stacks allocated so far, one per iteration. */
  datatype State = State(
    ts: seq<Target>, k: nat, bsp: Bsp, stackCell: nat, coreCell: nat, ready: bool,
    aps: seq<Ap>, bases: seq<nat>, mem: map<nat, nat>)

  datatype Step =
    | WriteStack(base: nat)
    | WriteCore
    | SendInit
    | SendSipi
    | SeeReady
    | ClearReady
    | LoadStack(j: nat)
    | PushCore(j: nat)
    | Report(j: nat)
    | Enter(j: nat)
    | UseStack(j: nat, addr: nat, value: nat)

  /** The end of a stack, rounded down to 16 bytes, where its first word is pushed. */
  function Bottom(base: nat): nat {
    (base + STACK_SIZE) / 16 * 16
  }

  /** The stack is used from its very end: less than 16 bytes above the first word are lost to alignment. */
  lemma BottomIsAlignedEnd(base: nat)
    ensures Bottom(base) % 16 == 0 && base + STACK_SIZE - 16 < Bottom(base) <= base + STACK_SIZE
  {
    assert (base + STACK_SIZE) == (base + STACK_SIZE) / 16 * 16 + (base + STACK_SIZE) % 16;
  }

  predicate InStack(base: nat, addr: nat) {
    base <= addr < base + STACK_SIZE
  }

  ghost predicate Fresh(bases: seq<nat>, base: nat) {
    forall i, a: nat :: 0 <= i < |bases| && InStack(bases[i], a) ==> !InStack(base, a)
  }

  ghost predicate Enabled(s: State, st: Step) {
    && |s.aps| == |s.ts|
    && match st
       case WriteStack(base) => s.k < |s.ts| && s.bsp == Setup && Fresh(s.bases, base)
       case WriteCore => s.k < |s.ts| && s.bsp == StackWritten
       case SendInit => s.k < |s.ts| && s.bsp == CoreWritten
       case SendSipi => s.k < |s.ts| && s.bsp == InitSent
       case SeeReady => s.k < |s.ts| && s.bsp == SipiSent && s.ready
       case ClearReady => s.k < |s.ts| && s.bsp == Clearing
       case LoadStack(j) => j < |s.aps| && s.aps[j] == Fetch
       case PushCore(j) => j < |s.aps| && s.aps[j].HasStack? && s.aps[j].rsp >= 8
       case Report(j) => j < |s.aps| && s.aps[j].Pushed?
       case Enter(j) => j < |s.aps| && s.aps[j].Reported? && s.aps[j].rdi in s.mem
       case UseStack(j, addr, _) =>
         j < |s.aps| && j < |s.bases| && s.aps[j].Entered? && InStack(s.bases[j], addr)
  }

  ghost function Apply(s: State, st: Step): State
    requires Enabled(s, st)
  {
    match st
    case WriteStack(base) => s.(bsp := StackWritten, bases := s.bases + [base], stackCell := Bottom(base))
    case WriteCore => s.(bsp := CoreWritten, coreCell := s.ts[s.k].core)
    case SendInit => s.(bsp := InitSent, aps := s.aps[s.k := AwaitSipi])
    case SendSipi => s.(bsp := SipiSent, aps := s.aps[s.k := Fetch])
    case SeeReady => s.(bsp := Clearing)
    case ClearReady => s.(bsp := Setup, k := s.k + 1, ready := false)
    case LoadStack(j) => s.(aps := s.aps[j := HasStack(s.stackCell)])
    case PushCore(j) =>
      var rdi := s.aps[j].rsp - 8;
      s.(aps := s.aps[j := Pushed(rdi)], mem := s.mem[rdi := s.coreCell])
    case Report(j) => s.(aps := s.aps[j := Reported(s.aps[j].rdi)], ready := true)
    case Enter(j) => s.(aps := s.aps[j := Entered(s.aps[j].rdi, s.mem[s.aps[j].rdi])])
    case UseStack(j, addr, value) => s.(mem := s.mem[addr := value])
  }

  ghost predicate IsRun(s: State, run: seq<Step>)
    decreases |run|
  {
    run == [] || (Enabled(s, run[0]) && IsRun(Apply(s, run[0]), run[1..]))
  }

  ghost function After(s: State, run: seq<Step>): State
    requires IsRun(s, run)
    decreases |run|
  {
    if run == [] then s else After(Apply(s, run[0]), run[1..])
  }

  ghost predicate Initial(ts: seq<Target>, s: State) {
    && s.ts == ts && s.k == 0 && s.bsp == Setup && !s.ready && s.bases == []
    && |s.aps| == |ts| && forall j :: 0 <= j < |ts| ==> s.aps[j] == Off
  }

  // The invariant.

  /** A processor on the stack allocated for it, with its core id on top of it until it has read it. */
  ghost predicate OnItsStack(s: State, j: nat)
    requires j < |s.aps| && j < |s.ts|
  {
    j < |s.bases| &&
    var top := Bottom(s.bases[j]) - 8;
    match s.aps[j]
    case HasStack(rsp) => rsp == top + 8
    case Pushed(rdi) => rdi == top && rdi in s.mem && s.mem[rdi] == s.ts[j].core
    case Reported(rdi) => rdi == top && rdi in s.mem && s.mem[rdi] == s.ts[j].core
    case Entered(rdi, core) => rdi == top && core == s.ts[j].core
    case _ => true
  }

  predicate Finished(p: Ap) {
    p.Reported? || p.Entered?
  }

  /** Between its start-up interrupt and its ready flag. */
  predicate InFlight(p: Ap) {
    p.Fetch? || p.HasStack? || p.Pushed?
  }

  /** What the processor of the current iteration may be doing. */
  predicate Current(s: State)
    requires s.k < |s.aps|
  {
    match s.bsp
    case Setup => s.aps[s.k] == Off
    case StackWritten => s.aps[s.k] == Off
    case CoreWritten => s.aps[s.k] == Off
    case InitSent => s.aps[s.k] == AwaitSipi
    case SipiSent => InFlight(s.aps[s.k]) || Finished(s.aps[s.k])
    case Clearing => Finished(s.aps[s.k])
  }

  ghost predicate Invariant(s: State) {
    && |s.aps| == |s.ts| && s.k <= |s.ts|
    && |s.bases| == s.k + (if s.bsp == Setup then 0 else 1)
    && (s.k == |s.ts| ==> s.bsp == Setup)
    && (forall j :: 0 <= j < s.k ==> Finished(s.aps[j]))
    && (s.k < |s.ts| ==> Current(s))
    && (forall j :: s.k < j < |s.ts| ==> s.aps[j] == Off)
    && (s.ready <==> s.k < |s.ts| && (s.bsp == SipiSent || s.bsp == Clearing) && Finished(s.aps[s.k]))
    && (s.bsp != Setup ==> s.stackCell == Bottom(s.bases[s.k]))
    && (s.bsp != Setup && s.bsp != StackWritten ==> s.coreCell == s.ts[s.k].core)
    && (forall j: nat :: j < |s.bases| ==> OnItsStack(s, j))
    && Apart(s.bases)
  }

  ghost predicate Apart(bases: seq<nat>) {
    forall i, j, a: nat :: 0 <= i < j < |bases| && InStack(bases[i], a) ==> !InStack(bases[j], a)
  }

  lemma TopInStack(base: nat)
    ensures Bottom(base) >= 8 && InStack(base, Bottom(base) - 8)
  {
  }

  lemma DifferentTops(bases: seq<nat>, i: nat, j: nat, a: nat)
    requires Apart(bases) && i < |bases| && j < |bases| && i != j && InStack(bases[i], a)
    ensures a != Bottom(bases[j]) - 8
  {
    hide Bottom;
    TopInStack(bases[j]);
    if i < j { assert !InStack(bases[j], a); } else { assert !InStack(bases[i], Bottom(bases[j]) - 8); }
  }

  lemma BspStep(s: State, st: Step)
    requires Invariant(s) && Enabled(s, st)
    requires st.WriteStack? || st.WriteCore? || st.SendInit? || st.SendSipi? || st.SeeReady? || st.ClearReady?
    ensures Invariant(Apply(s, st))
  {
    hide Bottom, InStack;
    var s' := Apply(s, st);
    forall j: nat | j < |s'.bases| ensures OnItsStack(s', j) {
      if j < |s.bases| { assert OnItsStack(s, j); }
    }
  }

  lemma ApStep(s: State, st: Step, j: nat)
    requires Invariant(s) && Enabled(s, st)
    requires st == LoadStack(j) || st == Report(j) || st == Enter(j)
    ensures Invariant(Apply(s, st))
  {
    hide Bottom, InStack, Apart;
    var s' := Apply(s, st);
    assert j <= s.k && j < |s.bases|;
    forall i: nat | i < |s'.bases| ensures OnItsStack(s', i) {
      assert OnItsStack(s, i);
    }
  }

  lemma PushStep(s: State, j: nat)
    requires Invariant(s) && Enabled(s, PushCore(j))
    ensures Invariant(Apply(s, PushCore(j)))
  {
    var s' := Apply(s, PushCore(j));
    assert j == s.k && OnItsStack(s, j);
    TopInStack(s.bases[j]);
    hide Bottom, InStack;
    forall i: nat | i < |s'.bases| ensures OnItsStack(s', i) {
      assert OnItsStack(s, i);
      if i != j { DifferentTops(s.bases, j, i, s.aps[j].rsp - 8); }
    }
  }

  lemma UseStep(s: State, j: nat, addr: nat, value: nat)
    requires Invariant(s) && Enabled(s, UseStack(j, addr, value))
    ensures Invariant(Apply(s, UseStack(j, addr, value)))
  {
    hide Bottom, InStack;
    var s' := Apply(s, UseStack(j, addr, value));
    forall i: nat | i < |s'.bases| ensures OnItsStack(s', i) {
      assert OnItsStack(s, i);
      if i != j { DifferentTops(s.bases, j, i, addr); }
    }
  }

  lemma StepInvariant(s: State, st: Step)
    requires Invariant(s) && Enabled(s, st)
    ensures Invariant(Apply(s, st))
  {
    hide Invariant, Enabled, Apply;
    match st {
      case LoadStack(j) => ApStep(s, st, j);
      case Report(j) => ApStep(s, st, j);
      case Enter(j) => ApStep(s, st, j);
      case PushCore(j) => PushStep(s, j);
      case UseStack(j, addr, value) => UseStep(s, j, addr, value);
      case _ => BspStep(s, st);
    }
  }

  lemma {:induction false} RunInvariant(s: State, run: seq<Step>)
    requires Invariant(s) && IsRun(s, run)
    ensures Invariant(After(s, run))
    decreases |run|
  {
    hide Invariant, Enabled, Apply;
    if run != [] {
      StepInvariant(s, run[0]);
      RunInvariant(Apply(s, run[0]), run[1..]);
    }
  }

  /** A processor in Rust has the stack and the core id that were written for it. */
  lemma EnteredAsWritten(s: State, j: nat)
    requires Invariant(s) && j < |s.aps| && s.aps[j].Entered?
    ensures j < |s.bases| && s.aps[j].rdi == Bottom(s.bases[j]) - 8 && s.aps[j].core == s.ts[j].core
  {
    hide Bottom, InStack, Apart;
    assert j <= s.k && j < |s.bases|;
    assert OnItsStack(s, j);
  }

  lemma NoSharedStack(s: State, i: nat, j: nat)
    requires Invariant(s) && i < j < |s.aps| && s.aps[i].Entered? && s.aps[j].Entered?
    ensures s.aps[i].rdi != s.aps[j].rdi
  {
    EnteredAsWritten(s, i);
    EnteredAsWritten(s, j);
    hide Bottom, InStack;
    TopInStack(s.bases[i]);
    DifferentTops(s.bases, i, j, s.aps[i].rdi);
  }

  lemma OneInFlight(s: State, i: nat, j: nat)
    requires Invariant(s) && i < j < |s.aps|
    ensures !InFlight(s.aps[i]) || !InFlight(s.aps[j])
  {
    hide OnItsStack, Apart;
  }

  /** What the design promises of a state. */
  ghost predicate Safe(s: State) {
    && |s.aps| == |s.ts|
    && (forall j: nat :: j < |s.aps| && s.aps[j].Entered? ==>
          j < |s.bases| && s.aps[j].rdi == Bottom(s.bases[j]) - 8 && s.aps[j].core == s.ts[j].core)
    && (forall i: nat, j: nat :: i < j < |s.aps| && s.aps[i].Entered? && s.aps[j].Entered? ==>
          s.aps[i].core != s.aps[j].core && s.aps[i].rdi != s.aps[j].rdi)
    && (forall i: nat, j: nat :: i < j < |s.aps| ==> !InFlight(s.aps[i]) || !InFlight(s.aps[j]))
    && (s.k == |s.ts| ==> forall j: nat :: j < |s.aps| ==> Finished(s.aps[j]))
  }

  lemma InvariantIsSafe(s: State)
    requires Invariant(s) && forall i: nat, j: nat :: i < j < |s.ts| ==> s.ts[i].core < s.ts[j].core
    ensures Safe(s)
  {
    hide Bottom, InStack, OnItsStack, Apart;
    forall j: nat | j < |s.aps| && s.aps[j].Entered?
      ensures j < |s.bases| && s.aps[j].rdi == Bottom(s.bases[j]) - 8 && s.aps[j].core == s.ts[j].core
    {
      EnteredAsWritten(s, j);
    }
    forall i: nat, j: nat | i < j < |s.aps| && s.aps[i].Entered? && s.aps[j].Entered?
      ensures s.aps[i].core != s.aps[j].core && s.aps[i].rdi != s.aps[j].rdi
    {
      NoSharedStack(s, i, j);
    }
    forall i: nat, j: nat | i < j < |s.aps| ensures !InFlight(s.aps[i]) || !InFlight(s.aps[j]) {
      OneInFlight(s, i, j);
    }
  }

  /**
    In every interleaving: a processor in Rust has the stack and core id written for it, stacks and core ids are never
    shared, at most one processor is between its start-up interrupt and its ready flag, and when the loop ends all have
    reported.
  */
  lemma EveryStart(apics: seq<nat>, own: nat, used: set<nat>, s: State, run: seq<Step>)
    requires forall i, j :: 0 <= i < j < |apics| ==> apics[i] != apics[j]
    requires Initial(Targets(apics, own, used), s) && IsRun(s, run)
    ensures Safe(After(s, run)) && After(s, run).ts == Targets(apics, own, used)
  {
    TargetsAreDistinct(apics, own, used);
    assert Invariant(s);
    hide Targets, IsRun, After, Safe, Invariant;
    RunInvariant(s, run);
    RunKeepsTargets(s, run);
    InvariantIsSafe(After(s, run));
  }

  lemma {:induction false} RunKeepsTargets(s: State, run: seq<Step>)
    requires IsRun(s, run)
    ensures After(s, run).ts == s.ts
    decreases |run|
  {
    hide Enabled;
    if run != [] { RunKeepsTargets(Apply(s, run[0]), run[1..]); }
  }

  /** The loop cannot hang on a processor that runs: a waiting boot processor has a processor that can move on. */
  lemma NeverStuck(s: State)
    requires Invariant(s) && s.k < |s.ts| && s.bsp == SipiSent
    ensures Enabled(s, SeeReady) || Enabled(s, LoadStack(s.k)) || Enabled(s, PushCore(s.k)) || Enabled(s, Report(s.k))
  {
    assert OnItsStack(s, s.k);
    TopInStack(s.bases[s.k]);
  }
}
