/** The pipelined machine refines an instruction set without a pipeline.

    In general the instruction set has two delay slots: an instruction runs with r31 twelve
    beyond its own address, and a transfer that does not flush takes effect two
    instructions later. `RunRefines` covers every mode of the machine and every instruction. */
module DelayedIsa {
  import opened Words
  import opened Alu
  import opened Core
  import opened Mmu
  import opened Instructions
  import opened Execute

  /** The instruction at pc runs next, then the one at npc, then the one at r31. */
  datatype Arch = Arch(core: Core, bus: Bus, pc: Word, npc: Word)

  /** `Stuck` is what C++ leaves undefined, `NoFetch` an instruction that cannot be fetched. */
  datatype Result<+S> = At(s: S) | Stopped(status: Word) | Stuck | NoFetch

  /** The word an instruction fetch returns when it raises no exception. */
  function InstrAt(c: Core, bus: Bus, addr: Word): Option<Word> {
    var f := Read(c, bus, addr, EXEC);
    if f.causes == [] then f.value else None
  }

  /** The word fetched from an address satisfies p. */
  predicate FetchIs(c: Core, bus: Bus, addr: Word, p: Word -> bool) {
    var w := InstrAt(c, bus, addr);
    w.Some? && p(w.value)
  }

  function Effect(a: Arch): Option<Effect> {
    match InstrAt(a.core, a.bus, a.pc)
    case None => None
    case Some(w) => Some(Perform(Advance(a.core), a.bus, w))
  }

  function Step(a: Arch): Result<Arch> {
    match Effect(a)
    case None => NoFetch
    case Some(Next(c, bus, true)) => At(Restart(c, bus))
    case Some(Next(c, bus, false)) => At(Arch(c, bus, a.npc, a.core.r[PC]))
    case Some(Halt(status)) => Stopped(status)
    case Some(Undefined) => Stuck
  }

  /** Execution resumes at r31, in sequence. */
  function Restart(c: Core, bus: Bus): Arch {
    Arch(SetPc(c, Plus(c.r[PC], 8)), bus, c.r[PC], Plus(c.r[PC], 4))
  }

  predicate Flushes(a: Arch) {
    var e := Effect(a);
    e.Some? && e.value.Next? && e.value.flush
  }

  // ---- The hypotheses, cycle by cycle ----

  /** Phase 0: the pipeline is empty. Phase 1: one slot is filled. Phase 2: both are. */
  type Phase = p: int | 0 <= p <= 2

  function NextPhase(a: Arch): Phase {
    if Flushes(a) then 0 else 2
  }

  /** The address a cycle fetches from. */
  function Fetched(a: Arch, phase: Phase): Word {
    if phase == 0 then a.pc else if phase == 1 then a.npc else a.core.r[PC]
  }

  /** The fetch of a cycle raises no exception. */
  predicate Fetches(a: Arch, phase: Phase) {
    InstrAt(a.core, a.bus, Fetched(a, phase)).Some?
  }

  /** Unless it flushes, the next instruction leaves the two words already fetched what a fetch
      would return. */
  predicate Keeps(a: Arch) {
    Step(a).At? && !Flushes(a) ==>
      && InstrAt(Step(a).s.core, Step(a).s.bus, a.npc) == InstrAt(a.core, a.bus, a.npc)
      && InstrAt(Step(a).s.core, Step(a).s.bus, a.core.r[PC]) == InstrAt(a.core, a.bus, a.core.r[PC])
  }

  /** The hypotheses on n cycles, and on nothing after them: no fetch faults, and no instruction
      but the last changes the words in flight. */
  ghost predicate BehavesFor(a: Arch, phase: Phase, n: nat)
    decreases n
  {
    n > 0 ==>
      && Fetches(a, phase)
      && (if phase < 2 then BehavesFor(a, phase + 1, n - 1)
          else n > 1 && Step(a).At? ==> Keeps(a) && BehavesFor(Step(a).s, NextPhase(a), n - 1))
  }

  lemma {:induction false} BehavesForLess(a: Arch, phase: Phase, n: nat, k: nat)
    requires BehavesFor(a, phase, n) && k <= n
    ensures BehavesFor(a, phase, k)
    decreases k
  {
    hide Step, Keeps, Fetches, NextPhase;
    if k == 0 {
    } else if phase < 2 {
      BehavesForLess(a, phase + 1, n - 1, k - 1);
    } else if k > 1 && Step(a).At? {
      BehavesForLess(Step(a).s, NextPhase(a), n - 1, k - 1);
    }
  }

  // ---- The two machines side by side ----

  /** The same state, with r31 behind by four for each word not yet fetched. */
  predicate Matches(m: Machine, a: Arch, phase: Phase) {
    m.bus == a.bus && m.core == SetPc(a.core, Plus(a.core.r[PC], 4 * phase - 8))
  }

  /** And the same words in flight. */
  predicate Related(m: Machine, a: Arch, phase: Phase) {
    && Matches(m, a, phase)
    && m.core.r[0] == 0
    && (phase < 2 ==> a.npc == Plus(a.pc, 4) && a.core.r[PC] == Plus(a.pc, 8) && m.p1 == 0)
    && (phase == 0 ==> m.p0 == 0)
    && (phase == 1 ==> InstrAt(a.core, a.bus, a.pc) == Some(m.p0))
    && (phase == 2 ==> InstrAt(a.core, a.bus, a.pc) == Some(m.p1)
                       && InstrAt(a.core, a.bus, a.npc) == Some(m.p0))
  }

  lemma {:induction false} FetchIgnoresRegisters(c: Core, r: Registers, bus: Bus, addr: Word)
    ensures Read(c.(r := r), bus, addr, EXEC) == Read(c, bus, addr, EXEC)
  {
    assert CurrentMap(c.(r := r)) == CurrentMap(c);
  }

  lemma {:induction false} ZeroDecodes()
    ensures Decode(0) == AluReg(0, 0, 0, 0)
  {
    hide SignExtend16If, BranchDisp, FixedDisp, LiValue, DecodeMode;
    ZeroFields();
  }

  lemma {:induction false} ZeroFields()
    ensures Group(0) == 0 && D(0) == 0 && S0(0) == 0 && S1(0) == 0 && AluOpcode(0) == 0 && !AluI(0)
  {
  }

  /** Opcode 0 changes nothing, given that r0 is 0. */
  lemma {:induction false} ZeroIsNop(c: Core, bus: Bus)
    requires c.r[0] == 0
    ensures Perform(c, bus, 0) == Next(c, bus, false)
  {
    ZeroDecodes();
    hide Decode, FlushOnTransfer;
    assert c.r[0 := 0] == c.r;
  }

  lemma {:induction false} PerformClearsR0(c: Core, bus: Bus, w: Word)
    ensures Perform(c, bus, w).Next? ==> Perform(c, bus, w).core.r[0] == 0
  {
    hide Dispatch;
  }

  lemma {:induction false} PlusPlus(a: Word, m: int, n: int)
    ensures Plus(Plus(a, m), n) == Plus(a, m + n)
    ensures Plus(a, 0) == a
  {
  }

  lemma {:induction false} SetPcTwice(c: Core, x: Word, y: Word)
    ensures SetPc(SetPc(c, x), y) == SetPc(c, y)
    ensures SetPc(c, c.r[PC]) == c
  {
    assert c.r[PC := x][PC := y] == c.r[PC := y];
    assert c.r[PC := c.r[PC]] == c.r;
  }

  /** Filling the pipeline: the cycle fetches and executes a bubble. */
  lemma {:induction false} BubbleCycle(m: Machine, a: Arch, phase: Phase)
    requires Related(m, a, phase) && Fetches(a, phase) && phase < 2
    ensures Cycle(m).Running? && Related(Cycle(m).m, a, phase + 1)
  {
    hide Perform, Read, Plus;
    var addr := m.core.r[PC];
    PlusPlus(a.pc, 8, 4 * phase - 8);
    PlusPlus(a.pc, 4 * phase, 4);
    PlusPlus(a.pc, 8, 4 * (phase + 1) - 8);
    PlusPlus(a.pc, 4, 0);
    FetchIgnoresRegisters(a.core, m.core.r, a.bus, addr);
    assert InstrAt(m.core, m.bus, addr) == InstrAt(a.core, a.bus, addr);
    ZeroIsNop(Advance(m.core), m.bus);
    SetPcTwice(a.core, addr, Plus(addr, 4));
  }

  /** A full pipeline retires one instruction each cycle. */
  lemma {:induction false} RetireCycle(m: Machine, a: Arch)
    requires Related(m, a, 2) && Fetches(a, 2)
    ensures match Step(a)
            case At(a') =>
              Cycle(m).Running? && Matches(Cycle(m).m, a', NextPhase(a))
              && (Keeps(a) ==> Related(Cycle(m).m, a', NextPhase(a)))
            case Stopped(status) => Cycle(m) == Halted(status)
            case Stuck => Cycle(m) == Broken
            case NoFetch => false
  {
    hide Perform, Read, Plus;
    PlusPlus(a.core.r[PC], 0, 0);
    SetPcTwice(a.core, a.core.r[PC], 0);
    assert m.core == a.core;
    PerformClearsR0(Advance(a.core), a.bus, m.p1);
    var e := Effect(a).value;
    if e.Next? {
      var t := e.core;
      PlusPlus(t.r[PC], 8, -8);
      PlusPlus(t.r[PC], 0, 0);
      SetPcTwice(t, Plus(t.r[PC], 8), t.r[PC]);
    }
  }

  // ---- Runs ----

  function Run(a: Arch, n: nat): Result<Arch>
    decreases n
  {
    if n == 0 then At(a)
    else
      match Step(a)
      case At(a') => Run(a', n - 1)
      case other => other
  }

  /** How many instructions n cycles retire. */
  function Retired(a: Arch, phase: Phase, n: nat): nat
    decreases n
  {
    if n == 0 then 0
    else if phase < 2 then Retired(a, phase + 1, n - 1)
    else if Step(a).At? then 1 + Retired(Step(a).s, NextPhase(a), n - 1)
    else 1
  }

  /** The phase n cycles end in. */
  function PhaseAfter(a: Arch, phase: Phase, n: nat): Phase
    decreases n
  {
    if n == 0 then phase
    else if phase < 2 then PhaseAfter(a, phase + 1, n - 1)
    else if Step(a).At? then PhaseAfter(Step(a).s, NextPhase(a), n - 1)
    else phase
  }

  /** Any n cycles of the machine are the instructions `Retired` counts, for every mode of
      the pipeline, every instruction, and every n. */
  lemma {:induction false} RunRefines(m: Machine, a: Arch, phase: Phase, n: nat)
    requires Related(m, a, phase) && BehavesFor(a, phase, n)
    ensures match Run(a, Retired(a, phase, n))
            case At(a') => Cycles(m, n).Running? && Matches(Cycles(m, n).m, a', PhaseAfter(a, phase, n))
            case Stopped(status) => Cycles(m, n) == Halted(status)
            case Stuck => Cycles(m, n) == Broken
            case NoFetch => false
    decreases n
  {
    hide Cycle, Step, Matches, Related, Fetches, Keeps, NextPhase;
    if n == 0 {
      RelatedMatches(m, a, phase);
    } else if phase < 2 {
      BubbleCycle(m, a, phase);
      RunRefines(Cycle(m).m, a, phase + 1, n - 1);
    } else {
      RetireCycle(m, a);
      if n > 1 && Step(a).At? {
        RunRefines(Cycle(m).m, Step(a).s, NextPhase(a), n - 1);
      }
    }
  }

  lemma {:induction false} RelatedMatches(m: Machine, a: Arch, phase: Phase)
    requires Related(m, a, phase)
    ensures Matches(m, a, phase)
  {
  }

  /** Where one more cycle behaves, the words in flight correspond too. */
  lemma {:induction false} RunRelates(m: Machine, a: Arch, phase: Phase, n: nat)
    requires Related(m, a, phase) && BehavesFor(a, phase, n + 1) && Run(a, Retired(a, phase, n)).At?
    ensures Cycles(m, n).Running?
    ensures Related(Cycles(m, n).m, Run(a, Retired(a, phase, n)).s, PhaseAfter(a, phase, n))
    decreases n
  {
    hide Cycle, Step, Related, Fetches, Keeps, NextPhase;
    if n == 0 {
    } else if phase < 2 {
      BubbleCycle(m, a, phase);
      RunRelates(Cycle(m).m, a, phase + 1, n - 1);
    } else {
      RetireCycle(m, a);
      RunRelates(Cycle(m).m, Step(a).s, NextPhase(a), n - 1);
    }
  }

  lemma {:induction false} RunAdds(a: Arch, n: nat, k: nat)
    requires Run(a, n).At?
    ensures Run(a, n + k) == Run(Run(a, n).s, k)
    decreases n
  {
    hide Step;
    if n == 0 {
    } else {
      RunAdds(Step(a).s, n - 1, k);
    }
  }

  lemma {:induction false} RunPrefix(a: Arch, n: nat, k: nat)
    requires Run(a, n).At? && k <= n
    ensures Run(a, k).At?
    decreases k
  {
    hide Step;
    if k == 0 {
    } else {
      RunPrefix(Step(a).s, n - 1, k - 1);
    }
  }

  // ---- Timing ----

  /** How many of the first n instructions flush. */
  function FlushCount(a: Arch, n: nat): nat
    decreases n
  {
    if n == 0 || !Step(a).At? then 0
    else (if Flushes(a) then 1 else 0) + FlushCount(Step(a).s, n - 1)
  }

  /** n instructions, t of them flushing before the last, are retired by n + 2t cycles beyond the
      cycles that fill the pipeline, and by no fewer. */
  lemma {:induction false} RetirementCount(a: Arch, phase: Phase, n: nat, c: nat)
    requires n > 0 && Run(a, n - 1).At?
    ensures Retired(a, phase, c) >= n <==> c >= n + 2 * FlushCount(a, n - 1) + (2 - phase)
    decreases c
  {
    hide Step, Flushes;
    if c == 0 {
    } else if phase < 2 {
      RetirementCount(a, phase + 1, n, c - 1);
    } else if Step(a).At? && n > 1 {
      RetirementCount(Step(a).s, NextPhase(a), n - 1, c - 1);
    }
  }

  /** A cycle retires one instruction if the pipeline was full before it, else none. */
  lemma {:induction false} RetiredStep(a: Arch, phase: Phase, c: nat)
    requires Run(a, Retired(a, phase, c)).At?
    ensures Retired(a, phase, c + 1) == Retired(a, phase, c) + (if PhaseAfter(a, phase, c) == 2 then 1 else 0)
    decreases c
  {
    hide Step, NextPhase;
    if c == 0 {
      FirstCycle(a, phase);
    } else if phase < 2 {
      RetiredStep(a, phase + 1, c - 1);
    } else if Step(a).At? {
      RetiredStep(Step(a).s, NextPhase(a), c - 1);
    }
  }

  lemma {:induction false} FirstCycle(a: Arch, phase: Phase)
    ensures Retired(a, phase, 0) == 0 && PhaseAfter(a, phase, 0) == phase
    ensures Retired(a, phase, 1) == if phase == 2 then 1 else 0
  {
    hide Step, NextPhase;
  }

  /** The cycle in which the nth instruction retires. */
  function RetirementCycle(a: Arch, phase: Phase, n: nat): nat
    requires n > 0
  {
    n + 2 * FlushCount(a, n - 1) + (2 - phase)
  }

  /** Cycle c of the machine retires the nth instruction: before it the pipeline is full and the
      state is that after n - 1 instructions, and after it that after n. */
  ghost predicate RetiresAt(m: Machine, a: Arch, n: nat, c: nat) {
    && n > 0 && c > 0 && Run(a, n - 1).At? && Run(a, n).At?
    && Cycles(m, c - 1).Running? && Related(Cycles(m, c - 1).m, Run(a, n - 1).s, 2)
    && Cycles(m, c).Running? && Matches(Cycles(m, c).m, Run(a, n).s, NextPhase(Run(a, n - 1).s))
  }

  /** The machine retires its nth instruction in exactly that cycle. */
  lemma {:induction false} RetirementTime(m: Machine, a: Arch, phase: Phase, n: nat)
    requires n > 0 && Run(a, n).At? && Related(m, a, phase)
    requires BehavesFor(a, phase, RetirementCycle(a, phase, n))
    ensures RetiresAt(m, a, n, RetirementCycle(a, phase, n))
  {
    hide Step, NextPhase, Related, Matches, Cycles, BehavesFor, Run, Retired, PhaseAfter, FlushCount;
    var c := RetirementCycle(a, phase, n);
    RunPrefix(a, n, n - 1);
    RetirementCount(a, phase, n, c);
    RetirementCount(a, phase, n, c - 1);
    RetiredAtMost(a, phase, n, c);
    RetiredStep(a, phase, c - 1);
    RunRelates(m, a, phase, c - 1);
    RunRefines(m, a, phase, c);
    PhaseAfterRetiring(a, phase, c - 1);
  }

  /** Just before the count reaches n it is n - 1. */
  lemma {:induction false} RetiredAtMost(a: Arch, phase: Phase, n: nat, c: nat)
    requires n > 0 && c > 0 && Run(a, n).At?
    requires Retired(a, phase, c) >= n > Retired(a, phase, c - 1)
    ensures Retired(a, phase, c) == n && Retired(a, phase, c - 1) == n - 1
  {
    hide Run, Retired, PhaseAfter;
    RunPrefix(a, n, Retired(a, phase, c - 1));
    RetiredStep(a, phase, c - 1);
  }

  lemma {:induction false} PhaseAfterRetiring(a: Arch, phase: Phase, c: nat)
    requires Run(a, Retired(a, phase, c)).At? && PhaseAfter(a, phase, c) == 2
    requires Run(a, Retired(a, phase, c) + 1).At?
    ensures PhaseAfter(a, phase, c + 1) == NextPhase(Run(a, Retired(a, phase, c)).s)
    decreases c
  {
    hide Step, NextPhase;
    if c == 0 {
      OneStep(a);
      assert PhaseAfter(a, 2, 1) == PhaseAfter(Step(a).s, NextPhase(a), 0);
    } else if phase < 2 {
      PhaseAfterRetiring(a, phase + 1, c - 1);
    } else {
      PhaseAfterRetiring(Step(a).s, NextPhase(a), c - 1);
    }
  }

  lemma {:induction false} OneStep(a: Arch)
    ensures Run(a, 0) == At(a) && Run(a, 1) == Step(a)
  {
    hide Step;
    if Step(a).At? {
      assert Run(a, 1) == Run(Step(a).s, 0);
    }
  }

  /** After that cycle the words in flight correspond too, if one more cycle behaves. */
  lemma {:induction false} RetiredState(m: Machine, a: Arch, phase: Phase, n: nat)
    requires n > 0 && Run(a, n).At? && Related(m, a, phase)
    requires BehavesFor(a, phase, RetirementCycle(a, phase, n) + 1)
    ensures var c := RetirementCycle(a, phase, n);
            && Run(a, n - 1).At?
            && Cycles(m, c).Running? && Related(Cycles(m, c).m, Run(a, n).s, NextPhase(Run(a, n - 1).s))
  {
    hide Step, NextPhase, Related, Matches, Cycles, BehavesFor, Run, Retired, PhaseAfter, FlushCount;
    var c := RetirementCycle(a, phase, n);
    RunPrefix(a, n, n - 1);
    RetirementCount(a, phase, n, c);
    RetirementCount(a, phase, n, c - 1);
    RetiredAtMost(a, phase, n, c);
    RetiredStep(a, phase, c - 1);
    RunRelates(m, a, phase, c);
    PhaseAfterRetiring(a, phase, c - 1);
  }

  /** From an empty pipeline, n instructions, t of them flushing before the last, take n + 2 (t + 1)
      cycles, neither more nor fewer. */
  lemma {:induction false} CyclesFromEmpty(m: Machine, a: Arch, n: nat)
    requires n > 0 && Run(a, n).At? && Related(m, a, 0)
    requires BehavesFor(a, 0, n + 2 * (FlushCount(a, n - 1) + 1))
    ensures RetiresAt(m, a, n, n + 2 * (FlushCount(a, n - 1) + 1))
  {
    hide Step, Related, Cycles, BehavesFor, Run, RetiresAt, FlushCount;
    RetirementTime(m, a, 0, n);
  }

  /** Of any three consecutive cycles at least one retires an instruction. */
  lemma {:induction false} NoLongStall(m: Machine, a: Arch, phase: Phase, c: nat)
    requires Related(m, a, phase) && BehavesFor(a, phase, c + 3) && Run(a, Retired(a, phase, c + 3)).At?
    ensures var k, k' := Retired(a, phase, c), Retired(a, phase, c + 3);
            && k < k' && Run(a, k).At?
            && Cycles(m, c).Running? && Matches(Cycles(m, c).m, Run(a, k).s, PhaseAfter(a, phase, c))
            && Cycles(m, c + 3).Running? && Matches(Cycles(m, c + 3).m, Run(a, k').s, PhaseAfter(a, phase, c + 3))
  {
    hide Step, NextPhase, Related, Matches, Cycles, BehavesFor, Run, Retired, PhaseAfter;
    RetiredGrows(a, phase, c, 3);
    RunPrefix(a, Retired(a, phase, c + 3), Retired(a, phase, c));
    ThreeCyclesRetire(a, phase, c);
    BehavesForLess(a, phase, c + 3, c);
    RunRefines(m, a, phase, c);
    RunRefines(m, a, phase, c + 3);
  }

  lemma {:induction false} RetiredGrows(a: Arch, phase: Phase, c: nat, k: nat)
    ensures Retired(a, phase, c) <= Retired(a, phase, c + k)
    decreases c
  {
    hide Step, NextPhase;
    if c == 0 {
    } else if phase < 2 {
      RetiredGrows(a, phase + 1, c - 1, k);
    } else if Step(a).At? {
      RetiredGrows(Step(a).s, NextPhase(a), c - 1, k);
    }
  }

  lemma {:induction false} ThreeCyclesRetire(a: Arch, phase: Phase, c: nat)
    requires Run(a, Retired(a, phase, c)).At?
    ensures Retired(a, phase, c + 3) > Retired(a, phase, c)
    decreases c
  {
    hide Step, NextPhase;
    if c == 0 {
      FirstThreeCycles(a, phase);
    } else if phase < 2 {
      ThreeCyclesRetire(a, phase + 1, c - 1);
    } else if Step(a).At? {
      ThreeCyclesRetire(Step(a).s, NextPhase(a), c - 1);
    }
  }

  lemma {:induction false} FirstThreeCycles(a: Arch, phase: Phase)
    ensures Retired(a, phase, 3) > 0
  {
    hide Step, NextPhase;
    assert Retired(a, 2, 1) > 0;
    if phase == 0 {
      assert Retired(a, 0, 3) == Retired(a, 1, 2) == Retired(a, 2, 1);
    } else if phase == 1 {
      assert Retired(a, 1, 3) == Retired(a, 2, 2);
    }
  }
}
