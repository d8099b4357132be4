/** With XFLUSH_ON_FT clear nothing is flushed: every transfer, exceptions and sysret
    included, takes effect after exactly two more instructions. */
module DelaySlots {
  import opened Words
  import opened Alu
  import opened Core
  import opened Mmu
  import opened Instructions
  import opened Execute
  import opened DelayedIsa

  /** The one way to flush with the flag clear: mtcr from r31 to CR0, of a value that sets it. */
  predicate SetsFlagFromPc(c: Core, i: Instr) {
    i.CopExchange? && i.op == 0 && i.d == PC && CopRegister(c.msel, i.copn, i.copr) == Cr0 && FlushOnTransfer(c.r[PC])
  }

  lemma {:induction false} FlushIffSet(c: Core, bus: Bus, w: Word)
    requires !FlushOnTransfer(c.cr0)
    ensures match Perform(c, bus, w)
            case Next(_, _, flush) => flush == SetsFlagFromPc(c, Decode(w))
            case _ => true
  {
    hide Decode, Dispatch, SetsFlagFromPc, FlushOnTransfer;
    DispatchFlushesIffSet(c, bus, Decode(w));
  }

  lemma {:induction false} DispatchFlushesIffSet(c: Core, bus: Bus, i: Instr)
    requires !FlushOnTransfer(c.cr0)
    ensures match Dispatch(c, bus, i)
            case Next(_, _, flush) => flush == SetsFlagFromPc(c, i)
            case _ => true
  {
    hide Operate, Read, Write, FlushOnTransfer, Address, Raise, RaiseAll, Holds, Or32, SysReturn, Exchange,
         CopRegister;
    match i
    case CopExchange(op, copn, d, copr) => ExchangeFlushesIffSet(c, bus, op, copn, d, copr);
    case _ =>
  }

  lemma {:induction false} ExchangeFlushesIffSet(c: Core, bus: Bus, op: int, copn: int, d: Reg, copr: int)
    requires !FlushOnTransfer(c.cr0)
    ensures match Exchange(c, bus, op, copn, d, copr)
            case Next(_, _, flush) => flush == SetsFlagFromPc(c, CopExchange(op, copn, d, copr))
            case _ => true
  {
    hide FlushOnTransfer, Raise, CopRegister, SetEntryWord, EntryWord;
  }

  /** The flag is clear, and the next instruction does not set it from r31. */
  predicate FlagClear(a: Arch) {
    var w := InstrAt(a.core, a.bus, a.pc);
    !FlushOnTransfer(a.core.cr0) && (w.Some? ==> !SetsFlagFromPc(Advance(a.core), Decode(w.value)))
  }

  lemma {:induction false} ClearNeverFlushes(a: Arch)
    requires FlagClear(a)
    ensures !Flushes(a)
  {
    hide Perform, InstrAt, FlushOnTransfer, SetsFlagFromPc, Decode, Plus;
    var w := InstrAt(a.core, a.bus, a.pc);
    if w.Some? {
      FlushIffSet(Advance(a.core), a.bus, w.value);
    }
  }

  ghost predicate FlagClearFor(a: Arch, n: nat)
    decreases n
  {
    n > 0 ==> FlagClear(a) && (Step(a).At? ==> FlagClearFor(Step(a).s, n - 1))
  }

  lemma {:induction false} FlagClearForLess(a: Arch, n: nat, k: nat)
    requires FlagClearFor(a, n) && k <= n
    ensures FlagClearFor(a, k)
    decreases k
  {
    hide Step, FlagClear;
    if k == 0 {
    } else if Step(a).At? {
      FlagClearForLess(Step(a).s, n - 1, k - 1);
    }
  }

  /** What an instruction that does not flush does to the three program counters: a shift. */
  lemma {:induction false} CountersShift(a: Arch)
    requires !Flushes(a) && Step(a).At?
    ensures Step(a).s.pc == a.npc && Step(a).s.npc == a.core.r[PC]
  {
    hide Perform, InstrAt;
  }

  /** Exactly two delay slots: where r31 points after an instruction is where execution is
      three instructions later, whatever the two instructions between them do. */
  lemma {:induction false} TransferTakesEffectInThree(a: Arch)
    requires FlagClearFor(a, 3) && Run(a, 3).At?
    ensures Run(a, 1) == Step(a) && Run(a, 1).At?
    ensures Run(a, 2) == Step(Run(a, 1).s) && Run(a, 2).At?
    ensures Run(a, 3) == Step(Run(a, 2).s)
    ensures Run(a, 1).s.pc == a.npc && Run(a, 1).s.npc == a.core.r[PC]
    ensures Run(a, 2).s.pc == a.core.r[PC] && Run(a, 2).s.npc == Run(a, 1).s.core.r[PC]
    ensures Run(a, 3).s.pc == Run(a, 1).s.core.r[PC] && Run(a, 3).s.npc == Run(a, 2).s.core.r[PC]
  {
    hide Step, FlagClear, Flushes;
    ThreeSteps(a);
    var a1 := Step(a).s;
    var a2 := Step(a1).s;
    assert FlagClearFor(a1, 2) && FlagClearFor(a2, 1);
    ClearNeverFlushes(a);
    ClearNeverFlushes(a1);
    ClearNeverFlushes(a2);
    CountersShift(a);
    CountersShift(a1);
    CountersShift(a2);
  }

  lemma {:induction false} ThreeSteps(a: Arch)
    requires Run(a, 3).At?
    ensures Run(a, 1) == Step(a) && Run(a, 1).At?
    ensures Run(a, 2) == Step(Run(a, 1).s) && Run(a, 2).At?
    ensures Run(a, 3) == Step(Run(a, 2).s)
  {
    hide Step;
    RunPrefix(a, 3, 2);
    RunPrefix(a, 3, 1);
    OneStep(a);
    OneStep(Run(a, 1).s);
    OneStep(Run(a, 2).s);
    RunAdds(a, 1, 1);
    RunAdds(a, 2, 1);
  }

  /** Without flushes a full pipeline retires one instruction in every cycle. */
  lemma {:induction false} EveryCycleRetires(a: Arch, n: nat)
    requires FlagClearFor(a, n)
    ensures Run(a, Retired(a, 2, n)) == Run(a, n) && PhaseAfter(a, 2, n) == 2
    ensures Run(a, n).At? ==> Retired(a, 2, n) == n
    decreases n
  {
    hide Step, FlagClear, Flushes;
    if n == 0 {
    } else {
      ClearNeverFlushes(a);
      OneStep(a);
      if Step(a).At? {
        EveryCycleRetires(Step(a).s, n - 1);
      }
    }
  }

  /** The machine with the flag clear and a full pipeline is the machine with two delay slots,
      cycle for instruction. */
  lemma {:induction false} DelaySlotModeRefines(m: Machine, a: Arch, n: nat)
    requires Related(m, a, 2) && BehavesFor(a, 2, n) && FlagClearFor(a, n)
    ensures match Run(a, n)
            case At(a') => Cycles(m, n).Running? && Cycles(m, n).m.core == a'.core && Cycles(m, n).m.bus == a'.bus
            case Stopped(status) => Cycles(m, n) == Halted(status)
            case Stuck => Cycles(m, n) == Broken
            case NoFetch => false
  {
    hide Cycles, Run, Retired, PhaseAfter, BehavesFor, FlagClearFor, InstrAt, Plus, Related;
    RunRefines(m, a, 2, n);
    EveryCycleRetires(a, n);
    if Run(a, n).At? {
      FullMatches(Cycles(m, n).m, Run(a, n).s);
    }
  }

  lemma {:induction false} FullMatches(m: Machine, a: Arch)
    requires Matches(m, a, 2)
    ensures m.core == a.core && m.bus == a.bus
  {
    hide Plus;
    PlusPlus(a.core.r[PC], 0, 0);
    SetPcTwice(a.core, 0, 0);
  }
}
