/** With XFLUSH_ON_FT set and no sysret the delay slots vanish: the machine refines an
    instruction set that runs one instruction at a time. */
module SequentialIsa {
  import opened Words
  import opened Alu
  import opened Core
  import opened Mmu
  import opened Instructions
  import opened Execute
  import opened DelayedIsa

  // ---- The instruction set ----

  /** r31 holds the address of the next instruction. */
  datatype Seq = Seq(core: Core, bus: Bus)

  /** Whether a load or store transfers: it faults, or its destination is r31. */
  predicate AccessTransfers(c: Core, bus: Bus, op: int, size: Size, d: Reg, addr: Word) {
    match op
    case 0 => d == PC || Read(c, bus, addr, size).causes != []
    case 1 => Write(c, bus, addr, c.r[d], size).causes != []
    case 2 => d == PC
    case _ => false
  }

  /** The instructions after which execution goes on at r31: those that write it, a branch taken,
      an exception. A move from r31 to a coprocessor counts unless it clears the flag; sysret
      does not. */
  predicate Transfers(c: Core, bus: Bus, i: Instr) {
    match i
    case AluReg(_, d, _, _) => d == PC
    case AluImm(_, d, _) => d == PC
    case BranchImm(cond, d, s0, _, _) => Holds(cond, c.r[d], c.r[s0])
    case BranchReg(entry, d, s0, _, _) => 0 <= entry < 6 && Holds(entry, c.r[d], c.r[s0])
    case CopExchange(op, copn, d, copr) =>
      var reg := CopRegister(c.msel, copn, copr);
      reg == NoCopReg || (d == PC && (op == 0 && reg == Cr0 ==> FlushOnTransfer(c.r[PC])))
    case CopInstr => false
    case System(op, _) => op != 7
    case LoadStore(op, size, d, s0, mode) => AccessTransfers(c, bus, op, size, d, Address(c, s0, mode))
    case LoadImm(d, _) => d == PC
    case SetCondImm(_, d, _, _) => d == PC
    case SetCondReg(_, d, _, _) => d == PC
    case Illegal => true
  }

  /** The instruction at pc runs with r31 = pc + 12; unless it transfers, pc + 4 follows. */
  function Step(s: Seq): Result<Seq> {
    var pc := s.core.r[PC];
    match InstrAt(s.core, s.bus, pc)
    case None => NoFetch
    case Some(w) =>
      var c := SetPc(s.core, Plus(pc, 12));
      match Perform(c, s.bus, w)
      case Next(c', bus, _) => At(Seq(if Transfers(c, s.bus, Decode(w)) then c' else SetPc(c', Plus(pc, 4)), bus))
      case Halt(status) => Stopped(status)
      case Undefined => Stuck
  }

  function Run(s: Seq, n: nat): Result<Seq>
    decreases n
  {
    if n == 0 then At(s)
    else
      match Step(s)
      case At(s') => Run(s', n - 1)
      case other => other
  }

  predicate NotSysret(w: Word) {
    !IsSysret(w)
  }

  /** The next instruction satisfies p. */
  predicate NextIs(s: Seq, p: Word -> bool) {
    FetchIs(s.core, s.bus, s.core.r[PC], p)
  }

  lemma {:induction false} RunAdds(s: Seq, n: nat, k: nat)
    requires Run(s, n).At?
    ensures Run(s, n + k) == Run(Run(s, n).s, k)
    decreases n
  {
    hide Step;
    if n == 0 {
    } else {
      RunAdds(Step(s).s, n - 1, k);
    }
  }

  lemma {:induction false} RunPrefix(s: Seq, n: nat, k: nat)
    requires Run(s, n).At? && k <= n
    ensures Run(s, k).At?
    decreases k
  {
    hide Step;
    if k == 0 {
    } else {
      RunPrefix(Step(s).s, n - 1, k - 1);
    }
  }

  lemma {:induction false} OneStep(s: Seq)
    ensures Run(s, 0) == At(s) && Run(s, 1) == Step(s)
  {
    hide Step;
    if Step(s).At? {
      assert Run(s, 1) == Run(Step(s).s, 0);
    }
  }

  // ---- Flushes are transfers ----

  /** With the flag set an instruction flushes exactly if it transfers, and otherwise, unless it is
      sysret, leaves r31 alone. */
  lemma {:induction false} FlushIsTransfer(c: Core, bus: Bus, w: Word)
    requires FlushOnTransfer(c.cr0)
    ensures match Perform(c, bus, w)
            case Next(c', _, flush) =>
              flush == Transfers(c, bus, Decode(w)) && (flush || IsSysret(w) || c'.r[PC] == c.r[PC])
            case _ => true
  {
    hide Decode, Dispatch, Transfers, FlushOnTransfer;
    SystemOps(w);
    DispatchFlushes(c, bus, Decode(w));
  }

  lemma {:induction false} SystemOps(w: Word)
    ensures Decode(w).System? ==> 0 <= Decode(w).op < 8 && (Decode(w).op == 7 <==> IsSysret(w))
  {
    hide Operate, FixedDisp, BranchDisp, LiValue, D, S0, S1, S2, SignExtend16If;
  }

  lemma {:induction false} DispatchFlushes(c: Core, bus: Bus, i: Instr)
    requires FlushOnTransfer(c.cr0) && (i.System? ==> 0 <= i.op < 8)
    ensures match Dispatch(c, bus, i)
            case Next(c', _, flush) =>
              flush == Transfers(c, bus, i) && (flush || (i.System? && i.op == 7) || c'.r[PC] == c.r[PC])
            case _ => true
  {
    hide Operate, Read, Write, FlushOnTransfer, Address, Raise, RaiseAll, Holds, DoSystem, DoLoadStore, Exchange,
         AccessTransfers, CopRegister, SysReturn;
    match i
    case CopExchange(op, copn, d, copr) => ExchangeFlushes(c, bus, op, copn, d, copr);
    case System(op, imm) => SystemFlushes(c, bus, op, imm);
    case LoadStore(op, size, d, s0, mode) => AccessFlushes(c, bus, op, size, d, s0, mode);
    case _ =>
  }

  lemma {:induction false} ExchangeFlushes(c: Core, bus: Bus, op: int, copn: int, d: Reg, copr: int)
    requires FlushOnTransfer(c.cr0)
    ensures match Exchange(c, bus, op, copn, d, copr)
            case Next(c', _, flush) =>
              && flush == Transfers(c, bus, CopExchange(op, copn, d, copr))
              && (flush || c'.r[PC] == c.r[PC])
            case _ => true
  {
    hide FlushOnTransfer, Raise, CopRegister, SetEntryWord, EntryWord;
  }

  lemma {:induction false} SystemFlushes(c: Core, bus: Bus, op: int, imm: Word)
    requires FlushOnTransfer(c.cr0) && 0 <= op < 8
    ensures match DoSystem(c, bus, op, imm)
            case Next(_, _, flush) => flush == (op != 7)
            case _ => true
  {
    hide FlushOnTransfer, Raise, SysReturn, Or32, Wrap;
  }

  lemma {:induction false} AccessFlushes(c: Core, bus: Bus, op: int, size: Size, d: Reg, s0: Reg, mode: Mode)
    requires FlushOnTransfer(c.cr0)
    ensures match DoLoadStore(c, bus, op, size, d, s0, mode)
            case Next(c', _, flush) =>
              && flush == AccessTransfers(c, bus, op, size, d, Address(c, s0, mode))
              && (flush || c'.r[PC] == c.r[PC])
            case _ => true
  {
    hide FlushOnTransfer, Raise, Read, Write, Address;
  }

  // ---- The delay slots vanish ----

  function ToArch(s: Seq): Arch {
    Restart(s.core, s.bus)
  }

  lemma {:induction false} ToArchFacts(s: Seq)
    ensures var a := ToArch(s);
            var pc := s.core.r[PC];
            a.pc == pc && a.npc == Plus(pc, 4) && a.core.r[PC] == Plus(pc, 8) && a.bus == s.bus
            && InstrAt(a.core, a.bus, pc) == InstrAt(s.core, s.bus, pc)
            && Advance(a.core) == SetPc(s.core, Plus(pc, 12))
  {
    hide Read, Plus;
    var pc := s.core.r[PC];
    var a := ToArch(s);
    FetchIgnoresRegisters(s.core, a.core.r, s.bus, pc);
    PlusPlus(pc, 8, 4);
    SetPcTwice(s.core, Plus(pc, 8), Plus(pc, 12));
  }

  /** The next instruction finds the flag set and is not sysret. */
  predicate InFlushMode(s: Seq) {
    FlushOnTransfer(s.core.cr0) && NextIs(s, NotSysret)
  }

  /** One sequential step is one step of the machine with delay slots, restarted at r31. */
  lemma {:induction false} StepIsDelayedStep(s: Seq)
    requires InFlushMode(s)
    ensures match Step(s)
            case At(s') => DelayedIsa.Step(ToArch(s)) == DelayedIsa.At(ToArch(s'))
            case Stopped(status) => DelayedIsa.Step(ToArch(s)) == DelayedIsa.Stopped(status)
            case Stuck => DelayedIsa.Step(ToArch(s)) == DelayedIsa.Stuck
            case NoFetch => false
  {
    hide Perform, InstrAt, Plus, FlushOnTransfer, IsSysret, Transfers, Decode;
    ToArchFacts(s);
    var pc := s.core.r[PC];
    var w := InstrAt(s.core, s.bus, pc).value;
    var c := SetPc(s.core, Plus(pc, 12));
    FlushIsTransfer(c, s.bus, w);
    var e := Perform(c, s.bus, w);
    if e.Next? && !e.flush {
      PlusPlus(pc, 4, 4);
      PlusPlus(pc, 4, 8);
      SetPcTwice(e.core, Plus(pc, 4), Plus(pc, 12));
    }
  }

  /** All of the next k instructions find the flag set and are not sysret. */
  ghost predicate FlushModeFor(s: Seq, k: nat)
    decreases k
  {
    k > 0 ==> InFlushMode(s) && (Step(s).At? ==> FlushModeFor(Step(s).s, k - 1))
  }

  lemma {:induction false} FlushModeForLess(s: Seq, n: nat, k: nat)
    requires FlushModeFor(s, n) && k <= n
    ensures FlushModeFor(s, k)
    decreases k
  {
    hide Step, InFlushMode;
    if k == 0 {
    } else if Step(s).At? {
      FlushModeForLess(Step(s).s, n - 1, k - 1);
    }
  }

  lemma {:induction false} RunIsDelayedRun(s: Seq, k: nat)
    requires FlushModeFor(s, k)
    ensures match Run(s, k)
            case At(s') => DelayedIsa.Run(ToArch(s), k) == DelayedIsa.At(ToArch(s'))
            case Stopped(status) => DelayedIsa.Run(ToArch(s), k) == DelayedIsa.Stopped(status)
            case Stuck => DelayedIsa.Run(ToArch(s), k) == DelayedIsa.Stuck
            case NoFetch => false
    decreases k
  {
    hide Step, DelayedIsa.Step, InFlushMode, ToArch;
    if k == 0 {
    } else {
      StepIsDelayedStep(s);
      if Step(s).At? {
        RunIsDelayedRun(Step(s).s, k - 1);
      }
    }
  }

  /** The machine with an empty pipeline is the sequential state it stands for. */
  lemma {:induction false} EmptyPipeline(m: Machine)
    requires m.p0 == m.p1 == 0 && m.core.r[0] == 0
    ensures Related(m, ToArch(Seq(m.core, m.bus)), 0)
  {
    hide InstrAt, Plus;
    var s := Seq(m.core, m.bus);
    ToArchFacts(s);
    PlusPlus(s.core.r[PC], 8, -8);
    SetPcTwice(s.core, Plus(s.core.r[PC], 8), s.core.r[PC]);
  }

  /** A machine that matches a sequential state has its r31 ahead by four for each word fetched. */
  lemma {:induction false} MatchesAhead(m: Machine, s: Seq, phase: Phase)
    requires Matches(m, ToArch(s), phase)
    ensures m.bus == s.bus && m.core == SetPc(s.core, Plus(s.core.r[PC], 4 * phase))
  {
    hide InstrAt, Plus;
    var pc := s.core.r[PC];
    PlusPlus(pc, 8, 4 * phase - 8);
    SetPcTwice(s.core, Plus(pc, 8), Plus(pc, 4 * phase));
  }

  /** The central theorem. From an empty pipeline, n cycles leave the machine in the state the
      sequential instruction set reaches after the instructions they retire, with the program
      counter ahead by four for each word already fetched. The hypotheses concern these n cycles
      and the instructions they retire only. */
  lemma {:induction false} FlushModeRefines(m: Machine, n: nat)
    requires m.p0 == m.p1 == 0 && m.core.r[0] == 0
    requires var s := Seq(m.core, m.bus);
             BehavesFor(ToArch(s), 0, n) && FlushModeFor(s, Retired(ToArch(s), 0, n))
    ensures var s := Seq(m.core, m.bus);
            var a := ToArch(s);
            match Run(s, Retired(a, 0, n))
            case At(s') =>
              Cycles(m, n).Running?
              && Cycles(m, n).m.bus == s'.bus
              && Cycles(m, n).m.core == SetPc(s'.core, Plus(s'.core.r[PC], 4 * PhaseAfter(a, 0, n)))
            case Stopped(status) => Cycles(m, n) == Halted(status)
            case Stuck => Cycles(m, n) == Broken
            case NoFetch => false
  {
    hide BehavesFor, FlushModeFor, Cycles, Retired, PhaseAfter, Run, Plus, DelayedIsa.Run, InstrAt, Related,
         Matches, ToArch;
    var s := Seq(m.core, m.bus);
    var a := ToArch(s);
    EmptyPipeline(m);
    RunRefines(m, a, 0, n);
    RunIsDelayedRun(s, Retired(a, 0, n));
    if Run(s, Retired(a, 0, n)).At? {
      MatchesAhead(Cycles(m, n).m, Run(s, Retired(a, 0, n)).s, PhaseAfter(a, 0, n));
    }
  }
}
