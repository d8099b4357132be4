/** Calls in flush mode: a linking branch leaves its address plus twelve in lr, and returning
    through lr - 8 resumes right after it. */
module CallReturn {
  import opened Words
  import opened Alu
  import opened Core
  import opened Mmu
  import opened Instructions
  import opened Execute
  import opened SequentialIsa
  import DelayedIsa

  const AT: Reg := 1

  /** Either spelling of a register move: an addition to r0, or an or with it. */
  predicate IsMove(i: Instr, d: Reg, s: Reg) {
    i == AluReg(0, d, 0, s) || i == AluReg(7, d, 0, s)
  }

  /** move at, lr; sub.u at, 8; move pc, at */
  predicate MovesLr(w: Word) { IsMove(Decode(w), AT, LR) }
  predicate TakesEight(w: Word) { Decode(w) == AluImm(1, AT, 8) }
  predicate MovesBack(w: Word) { IsMove(Decode(w), PC, AT) }

  /** The instruction about to run is a linking branch whose condition holds. */
  predicate TakenLink(s: Seq) {
    var w := DelayedIsa.InstrAt(s.core, s.bus, s.core.r[PC]);
    var c := SetPc(s.core, Plus(s.core.r[PC], 12));
    w.Some? && Decode(w.value).BranchImm? && Decode(w.value).link
    && Holds(Decode(w.value).cond, c.r[Decode(w.value).d], c.r[Decode(w.value).s0])
  }

  lemma {:induction false} LinkStep(s: Seq)
    requires TakenLink(s)
    ensures Step(s).At?
    ensures var w := DelayedIsa.InstrAt(s.core, s.bus, s.core.r[PC]).value;
            var A := s.core.r[PC];
            Step(s).s.core.r[LR] == Plus(A, 12)
            && Step(s).s.core.r[PC] == Plus(A, 12 + Decode(w).disp)
  {
    hide DelayedIsa.InstrAt, FlushOnTransfer, Decode, Plus, Holds;
    var w := DelayedIsa.InstrAt(s.core, s.bus, s.core.r[PC]).value;
    DelayedIsa.PlusPlus(s.core.r[PC], 12, Decode(w).disp);
  }

  lemma {:induction false} MovePerformed(c: Core, bus: Bus, w: Word, d: Reg, s: Reg)
    requires IsMove(Decode(w), d, s) && c.r[0] == 0
    ensures Perform(c, bus, w) == Next(SetReg(SetReg(c, d, c.r[s]), 0, 0), bus, d == PC && FlushOnTransfer(c.cr0))
    ensures Transfers(c, bus, Decode(w)) == (d == PC)
  {
    hide Decode, FlushOnTransfer, BitOr;
    ZeroOperand(c.r[s]);
  }

  lemma {:induction false} MoveLrStep(s: Seq)
    requires NextIs(s, MovesLr) && s.core.r[0] == 0
    ensures Step(s).At? && Step(s).s.core.r[0] == 0
    ensures Step(s).s.core.r[LR] == s.core.r[LR] == Step(s).s.core.r[AT]
  {
    hide DelayedIsa.InstrAt, Perform, Decode, Plus, Transfers;
    var w := DelayedIsa.InstrAt(s.core, s.bus, s.core.r[PC]).value;
    MovePerformed(SetPc(s.core, Plus(s.core.r[PC], 12)), s.bus, w, AT, LR);
  }

  lemma {:induction false} TakeEightStep(s: Seq)
    requires NextIs(s, TakesEight) && s.core.r[0] == 0
    ensures Step(s).At? && Step(s).s.core.r[0] == 0
    ensures Step(s).s.core.r[AT] == Plus(s.core.r[AT], -8)
  {
    hide DelayedIsa.InstrAt, Decode, FlushOnTransfer;
  }

  lemma {:induction false} MoveBackStep(s: Seq)
    requires NextIs(s, MovesBack) && s.core.r[0] == 0
    ensures Step(s).At? && Step(s).s.core.r[PC] == s.core.r[AT]
  {
    hide DelayedIsa.InstrAt, Perform, Decode, Plus, Transfers;
    var w := DelayedIsa.InstrAt(s.core, s.bus, s.core.r[PC]).value;
    MovePerformed(SetPc(s.core, Plus(s.core.r[PC], 12)), s.bus, w, PC, AT);
  }

  /** The next three instructions are the return sequence. */
  predicate Returning(s: Seq) {
    && NextIs(s, MovesLr)
    && (Run(s, 1).At? ==> NextIs(Run(s, 1).s, TakesEight))
    && (Run(s, 2).At? ==> NextIs(Run(s, 2).s, MovesBack))
  }

  /** From `move at, lr` on, three instructions later execution is at lr - 8. */
  lemma {:induction false} ReturnSequence(s: Seq)
    requires s.core.r[0] == 0 && Returning(s)
    ensures Run(s, 3).At? && Run(s, 3).s.core.r[PC] == Plus(s.core.r[LR], -8)
  {
    hide Step, NextIs, Plus, Run;
    OneStep(s);
    MoveLrStep(s);
    RunAdds(s, 1, 1);
    OneStep(Run(s, 1).s);
    TakeEightStep(Run(s, 1).s);
    RunAdds(s, 2, 1);
    OneStep(Run(s, 2).s);
    MoveBackStep(Run(s, 2).s);
  }

  lemma {:induction false} StepClearsR0(s: Seq)
    requires Step(s).At?
    ensures Step(s).s.core.r[0] == 0
  {
    hide Perform, DelayedIsa.InstrAt, Plus, Transfers, Decode;
    var w := DelayedIsa.InstrAt(s.core, s.bus, s.core.r[PC]).value;
    DelayedIsa.PerformClearsR0(SetPc(s.core, Plus(s.core.r[PC], 12)), s.bus, w);
  }

  lemma {:induction false} RunClearsR0(s: Seq, n: nat)
    requires n > 0 && Run(s, n).At?
    ensures Run(s, n).s.core.r[0] == 0
  {
    hide Step, Run;
    RunPrefix(s, n, n - 1);
    RunAdds(s, n - 1, 1);
    OneStep(Run(s, n - 1).s);
    StepClearsR0(Run(s, n - 1).s);
  }

  /** A taken linking branch at A, any callee that runs n instructions and gives lr back, and the
      return sequence: the next instruction of the caller is the one at A + 4. */
  lemma {:induction false} CallReturns(s: Seq, n: nat)
    requires TakenLink(s) && Run(s, 1 + n).At?
    requires Run(s, 1 + n).s.core.r[LR] == Plus(s.core.r[PC], 12) && Returning(Run(s, 1 + n).s)
    ensures Run(s, 1).At? && Run(s, 1).s.core.r[LR] == Plus(s.core.r[PC], 12)
    ensures Run(s, 1 + n + 3).At?
    ensures Run(s, 1 + n + 3).s.core.r[PC] == Plus(s.core.r[PC], 4)
  {
    hide Step, Run, Plus, TakenLink, Returning;
    LinkStep(s);
    OneStep(s);
    RunClearsR0(s, 1 + n);
    ReturnSequence(Run(s, 1 + n).s);
    RunAdds(s, 1 + n, 3);
    DelayedIsa.PlusPlus(s.core.r[PC], 12, -8);
  }

  /** On the pipelined machine: in the cycle that retires the last instruction of the call, two
      for each flush later than one for each instruction, the pipeline is empty and r31 is A + 4. */
  lemma {:induction false} CallCycles(m: Machine, n: nat)
    requires m.p0 == m.p1 == 0 && m.core.r[0] == 0
    requires var s := Seq(m.core, m.bus);
             && TakenLink(s) && Run(s, 1 + n).At?
             && Run(s, 1 + n).s.core.r[LR] == Plus(s.core.r[PC], 12) && Returning(Run(s, 1 + n).s)
             && FlushModeFor(s, 1 + n + 3)
             && DelayedIsa.BehavesFor(ToArch(s), 0, DelayedIsa.RetirementCycle(ToArch(s), 0, 1 + n + 3) + 1)
    ensures var c := DelayedIsa.RetirementCycle(ToArch(Seq(m.core, m.bus)), 0, 1 + n + 3);
            Cycles(m, c).Running?
            && Cycles(m, c).m.core.r[PC] == Plus(m.core.r[PC], 4)
            && Cycles(m, c).m.p0 == Cycles(m, c).m.p1 == 0
  {
    hide Step, Run, Plus, TakenLink, Returning, FlushModeFor, Cycles, ToArch, DelayedIsa.Run, DelayedIsa.Step,
         DelayedIsa.BehavesFor, DelayedIsa.RetirementCycle, DelayedIsa.Related, DelayedIsa.Flushes;
    var s := Seq(m.core, m.bus);
    var a, k := ToArch(s), 1 + n + 3;
    CallReturns(s, n);
    RunIsDelayedRun(s, k);
    EmptyPipeline(m);
    DelayedIsa.RetiredState(m, a, 0, k);
    LastFlushes(s, n);
    EmptyAt(Cycles(m, DelayedIsa.RetirementCycle(a, 0, k)).m, Run(s, k).s);
  }

  lemma {:induction false} EmptyAt(m: Machine, s: Seq)
    requires DelayedIsa.Related(m, ToArch(s), 0)
    ensures m.core.r[PC] == s.core.r[PC] && m.p0 == m.p1 == 0
  {
    hide DelayedIsa.InstrAt;
    MatchesAhead(m, s, 0);
  }

  /** The move to pc flushes. */
  lemma {:induction false} LastFlushes(s: Seq, n: nat)
    requires Run(s, 1 + n).At? && Returning(Run(s, 1 + n).s) && FlushModeFor(s, 1 + n + 3) && Run(s, 1 + n + 3).At?
    ensures DelayedIsa.Run(ToArch(s), 1 + n + 2).At? && DelayedIsa.Flushes(DelayedIsa.Run(ToArch(s), 1 + n + 2).s)
  {
    hide Step, Run, FlushModeFor, ToArch, DelayedIsa.Run, NextIs, DelayedIsa.Flushes, InFlushMode;
    RunPrefix(s, 1 + n + 3, 1 + n + 2);
    RunAdds(s, 1 + n, 2);
    FlushModeForLess(s, 1 + n + 3, 1 + n + 2);
    RunIsDelayedRun(s, 1 + n + 2);
    FlushModeAt(s, 1 + n + 3, 1 + n + 2);
    MoveBackFlushes(Run(s, 1 + n + 2).s);
  }

  lemma {:induction false} FlushModeAt(s: Seq, n: nat, k: nat)
    requires FlushModeFor(s, n) && k < n && Run(s, k).At?
    ensures InFlushMode(Run(s, k).s)
    decreases k
  {
    hide Step, InFlushMode;
    if k == 0 {
    } else {
      FlushModeAt(Step(s).s, n - 1, k - 1);
    }
  }

  lemma {:induction false} MoveBackFlushes(s: Seq)
    requires InFlushMode(s) && NextIs(s, MovesBack)
    ensures DelayedIsa.Flushes(ToArch(s))
  {
    hide DelayedIsa.InstrAt, Perform, Decode, Plus, Transfers, FlushOnTransfer, ToArch;
    ToArchFacts(s);
    var c := SetPc(s.core, Plus(s.core.r[PC], 12));
    var w := DelayedIsa.InstrAt(s.core, s.bus, s.core.r[PC]).value;
    MoveBackTransfers(c, s.bus, w);
  }

  lemma {:induction false} MoveBackTransfers(c: Core, bus: Bus, w: Word)
    requires MovesBack(w) && FlushOnTransfer(c.cr0)
    ensures Perform(c, bus, w).Next? && Perform(c, bus, w).flush
  {
    hide Decode, FlushOnTransfer;
  }
}
