/** System calls in both modes: a syscall at A leaves xpc = A + 12; with the flag clear A + 4 and
    A + 8 run once before the handler, with the flag set they never run; and a handler of any
    length that keeps xpc resumes at A + 12, behind the two slots of its sysret. */
module SystemCalls {
  import opened Words
  import opened Alu
  import opened Core
  import opened Mmu
  import opened Instructions
  import opened Execute
  import opened DelayedIsa
  import opened DelaySlots

  /** The three program counters are consecutive. */
  predicate InSequence(a: Arch) {
    a.npc == Plus(a.pc, 4) && a.core.r[PC] == Plus(a.pc, 8)
  }

  /** The next instruction runs and neither transfers nor faults. */
  predicate Straight(a: Arch) {
    Step(a).At? && !Flushes(a) && Step(a).s.core.r[PC] == Plus(a.core.r[PC], 4)
  }

  predicate NextIs(a: Arch, p: Word -> bool) {
    FetchIs(a.core, a.bus, a.pc, p)
  }

  lemma {:induction false} SyscallPerformed(c: Core, bus: Bus, w: Word)
    requires IsSyscall(w)
    ensures var e := Perform(c, bus, w);
            && e.Next? && e.flush == FlushOnTransfer(c.cr0)
            && e.core.xpc == c.r[PC] && e.core.r[PC] == c.xhaddr == e.core.xhaddr
  {
    hide FlushOnTransfer, Or32, Wrap, Decode, EnableOnTpl1, DisableOnTpl0, RemapOnPlt;
  }

  lemma {:induction false} SysretPerformed(c: Core, bus: Bus, w: Word)
    requires IsSysret(w)
    ensures Perform(c, bus, w) == Next(SetReg(SysReturn(c), 0, 0), bus, false)
    ensures SysReturn(c).r == c.r[PC := c.xpc]
  {
    hide Decode, EnableOnTpl1, DisableOnTpl0, RemapOnPlt, SetEnable, ClearEnable;
  }

  /** A syscall with the flag clear: r31 is at the handler after it. */
  lemma {:induction false} SyscallStep(a: Arch)
    requires NextIs(a, IsSyscall) && FlagClear(a)
    ensures Step(a).At?
    ensures var c := Step(a).s.core;
            c.xpc == Plus(a.core.r[PC], 4) && c.r[PC] == a.core.xhaddr == c.xhaddr
  {
    hide InstrAt, FlushOnTransfer, Perform, IsSyscall, Plus, SetsFlagFromPc;
    SyscallPerformed(Advance(a.core), a.bus, InstrAt(a.core, a.bus, a.pc).value);
  }

  /** A syscall at A in sequence, with the flag clear, whose slots neither transfer nor fault,
      executes A + 4 and A + 8 once each before the handler starts, in sequence, with xpc = A + 12. */
  lemma {:induction false} SyscallEntersHandler(a: Arch)
    requires FlagClearFor(a, 3) && InSequence(a) && NextIs(a, IsSyscall)
    requires Run(a, 3).At? && Straight(Run(a, 1).s) && Straight(Run(a, 2).s)
    ensures Run(a, 1).s.pc == Plus(a.pc, 4) && Run(a, 2).s.pc == Plus(a.pc, 8)
    ensures Run(a, 1).s.core.xpc == Plus(a.pc, 12)
    ensures Run(a, 3).s.pc == a.core.xhaddr && InSequence(Run(a, 3).s)
  {
    hide Step, FlagClear, Flushes, FetchIs, Plus;
    SyscallStep(a);
    TransferTakesEffectInThree(a);
    PlusPlus(a.pc, 8, 4);
    PlusPlus(a.core.xhaddr, 4, 4);
  }

  /** A syscall at A in sequence with the flag set: the handler starts at once, in sequence, with
      xpc = A + 12, so A + 4 and A + 8 do not run. */
  lemma {:induction false} SyscallFlushes(a: Arch)
    requires FlushOnTransfer(a.core.cr0) && InSequence(a) && NextIs(a, IsSyscall)
    ensures Run(a, 1).At? && Run(a, 1).s.core.xpc == Plus(a.pc, 12)
    ensures Run(a, 1).s.pc == a.core.xhaddr && InSequence(Run(a, 1).s)
  {
    OneStep(a);
    hide InstrAt, FlushOnTransfer, Perform, IsSyscall, Plus, Run;
    SyscallPerformed(Advance(a.core), a.bus, InstrAt(a.core, a.bus, a.pc).value);
    PlusPlus(a.pc, 8, 4);
  }

  /** sysret in either mode: two slots that neither transfer nor fault, then xpc, in sequence. */
  lemma {:induction false} SysretResumes(b: Arch)
    requires NextIs(b, IsSysret) && Run(b, 3).At? && Straight(Run(b, 1).s) && Straight(Run(b, 2).s)
    ensures Run(b, 1).s.pc == b.npc && Run(b, 2).s.pc == b.core.r[PC]
    ensures Run(b, 3).s.pc == b.core.xpc && InSequence(Run(b, 3).s)
  {
    hide Step, Run, Flushes, NextIs, Plus;
    ThreeSteps(b);
    SysretStep(b);
    CountersShift(b);
    CountersShift(Run(b, 1).s);
    CountersShift(Run(b, 2).s);
    PlusPlus(b.core.xpc, 4, 4);
  }

  lemma {:induction false} SysretStep(b: Arch)
    requires NextIs(b, IsSysret)
    ensures Step(b).At? && !Flushes(b) && Step(b).s.core.r[PC] == b.core.xpc
  {
    hide InstrAt, Perform, IsSysret, SysReturn, Plus;
    SysretPerformed(Advance(b.core), b.bus, InstrAt(b.core, b.bus, b.pc).value);
  }

  /** The handler about to return: the next instruction is sysret, with this xpc, and its slots
      neither transfer nor fault. */
  ghost predicate Returning(b: Arch, xpc: Word) {
    && NextIs(b, IsSysret) && b.core.xpc == xpc
    && Run(b, 3).At? && Straight(Run(b, 1).s) && Straight(Run(b, 2).s)
  }

  /** Whatever the handler does for h instructions, if it then returns with the xpc the syscall
      left, execution is back at A + 12. With the flag clear: */
  lemma {:induction false} SyscallResumes(a: Arch, h: nat)
    requires FlagClearFor(a, 3) && InSequence(a) && NextIs(a, IsSyscall)
    requires Run(a, 1).At? && Run(a, 2).At? && Run(a, 3).At? && Straight(Run(a, 1).s) && Straight(Run(a, 2).s)
    requires Run(a, 3 + h).At? && Returning(Run(a, 3 + h).s, Plus(a.pc, 12))
    ensures Run(a, 1).s.pc == Plus(a.pc, 4) && Run(a, 2).s.pc == Plus(a.pc, 8)
    ensures Run(a, 1).s.core.xpc == Plus(a.pc, 12) && Run(a, 3).s.pc == a.core.xhaddr
    ensures Run(a, 3 + h + 3).At?
    ensures Run(a, 3 + h + 3).s.pc == Plus(a.pc, 12) && InSequence(Run(a, 3 + h + 3).s)
  {
    hide Step, Run, FlagClear, FlagClearFor, NextIs, Straight, InSequence, Plus;
    ThreeSteps(a);
    SyscallEntersHandler(a);
    SysretResumes(Run(a, 3 + h).s);
    RunAdds(a, 3 + h, 3);
  }

  /** With the flag set: */
  lemma {:induction false} SyscallResumesFlushed(a: Arch, h: nat)
    requires FlushOnTransfer(a.core.cr0) && InSequence(a) && NextIs(a, IsSyscall)
    requires Run(a, 1 + h).At? && Returning(Run(a, 1 + h).s, Plus(a.pc, 12))
    ensures Run(a, 1).At? && Run(a, 1).s.core.xpc == Plus(a.pc, 12)
    ensures Run(a, 1).s.pc == a.core.xhaddr && InSequence(Run(a, 1).s)
    ensures Run(a, 1 + h + 3).At?
    ensures Run(a, 1 + h + 3).s.pc == Plus(a.pc, 12) && InSequence(Run(a, 1 + h + 3).s)
  {
    hide Step, Run, NextIs, Straight, InSequence, Plus, FlushOnTransfer;
    SyscallFlushes(a);
    SysretResumes(Run(a, 1 + h).s);
    RunAdds(a, 1 + h, 3);
  }

  // ---- On the pipelined machine ----

  /** The pipeline is full and the word at addr is the one the next cycle executes. */
  predicate About(m: Machine, a: Arch, addr: Word) {
    && Related(m, a, 2) && a.pc == addr
    && InstrAt(a.core, a.bus, addr) == Some(m.p1) && m.core.r[PC] == Plus(addr, 8)
  }

  lemma {:induction false} AboutToRun(m: Machine, a: Arch)
    requires Related(m, a, 2) && InSequence(a)
    ensures About(m, a, a.pc)
  {
    hide InstrAt;
    FullMatches(m, a);
  }

  /** With the flag clear the whole call takes one cycle for each instruction. */
  lemma {:induction false} SyscallCycles(m: Machine, a: Arch, h: nat)
    requires Related(m, a, 2) && FlagClearFor(a, 3 + h + 3) && BehavesFor(a, 2, 3 + h + 3 + 1)
    requires InSequence(a) && NextIs(a, IsSyscall)
    requires Run(a, 1).At? && Run(a, 2).At? && Run(a, 3).At? && Straight(Run(a, 1).s) && Straight(Run(a, 2).s)
    requires Run(a, 3 + h).At? && Returning(Run(a, 3 + h).s, Plus(a.pc, 12))
    ensures var n := 3 + h + 3;
            && Run(a, n).At? && Cycles(m, n).Running? && About(Cycles(m, n).m, Run(a, n).s, Plus(a.pc, 12))
  {
    hide Run, FlagClearFor, BehavesFor, NextIs, Straight, InSequence, Returning, Related, About, Retired,
         PhaseAfter, Cycles, Plus;
    var n := 3 + h + 3;
    FlagClearForLess(a, n, 3);
    SyscallResumes(a, h);
    EveryCycleRetires(a, n);
    RunRelates(m, a, 2, n);
    AboutToRun(Cycles(m, n).m, Run(a, n).s);
  }

  /** With the flag set it takes two more for each flush, that of the syscall included. */
  lemma {:induction false} SyscallCyclesFlushed(m: Machine, a: Arch, h: nat)
    requires Related(m, a, 2) && BehavesFor(a, 2, RetirementCycle(a, 2, 1 + h + 3) + 1)
    requires FlushOnTransfer(a.core.cr0) && InSequence(a) && NextIs(a, IsSyscall)
    requires Run(a, 1 + h).At? && Returning(Run(a, 1 + h).s, Plus(a.pc, 12))
    ensures var n := 1 + h + 3;
            var c := RetirementCycle(a, 2, n);
            && Run(a, n).At? && Cycles(m, c).Running? && About(Cycles(m, c).m, Run(a, n).s, Plus(a.pc, 12))
  {
    hide Run, BehavesFor, NextIs, InSequence, Related, About, Cycles, Plus, RetirementCycle, FlushOnTransfer,
         Step, Flushes;
    var n := 1 + h + 3;
    SyscallResumesFlushed(a, h);
    RetiredState(m, a, 2, n);
    RunAdds(a, 1 + h, 2);
    AboutToRun(Cycles(m, RetirementCycle(a, 2, n)).m, Run(a, n).s);
  }
}
