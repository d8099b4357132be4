/** `bios_lock`, the loop the BIOS ends in, on the whole machine, wherever it is placed and
    whichever encodings of its instructions are chosen: what the loop does and what it costs. The
    hypotheses of the refinement hold on its runs of any length. */
module Lock {
  import opened Words
  import opened Alu
  import opened Core
  import opened Mmu
  import opened Instructions
  import opened Execute
  import opened DelayedIsa
  import opened Prefetch
  import B = BranchEncoding
  import P = Processor
  import S = SequentialIsa

  // ---- The words of the loop ----

  /** An operation on registers, defined for all operands, whose result goes to r0. */
  predicate IsNop(w: Word) {
    var i := Decode(w);
    i.AluReg? && i.d == 0 && i.alu in {0, 1, 2, 3, 6, 7, 8, 12, 13}
  }

  /** A comparison that always holds: of a register with itself, or of r0 from below. */
  predicate AlwaysHolds(cond: CondIndex, d: Reg, s0: Reg) {
    (d == s0 && cond in {0, 3, 5}) || (cond == 3 && s0 == 0) || (cond == 5 && d == 0)
  }

  /** A branch that is always taken, back by two words, seen from r31 = A + 12. */
  predicate IsBack(w: Word) {
    var i := Decode(w);
    i.BranchImm? && !i.link && i.disp == Wrap(-20) && AlwaysHolds(i.cond, i.d, i.s0)
  }

  predicate IsAny(w: Word) { true }

  /** nop, nop, b bios_lock at A, with two more words that can be fetched behind it. */
  predicate LoopAt(c: Core, bus: Bus, A: Word) {
    && FetchIs(c, bus, A, IsNop) && FetchIs(c, bus, Plus(A, 4), IsNop) && FetchIs(c, bus, Plus(A, 8), IsBack)
    && FetchIs(c, bus, Plus(A, 12), IsAny) && FetchIs(c, bus, Plus(A, 16), IsAny)
  }

  /** The loop is running: transfers flush, and r31 is at its word k. */
  predicate Locked(s: S.Seq, A: Word, k: nat) {
    && LoopAt(s.core, s.bus, A) && FlushOnTransfer(s.core.cr0) && s.core.r[0] == 0
    && k < 3 && s.core.r[PC] == Plus(A, 4 * k)
  }

  lemma {:induction false} LoopStays(c: Core, bus: Bus, A: Word, r: Registers)
    requires LoopAt(c, bus, A)
    ensures LoopAt(c.(r := r), bus, A)
  {
    hide Read, IsNop, IsBack, Plus;
    FetchIgnoresRegisters(c, r, bus, A);
    FetchIgnoresRegisters(c, r, bus, Plus(A, 4));
    FetchIgnoresRegisters(c, r, bus, Plus(A, 8));
    FetchIgnoresRegisters(c, r, bus, Plus(A, 12));
    FetchIgnoresRegisters(c, r, bus, Plus(A, 16));
  }

  lemma {:induction false} LoopWord(s: S.Seq, A: Word, k: nat)
    requires Locked(s, A, k)
    ensures S.NextIs(s, if k == 2 then IsBack else IsNop)
  {
    hide InstrAt, IsNop, IsBack, Plus, FlushOnTransfer;
    PlusPlus(A, 0, 0);
    if k == 0 {
    } else if k == 1 {
      assert s.core.r[PC] == Plus(A, 4);
    } else {
      assert s.core.r[PC] == Plus(A, 8);
    }
  }

  // ---- One instruction ----

  lemma {:induction false} NopPerformed(c: Core, bus: Bus, w: Word)
    requires IsNop(w) && c.r[0] == 0
    ensures Perform(c, bus, w) == Next(c, bus, false) && !S.Transfers(c, bus, Decode(w))
  {
    hide Decode, FlushOnTransfer, Operate;
    var i := Decode(w);
    NopDefined(i.alu, c.r[0], c.r[i.s0], c.r[i.s1]);
    var v := Operate(i.alu, c.r[0], c.r[i.s0], c.r[i.s1]).value;
    assert c.r[0 := v][0 := 0] == c.r;
  }

  lemma {:induction false} NopDefined(op: AluOp, d: Word, s0: Word, s1: Word)
    requires op in {0, 1, 2, 3, 6, 7, 8, 12, 13}
    ensures Operate(op, d, s0, s1).Some?
  {
    hide And32, Or32, Xor32, SignExtend8, SignExtend16, Wrap;
  }

  lemma {:induction false} BackPerformed(c: Core, bus: Bus, w: Word)
    requires IsBack(w) && c.r[0] == 0 && FlushOnTransfer(c.cr0)
    ensures Perform(c, bus, w) == Next(SetPc(c, Plus(c.r[PC], -20)), bus, true) && S.Transfers(c, bus, Decode(w))
  {
    B.WrappedMove(c.r[PC], -20);
    hide Decode, FlushOnTransfer, Wrap, Plus;
    var t := Plus(c.r[PC], -20);
    assert c.r[PC := t][0 := 0] == c.r[PC := t];
  }

  function NextWord(k: nat): nat {
    if k < 2 then k + 1 else 0
  }

  /** The state one instruction later. */
  function Turned(s: S.Seq, A: Word, k: nat): S.Seq {
    S.Seq(SetPc(s.core, Plus(A, 4 * NextWord(k))), s.bus)
  }

  lemma {:induction false} LockStep(s: S.Seq, A: Word, k: nat)
    requires Locked(s, A, k)
    ensures S.InFlushMode(s) && S.Step(s) == At(Turned(s, A, k)) && Locked(Turned(s, A, k), A, NextWord(k))
    ensures Flushes(S.ToArch(s)) == (k == 2) && Plain(S.ToArch(s))
  {
    hide InstrAt, Perform, Decode, IsNop, IsBack, IsSysret, Plus, FlushOnTransfer, S.Transfers, S.ToArch;
    LoopWord(s, A, k);
    var pc := s.core.r[PC];
    var w := InstrAt(s.core, s.bus, pc).value;
    var c := SetPc(s.core, Plus(pc, 12));
    S.ToArchFacts(s);
    PlusPlus(A, 4 * k, 4);
    PlusPlus(A, 4 * k, 12);
    PlusPlus(A, 20, -20);
    PlusPlus(A, 0, 0);
    LoopWordsPlain(c, w);
    LoopStays(s.core, s.bus, A, Turned(s, A, k).core.r);
    SetPcTwice(s.core, Plus(pc, 12), Plus(A, 4 * NextWord(k)));
    if k == 2 {
      BackPerformed(c, s.bus, w);
    } else {
      NopPerformed(c, s.bus, w);
    }
  }

  lemma {:induction false} LoopWordsPlain(c: Core, w: Word)
    requires (IsNop(w) || IsBack(w)) && FlushOnTransfer(c.cr0)
    ensures !IsSysret(w) && Undisturbed(c, Decode(w)) && !IsStore(Decode(w))
  {
    hide Decode, FlushOnTransfer, Steady;
  }

  /** The same step of the machine with delay slots, and what it fetches. */
  lemma {:induction false} LockDelayed(s: S.Seq, A: Word, k: nat)
    requires Locked(s, A, k)
    ensures DelayedIsa.Step(S.ToArch(s)) == At(S.ToArch(Turned(s, A, k)))
    ensures Fetches(S.ToArch(s), 2) && (k == 0 ==> Fetches(S.ToArch(s), 0) && Fetches(S.ToArch(s), 1))
  {
    hide InstrAt, IsNop, IsBack, Plus, FlushOnTransfer, DelayedIsa.Step, S.Step, S.InFlushMode;
    LockStep(s, A, k);
    S.StepIsDelayedStep(s);
    LockFetches(s, A, k);
  }

  lemma {:induction false} LockFetches(s: S.Seq, A: Word, k: nat)
    requires Locked(s, A, k)
    ensures Fetches(S.ToArch(s), 2) && (k == 0 ==> Fetches(S.ToArch(s), 0) && Fetches(S.ToArch(s), 1))
  {
    hide InstrAt, IsNop, IsBack, Plus, FlushOnTransfer, S.ToArch;
    var pc := s.core.r[PC];
    var a := S.ToArch(s);
    S.ToArchFacts(s);
    PlusPlus(A, 4 * k, 8);
    PlusPlus(A, 4 * k, 4);
    PlusPlus(A, 0, 0);
    LoopArch(s, A);
  }

  lemma {:induction false} LoopArch(s: S.Seq, A: Word)
    requires LoopAt(s.core, s.bus, A)
    ensures LoopAt(S.ToArch(s).core, S.ToArch(s).bus, A)
  {
    hide LoopAt, Plus;
    LoopStays(s.core, s.bus, A, S.ToArch(s).core.r);
  }

  // ---- Turns of the loop ----

  /** Three steps that come back to where they started, the last one flushing. */
  ghost predicate Circle(a: Arch, a1: Arch, a2: Arch) {
    && DelayedIsa.Step(a) == At(a1) && DelayedIsa.Step(a1) == At(a2) && DelayedIsa.Step(a2) == At(a)
    && !Flushes(a) && !Flushes(a1) && Flushes(a2)
    && Plain(a) && Plain(a1) && Plain(a2)
    && Fetches(a, 0) && Fetches(a, 1) && Fetches(a, 2) && Fetches(a1, 2) && Fetches(a2, 2)
  }

  /** A turn retires three instructions in five cycles, and its cycles are plain. */
  lemma {:induction false} FiveCycles(a: Arch, a1: Arch, a2: Arch, n: nat)
    requires Circle(a, a1, a2)
    ensures Retired(a, 0, n + 5) == 3 + Retired(a, 0, n)
    ensures PhaseAfter(a, 0, n + 5) == PhaseAfter(a, 0, n)
    ensures PlainFor(a, 0, n) ==> PlainFor(a, 0, n + 5)
  {
    hide DelayedIsa.Step, Flushes, Plain, Fetches;
    assert Retired(a, 0, n + 5) == Retired(a, 1, n + 4);
    assert Retired(a, 1, n + 4) == Retired(a, 2, n + 3);
    assert Retired(a, 2, n + 3) == 1 + Retired(a1, 2, n + 2);
    assert Retired(a1, 2, n + 2) == 1 + Retired(a2, 2, n + 1);
    assert PhaseAfter(a, 0, n + 5) == PhaseAfter(a, 1, n + 4);
    assert PhaseAfter(a, 1, n + 4) == PhaseAfter(a, 2, n + 3);
    assert PhaseAfter(a, 2, n + 3) == PhaseAfter(a1, 2, n + 2);
    assert PhaseAfter(a1, 2, n + 2) == PhaseAfter(a2, 2, n + 1);
    if PlainFor(a, 0, n) {
      assert PlainFor(a2, 2, n + 1);
      assert PlainFor(a1, 2, n + 2);
      assert PlainFor(a, 2, n + 3);
      assert PlainFor(a, 1, n + 4);
    }
  }

  lemma {:induction false} LockCircle(s: S.Seq, A: Word)
    requires Locked(s, A, 0)
    ensures var s1 := Turned(s, A, 0);
            var s2 := Turned(s1, A, 1);
            && S.Step(s) == At(s1) && S.Step(s1) == At(s2) && S.Step(s2) == At(s)
            && S.InFlushMode(s) && S.InFlushMode(s1) && S.InFlushMode(s2)
            && Circle(S.ToArch(s), S.ToArch(s1), S.ToArch(s2))
  {
    var s1 := Turned(s, A, 0);
    var s2 := Turned(s1, A, 1);
    assert Turned(s2, A, 2) == s by { FullCircle(s, A); }
    hide Locked, Plain, S.Step, S.InFlushMode, DelayedIsa.Step, Flushes, S.ToArch, Fetches, Turned;
    LockStep(s, A, 0);
    LockDelayed(s, A, 0);
    LockStep(s1, A, 1);
    LockDelayed(s1, A, 1);
    LockStep(s2, A, 2);
    LockDelayed(s2, A, 2);
  }

  lemma {:induction false} FullCircle(s: S.Seq, A: Word)
    requires s.core.r[PC] == Plus(A, 0)
    ensures Turned(Turned(Turned(s, A, 0), A, 1), A, 2) == s
  {
    hide Plus;
    SetPcTwice(s.core, Plus(A, 4), Plus(A, 8));
    SetPcTwice(s.core, Plus(A, 8), Plus(A, 0));
  }

  lemma {:induction false} ThreeTurns(s: S.Seq, s1: S.Seq, s2: S.Seq, n: nat)
    requires S.Step(s) == At(s1) && S.Step(s1) == At(s2) && S.Step(s2) == At(s)
    requires S.InFlushMode(s) && S.InFlushMode(s1) && S.InFlushMode(s2)
    ensures S.Run(s, n + 3) == S.Run(s, n)
    ensures S.FlushModeFor(s, n) ==> S.FlushModeFor(s, n + 3)
  {
    hide S.Step, S.InFlushMode;
    assert S.Run(s, n + 3) == S.Run(s1, n + 2);
    assert S.Run(s1, n + 2) == S.Run(s2, n + 1);
    if S.FlushModeFor(s, n) {
      assert S.FlushModeFor(s2, n + 1);
      assert S.FlushModeFor(s1, n + 2);
    }
  }

  /** n turns are 3n instructions and 5n cycles, and meet the hypotheses of the refinement. */
  lemma {:induction false} ManyTurns(s: S.Seq, A: Word, n: nat)
    requires Locked(s, A, 0)
    ensures S.Run(s, 3 * n) == At(s) && S.FlushModeFor(s, 3 * n)
    ensures Retired(S.ToArch(s), 0, 5 * n) == 3 * n && PhaseAfter(S.ToArch(s), 0, 5 * n) == 0
    ensures PlainFor(S.ToArch(s), 0, 5 * n)
    decreases n
  {
    hide Locked, S.ToArch, S.Run, Retired, PhaseAfter, PlainFor, S.FlushModeFor, Turned, Circle, S.Step,
         S.InFlushMode;
    if n == 0 {
      NoTurns(s);
    } else {
      ManyTurns(s, A, n - 1);
      LockCircle(s, A);
      var s1 := Turned(s, A, 0);
      var s2 := Turned(s1, A, 1);
      ThreeTurns(s, s1, s2, 3 * (n - 1));
      FiveCycles(S.ToArch(s), S.ToArch(s1), S.ToArch(s2), 5 * (n - 1));
    }
  }

  lemma {:induction false} NoTurns(s: S.Seq)
    ensures S.Run(s, 0) == At(s) && S.FlushModeFor(s, 0)
    ensures Retired(S.ToArch(s), 0, 0) == 0 && PhaseAfter(S.ToArch(s), 0, 0) == 0
    ensures PlainFor(S.ToArch(s), 0, 0)
  {
    hide S.ToArch;
  }

  /** From an empty pipeline, n turns of the loop take exactly 5n cycles and change nothing. */
  lemma {:induction false} LockSpins(m: Machine, A: Word, n: nat)
    requires m.p0 == m.p1 == 0 && Locked(S.Seq(m.core, m.bus), A, 0)
    ensures var last := Cycles(m, 5 * n);
            last.Running? && last.m.core == m.core && last.m.bus == m.bus
  {
    var s := S.Seq(m.core, m.bus);
    assert m.core.r[0] == 0;
    hide Cycles, S.Run, Retired, PhaseAfter, S.ToArch, PlainFor, S.FlushModeFor, Locked, Plus;
    ManyTurns(s, A, n);
    PlainRunsRefine(m, 5 * n);
    PlusPlus(m.core.r[PC], 0, 0);
    SetPcTwice(m.core, 0, 0);
  }

  // ---- An instance ----

  /** One encoding of the loop, assembled by hand, in a ROM at address 0. */
  const ROM: seq<Byte> := [0, 0, 0, 0, 0, 0, 0, 0, 0xd8, 0xff, 0x01, 0x90, 0, 0, 0, 0, 0, 0, 0, 0]
  const BRANCH: Word := 0x9001_ffd8
  const BUS: Bus := [Device(0, ROM, false)]

  function WordAt(addr: int): Word {
    if addr == 8 then BRANCH else 0
  }

  lemma {:induction false} RomWord(addr: Word)
    requires addr in {0, 4, 8, 12, 16}
    ensures LittleWord(ROM, addr) == WordAt(addr)
  {
    hide LittleWord, Little;
    P.LittleIsFour(ROM, addr);
  }

  lemma {:induction false} RomFetches(c: Core, addr: Word)
    requires !Enabled(c.ctrl) && addr in {0, 4, 8, 12, 16}
    ensures InstrAt(c, BUS, addr) == Some(WordAt(addr))
  {
    hide LittleWord, Enabled;
    assert |ROM| == 20;
    RomWord(addr);
    hide ROM;
    assert BUS[0].Covers(addr);
    assert FindDevice(BUS, addr, 0) == 0;
  }

  lemma {:induction false} BranchEncoded()
    ensures B.Encode(0, 0, 0, false, -20) == BRANCH
  {
  }

  lemma {:induction false} RomWordsDecode()
    ensures IsBack(BRANCH) && IsNop(0)
  {
    hide Decode, B.Encode, Wrap, BRANCH;
    BranchEncoded();
    ZeroDecodes();
    B.DecodeEncode(0, 0, 0, false, -20);
  }

  /** With the MMU off and the flag set, a reset machine at that ROM runs the loop. */
  lemma {:induction false} RomIsLoop(c: Core)
    requires !Enabled(c.ctrl) && FlushOnTransfer(c.cr0) && c.r[0] == 0 && c.r[PC] == 0
    ensures Locked(S.Seq(c, BUS), 0, 0)
  {
    hide InstrAt, IsNop, IsBack, Enabled, FlushOnTransfer, BRANCH, BUS;
    RomWordsDecode();
    RomFetches(c, 0);
    RomFetches(c, 4);
    RomFetches(c, 8);
    RomFetches(c, 12);
    RomFetches(c, 16);
  }
}
