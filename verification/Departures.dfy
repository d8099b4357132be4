/** Where the code departs from the instruction set its documents describe: what it does
    instead, exactly. */
module Departures {
  import opened Words
  import opened Alu
  import opened Core
  import opened Mmu
  import opened Instructions
  import opened Execute
  import opened DelayedIsa
  import S = SequentialIsa
  import SystemCalls

  /** The document puts the coprocessor number in bits 11 to 7, clear of the register number.
      The code reads bits 12 to 8: the top bit of the one is the low bit of the other, so the
      numbers a word can name are exactly the pairs that agree on it. */
  lemma {:induction false} SharedBit(w: Word, copn: nat, copr: nat)
    requires copn < 32 && copr < 0x400
    ensures CpeCopr(w) % 2 == CpeCopn(w) / 16
    ensures (exists v: Word :: CpeCopn(v) == copn && CpeCopr(v) == copr) <==> copr % 2 == copn / 16
  {
    SharedBitOf(w);
    if copr % 2 == copn / 16 {
      var v: Word := Assembled(copn, copr);
      assert CpeCopn(v) == copn && CpeCopr(v) == copr;
    } else {
      forall v: Word
        ensures !(CpeCopn(v) == copn && CpeCopr(v) == copr)
      {
        SharedBitOf(v);
      }
    }
  }

  function Assembled(copn: nat, copr: nat): (w: Word)
    requires copn < 32 && copr < 0x400 && copr % 2 == copn / 16
    ensures CpeCopn(w) == copn && CpeCopr(w) == copr
  {
    AssembledFields(copn % 16, copr);
    copr * 0x1000 + copn % 16 * 0x100
  }

  lemma {:induction false} AssembledFields(low: nat, copr: nat)
    requires low < 16 && copr < 0x400
    ensures var w := copr * 0x1000 + low * 0x100;
            w < 0x1_0000_0000 && CpeCopr(w) == copr && CpeCopn(w) == copr % 2 * 16 + low
  {
    var w := copr * 0x1000 + low * 0x100;
    assert w == 0x100 * (16 * copr + low);
    assert w / 0x100 == 16 * copr + low;
    assert w / 0x1000 == copr;
    assert 16 * copr + low == 32 * (copr / 2) + (copr % 2 * 16 + low);
  }

  lemma {:induction false} SharedBitOf(w: Word)
    ensures CpeCopr(w) % 2 == CpeCopn(w) / 16
  {
    DivModTwice(w, 0x100, 16);
    PartOfRemainder(w / 0x100, 16, 2);
    PartOfRemainder(w / 0x1000, 2, 0x200);
  }

  /** The document gives the register branch three condition bits and six conditions. The code
      reads one bit: clear, it indexes before its table; set, it compares for equality. */
  lemma {:induction false} RegisterBranchOnlyEqual(c: Core, bus: Bus, w: Word)
    requires Group(w) == 13
    ensures var e := Dispatch(c, bus, Decode(w));
            (e.Undefined? <==> w / 2 % 2 == 0)
            && (e.Next? ==> e.core.r[PC] == (if c.r[D(w)] != c.r[S0(w)] then c.r[PC]
                                             else if BrnI(w) then Plus(c.r[PC], c.r[S1(w)])
                                             else c.r[S1(w)]))
  {
    DecodeBranchReg(w);
    hide Decode, Group, D, S0, S1, BrnI, FlushOnTransfer, Plus;
  }

  /** The condition of the document: bits 3 to 1, from eq as 0 to le as 5, the rest unused. */
  function BranchCondition(w: Word): int {
    w / 2 % 8
  }

  function BranchTarget(c: Core, w: Word): Word {
    if BrnI(w) then Plus(c.r[PC], c.r[S1(w)]) else c.r[S1(w)]
  }

  /** What the document describes. */
  function DocumentedBranch(c: Core, bus: Bus, w: Word): Effect
    requires BranchCondition(w) < 6
  {
    DoBranch(c, bus, Holds(BranchCondition(w), c.r[D(w)], c.r[S0(w)]), false, BranchTarget(c, w))
  }

  /** What the code does with it. */
  lemma {:induction false} RegisterBranchPerformed(c: Core, bus: Bus, w: Word)
    requires Group(w) == 13
    ensures Dispatch(c, bus, Decode(w)) ==
              if BranchCondition(w) % 2 == 0 then Effect.Undefined
              else DoBranch(c, bus, c.r[D(w)] == c.r[S0(w)], false, BranchTarget(c, w))
  {
    DecodeBranchReg(w);
    PartOfRemainder(w / 2, 2, 4);
    hide Decode, Group, D, S0, S1, BrnI, DoBranch, Plus;
  }

  /** A branch to where r31 is anyway is visible by its flush alone. */
  lemma {:induction false} BranchVisible(c: Core, bus: Bus, taken: bool, target: Word)
    ensures (DoBranch(c, bus, taken, false, target) == DoBranch(c, bus, !taken, false, target))
            == (target == c.r[PC] && !FlushOnTransfer(c.cr0))
  {
    hide FlushOnTransfer;
    SetPcTwice(c, 0, 0);
    assert c.r[PC := target][PC] == target;
  }

  /** In one state it is right exactly if the one bit is set and equality decides as the condition
      does, or it makes no difference whether the branch is taken. */
  lemma {:induction false} RegisterBranchRightAt(c: Core, bus: Bus, w: Word)
    requires Group(w) == 13 && BranchCondition(w) < 6
    ensures var k, a, b := BranchCondition(w), c.r[D(w)], c.r[S0(w)];
            (Dispatch(c, bus, Decode(w)) == DocumentedBranch(c, bus, w))
            == (k % 2 == 1 && ((a == b) == Holds(k, a, b)
                               || (BranchTarget(c, w) == c.r[PC] && !FlushOnTransfer(c.cr0))))
  {
    RegisterBranchPerformed(c, bus, w);
    hide Dispatch, Decode, Group, BranchCondition, BranchTarget, D, S0, DoBranch, Holds, FlushOnTransfer;
    var k, a, b := BranchCondition(w), c.r[D(w)], c.r[S0(w)];
    BranchVisible(c, bus, a == b, BranchTarget(c, w));
    BranchDefined(c, bus, Holds(k, a, b), BranchTarget(c, w));
  }

  lemma {:induction false} BranchDefined(c: Core, bus: Bus, taken: bool, target: Word)
    ensures DoBranch(c, bus, taken, false, target).Next?
  {
  }

  /** In all states equality decides as the condition does: ge or le, of a register with itself or
      of r0 from the side on which nothing is smaller. */
  predicate AlwaysAsEqual(k: int, d: Reg, s0: Reg) {
    (k == 3 && (d == s0 || d == 0)) || (k == 5 && (d == s0 || s0 == 0))
  }

  /** It is right in every state exactly then. */
  lemma {:induction false} RegisterBranchRightIff(bus: Bus, w: Word)
    requires Group(w) == 13 && BranchCondition(w) < 6
    ensures (forall c: Core :: c.r[0] == 0 ==> Dispatch(c, bus, Decode(w)) == DocumentedBranch(c, bus, w))
            == AlwaysAsEqual(BranchCondition(w), D(w), S0(w))
  {
    hide Dispatch, Decode, DocumentedBranch, Group, D, S0, BranchCondition, BranchTarget, FlushOnTransfer,
         CoreForBranch;
    var k, d, s0 := BranchCondition(w), D(w), S0(w);
    if AlwaysAsEqual(k, d, s0) {
      forall c: Core | c.r[0] == 0
        ensures Dispatch(c, bus, Decode(w)) == DocumentedBranch(c, bus, w)
      {
        RegisterBranchRightAt(c, bus, w);
      }
    } else {
      var c := CoreForBranch(k, d, s0);
      ConditionRange(w);
      BranchWitness(k, d, s0);
      RegisterBranchRightAt(c, bus, w);
      assert Dispatch(c, bus, Decode(w)) != DocumentedBranch(c, bus, w);
    }
  }

  lemma {:induction false} ConditionRange(w: Word)
    ensures 0 <= BranchCondition(w) < 8
  {
  }

  /** A state with the flag set in which equality and the condition disagree. */
  function CoreForBranch(k: int, d: Reg, s0: Reg): Core {
    var c := Reset().(cr0 := 8);
    if k == 3 then c.(r := c.r[d := 1]) else if k == 5 then c.(r := c.r[s0 := 1]) else c
  }

  lemma {:induction false} BranchWitness(k: int, d: Reg, s0: Reg)
    requires 0 <= k < 6 && !AlwaysAsEqual(k, d, s0)
    ensures var c := CoreForBranch(k, d, s0);
            && c.r[0] == 0 && FlushOnTransfer(c.cr0)
            && (k % 2 == 1 ==> (c.r[d] == c.r[s0]) != Holds(k, c.r[d], c.r[s0]))
  {
  }

  /** Branch if r0 and r0 differ, to the address in r0. */
  const BRANCH_EXAMPLE: Word := 0x6800_0002

  lemma {:induction false} BranchExampleFields()
    ensures Group(BRANCH_EXAMPLE) == 13 && BranchCondition(BRANCH_EXAMPLE) == 1 && !BrnI(BRANCH_EXAMPLE)
    ensures D(BRANCH_EXAMPLE) == 0 && S0(BRANCH_EXAMPLE) == 0 && S1(BRANCH_EXAMPLE) == 0
  {
  }

  /** After reset, with the flag set, the example branches; the document does not let it. */
  lemma {:induction false} RegisterBranchWrong()
    ensures var c := Reset().(cr0 := 8);
            && Group(BRANCH_EXAMPLE) == 13 && BranchCondition(BRANCH_EXAMPLE) == 1
            && Dispatch(c, [], Decode(BRANCH_EXAMPLE)) == Jump(c, [], 0)
            && DocumentedBranch(c, [], BRANCH_EXAMPLE) == Next(c, [], false) != Jump(c, [], 0)
  {
    BranchExampleFields();
    ResetRegisters();
    FlagIsSet();
    hide Dispatch, Decode, Group, D, S0, S1, BrnI, BranchCondition, Reset, FlushOnTransfer, BRANCH_EXAMPLE, Plus;
    RegisterBranchPerformed(Reset().(cr0 := 8), [], BRANCH_EXAMPLE);
  }

  lemma {:induction false} FlagIsSet()
    ensures FlushOnTransfer(8)
  {
  }

  // ---- The coprocessor number ----

  /** Bits 11 to 7, where the document puts it. */
  function DocumentedCopn(w: Word): nat {
    w / 0x80 % 32
  }

  /** The code reads the number the document means exactly if bits 12 to 7 are all clear or all set. */
  lemma {:induction false} CopnRightIff(w: Word)
    ensures CpeCopn(w) == DocumentedCopn(w) <==> w / 0x80 % 64 == 0 || w / 0x80 % 64 == 63
  {
    var x := w / 0x80;
    DivModTwice(w, 0x80, 2);
    PartOfRemainder(x, 2, 32);
    PartOfRemainder(x, 32, 2);
    SixBits(x % 64);
  }

  lemma {:induction false} SixBits(y: nat)
    requires y < 64
    ensures y / 2 == y % 32 <==> y == 0 || y == 63
  {
  }

  function DocumentedExchange(c: Core, bus: Bus, w: Word): Effect {
    Exchange(c, bus, CpeOp(w), DocumentedCopn(w), D(w), CpeCopr(w))
  }

  predicate Resolves(copn: int, copr: int) {
    CopRegister(0, copn, copr) != NoCopReg
  }

  /** The two readings of a word never name different coprocessors that both have registers. */
  lemma {:induction false} NeverBoth(w: Word)
    ensures CpeCopn(w) in {0, 4} && DocumentedCopn(w) in {0, 4} ==> CpeCopn(w) == DocumentedCopn(w)
  {
    DivModTwice(w, 0x80, 2);
    PartOfRemainder(w / 0x80, 2, 32);
    PartOfRemainder(w / 0x80, 32, 2);
  }

  /** mtcr and mfcr do what the document says in every state exactly if the two numbers are the same
      or neither names a register. */
  lemma {:induction false} ExchangeRightIff(bus: Bus, w: Word)
    requires Group(w) == 14 && CpeOp(w) <= 1
    ensures (forall c: Core :: c.r[0] == 0 ==> Dispatch(c, bus, Decode(w)) == DocumentedExchange(c, bus, w))
            == (CpeCopn(w) == DocumentedCopn(w)
                || (!Resolves(CpeCopn(w), CpeCopr(w)) && !Resolves(DocumentedCopn(w), CpeCopr(w))))
  {
    NeverBoth(w);
    OpRange(w);
    hide Dispatch, Decode, Group, D, CpeOp, CpeCopn, CpeCopr, DocumentedCopn, Exchange, Resolves, Reset;
    var n, n', copr := CpeCopn(w), DocumentedCopn(w), CpeCopr(w);
    forall c: Core
      ensures Dispatch(c, bus, Decode(w)) == Exchange(c, bus, CpeOp(w), n, D(w), copr)
    {
      ExchangeRead(c, bus, w);
    }
    if n == n' || (!Resolves(n, copr) && !Resolves(n', copr)) {
      forall c: Core | c.r[0] == 0
        ensures Dispatch(c, bus, Decode(w)) == DocumentedExchange(c, bus, w)
      {
        NothingResolved(c, bus, CpeOp(w), n, n', D(w), copr);
      }
    } else {
      ResetHasR0();
      ResolvedOrRaised(bus, CpeOp(w), n, D(w), copr);
      ResolvedOrRaised(bus, CpeOp(w), n', D(w), copr);
      assert Dispatch(Reset(), bus, Decode(w)) != DocumentedExchange(Reset(), bus, w);
    }
  }

  lemma {:induction false} OpRange(w: Word)
    ensures CpeOp(w) >= 0
  {
  }

  lemma {:induction false} ResetHasR0()
    ensures Reset().r[0] == 0
  {
  }

  lemma {:induction false} ExchangeRead(c: Core, bus: Bus, w: Word)
    requires Group(w) == 14
    ensures Dispatch(c, bus, Decode(w)) == Exchange(c, bus, CpeOp(w), CpeCopn(w), D(w), CpeCopr(w))
  {
    DecodeExchange(w);
    hide Decode, Group, Exchange, CpeOp, CpeCopn, CpeCopr, D;
  }

  lemma {:induction false} NothingResolved(c: Core, bus: Bus, op: int, n: int, n': int, d: Reg, copr: int)
    requires n == n' || (!Resolves(n, copr) && !Resolves(n', copr))
    ensures Exchange(c, bus, op, n, d, copr) == Exchange(c, bus, op, n', d, copr)
  {
    hide Raise, FlushOnTransfer, ReadCop, WriteCop;
  }

  /** After reset an exchange raises the exception exactly if its register does not exist. */
  lemma {:induction false} ResolvedOrRaised(bus: Bus, op: int, n: int, d: Reg, copr: int)
    requires 0 <= op <= 1
    ensures var e := Exchange(Reset(), bus, op, n, d, copr);
            e.Next? && (e.core.xcause == CAUSE_INVALID_COPX) == !Resolves(n, copr)
    ensures Resolves(n, copr) ==> n in {0, 4}
  {
    ResetRegisters();
    hide FlushOnTransfer, EnableOnTpl1, DisableOnTpl0, RemapOnPlt;
  }

  /** mtcr from r0 to register 0 of coprocessor 1, as documented. */
  const EXCHANGE_EXAMPLE: Word := 0x7000_0080

  /** The document has it raise an exception; the code clears CR0. */
  lemma {:induction false} ExchangeWrong(bus: Bus)
    ensures var w := EXCHANGE_EXAMPLE;
            && Group(w) == 14 && CpeOp(w) == 0 && CpeCopr(w) == 0 && D(w) == 0
            && DocumentedCopn(w) == 1 && CpeCopn(w) == 0
            && Dispatch(Reset(), bus, Decode(w)).Next? && Dispatch(Reset(), bus, Decode(w)).core.xcause == CAUSE_RESET
            && DocumentedExchange(Reset(), bus, w).Next?
            && DocumentedExchange(Reset(), bus, w).core.xcause == CAUSE_INVALID_COPX
  {
    ExchangeExampleFields();
    ResetRegisters();
    hide Group, Decode, Dispatch, CpeOp, CpeCopr, CpeCopn, DocumentedCopn, D, EXCHANGE_EXAMPLE, FlushOnTransfer;
    ExchangeRead(Reset(), bus, EXCHANGE_EXAMPLE);
  }

  lemma {:induction false} ExchangeExampleFields()
    ensures Group(EXCHANGE_EXAMPLE) == 14 && CpeOp(EXCHANGE_EXAMPLE) == 0 && CpeCopr(EXCHANGE_EXAMPLE) == 0
    ensures D(EXCHANGE_EXAMPLE) == 0 && DocumentedCopn(EXCHANGE_EXAMPLE) == 1 && CpeCopn(EXCHANGE_EXAMPLE) == 0
  {
    ExchangeExampleWord();
    ExchangeExampleNumbers();
    hide Group, CpeOp, CpeCopr, D, DocumentedCopn, CpeCopn, EXCHANGE_EXAMPLE;
  }

  lemma {:induction false} ExchangeExampleWord()
    ensures Group(EXCHANGE_EXAMPLE) == 14 && CpeOp(EXCHANGE_EXAMPLE) == 0 && D(EXCHANGE_EXAMPLE) == 0
  {
  }

  lemma {:induction false} ExchangeExampleNumbers()
    ensures DocumentedCopn(EXCHANGE_EXAMPLE) == 1 && CpeCopn(EXCHANGE_EXAMPLE) == 0 && CpeCopr(EXCHANGE_EXAMPLE) == 0
  {
    DivModUnique(0x7000_0080, 0x80, 0xe0_0001, 0);
    DivModUnique(0xe0_0001, 32, 0x7_0000, 1);
    DivModUnique(0x7000_0080, 0x100, 0x70_0000, 0x80);
    DivModUnique(0x70_0000, 32, 0x3_8000, 0);
    DivModUnique(0x7000_0080, 0x1000, 0x7_0000, 0x80);
    DivModUnique(0x7_0000, 0x400, 0x1c0, 0);
  }

  // ---- Set if condition, immediate ----

  function SetCondition(w: Word): CondIndex
    requires IsSetCondImm(Group(w))
  {
    Group(w) / 2 % 8 - 1
  }

  function SetImmediate(w: Word): Word {
    SignExtend16If(SciImm16(w), SciSx(w))
  }

  /** What the document describes: compare the value of the source register. */
  function DocumentedSet(c: Core, bus: Bus, w: Word): Effect
    requires IsSetCondImm(Group(w))
  {
    var v := Bool(Holds(SetCondition(w), c.r[S0(w)], SetImmediate(w)));
    Next(SetReg(SetReg(c, D(w), v), 0, 0), bus, D(w) == PC && FlushOnTransfer(c.cr0))
  }

  lemma {:induction false} SetConditionDecoded(w: Word)
    requires IsSetCondImm(Group(w))
    ensures Decode(w) == SetCondImm(SetCondition(w), D(w), S0(w), SetImmediate(w))
  {
    DecodeSet(w);
    hide Decode, Group, D, S0, SignExtend16If, SciImm16, SciSx;
  }

  /** The code compares the number of the register instead: in any one state it is right exactly if
      the number compares as the value does, or the result goes to r0. */
  lemma {:induction false} SetConditionRightAt(c: Core, bus: Bus, w: Word)
    requires IsSetCondImm(Group(w))
    ensures var cond, imm := SetCondition(w), SetImmediate(w);
            (Perform(c, bus, w) == DocumentedSet(c, bus, w))
            == (D(w) == 0 || Holds(cond, S0(w), imm) == Holds(cond, c.r[S0(w)], imm))
  {
    SetConditionPerformed(c, bus, w);
    hide Perform, Group, D, S0, Holds, SetImmediate, SetCondition, IsSetCondImm, FlushOnTransfer;
    var code := Bool(Holds(SetCondition(w), S0(w), SetImmediate(w)));
    var value := Bool(Holds(SetCondition(w), c.r[S0(w)], SetImmediate(w)));
    RegisterDiffers(c, D(w), code, value);
  }

  lemma {:induction false} SetConditionPerformed(c: Core, bus: Bus, w: Word)
    requires IsSetCondImm(Group(w))
    ensures var v := Bool(Holds(SetCondition(w), S0(w), SetImmediate(w)));
            Perform(c, bus, w) == Next(SetReg(SetReg(c, D(w), v), 0, 0), bus, D(w) == PC && FlushOnTransfer(c.cr0))
  {
    SetConditionDecoded(w);
    hide Decode, Group, D, S0, Holds, SetImmediate, SetCondition, IsSetCondImm, FlushOnTransfer;
  }

  /** It never looks at its source register: the value written is the same in every state. */
  lemma {:induction false} SetConditionIgnoresSource(c: Core, c': Core, bus: Bus, w: Word)
    requires IsSetCondImm(Group(w)) && D(w) != 0
    ensures Perform(c, bus, w).Next? && Perform(c', bus, w).Next?
    ensures Perform(c, bus, w).core.r[D(w)] == Perform(c', bus, w).core.r[D(w)]
              == Bool(Holds(SetCondition(w), S0(w), SetImmediate(w)))
  {
    hide Perform, Group, D, S0, Holds, SetImmediate, SetCondition, IsSetCondImm, FlushOnTransfer;
    SetConditionPerformed(c, bus, w);
    SetConditionPerformed(c', bus, w);
  }

  lemma {:induction false} RegisterDiffers(c: Core, d: Reg, v: Word, w: Word)
    ensures SetReg(SetReg(c, d, v), 0, 0) == SetReg(SetReg(c, d, w), 0, 0) <==> d == 0 || v == w
  {
    if d == 0 {
      assert c.r[0 := v][0 := 0] == c.r[0 := 0] == c.r[0 := w][0 := 0];
    } else {
      assert c.r[d := v][0 := 0][d] == v && c.r[d := w][0 := 0][d] == w;
    }
  }

  /** The comparison with the immediate does not depend on the value compared. */
  predicate Constant(cond: CondIndex, imm: Word) {
    ((cond == 2 || cond == 5) && imm == 0xffff_ffff) || ((cond == 3 || cond == 4) && imm == 0)
  }

  lemma {:induction false} ConstantComparison(cond: CondIndex, n: Word, imm: Word)
    ensures (forall x: Word :: Holds(cond, x, imm) == Holds(cond, n, imm)) <==> Constant(cond, imm)
  {
    var other: Word := if imm == 0 then 1 else 0;
    if !Constant(cond, imm) {
      assert Holds(cond, imm, imm) != Holds(cond, other, imm) || Holds(cond, imm, imm) != Holds(cond, 0xffff_ffff, imm);
    }
  }

  function CoreWith(s: Reg, x: Word): Core {
    Reset().(r := Reset().r[s := x])
  }

  /** It is right in every state exactly if the result goes to r0, the source is r0, or the
      comparison is constant. */
  lemma {:induction false} SetConditionRightIff(bus: Bus, w: Word)
    requires IsSetCondImm(Group(w))
    ensures (forall c: Core :: c.r[0] == 0 ==> Perform(c, bus, w) == DocumentedSet(c, bus, w))
              <==> (D(w) == 0 || S0(w) == 0 || Constant(SetCondition(w), SetImmediate(w)))
  {
    hide Perform, DocumentedSet, Group, D, S0, Holds, SetImmediate, SetCondition, IsSetCondImm, Constant, Reset;
    var cond, imm, n := SetCondition(w), SetImmediate(w), S0(w);
    ConstantComparison(cond, n, imm);
    if D(w) == 0 || n == 0 || Constant(cond, imm) {
      forall c: Core | c.r[0] == 0
        ensures Perform(c, bus, w) == DocumentedSet(c, bus, w)
      {
        SetConditionRightAt(c, bus, w);
      }
    } else {
      var x: Word :| Holds(cond, x, imm) != Holds(cond, n, imm);
      var c := CoreWith(n, x);
      ResetR0(n, x);
      SetConditionRightAt(c, bus, w);
      assert Perform(c, bus, w) != DocumentedSet(c, bus, w);
    }
  }

  lemma {:induction false} ResetR0(s: Reg, x: Word)
    requires s != 0
    ensures CoreWith(s, x).r[0] == 0 && CoreWith(s, x).r[s] == x
  {
  }

  /** seqi.u a0, at, 1 */
  const EXAMPLE: Word := 0x9882_0002

  lemma {:induction false} ExampleFields()
    ensures Group(EXAMPLE) == 19 && D(EXAMPLE) == 2 && S0(EXAMPLE) == 1
    ensures SciImm16(EXAMPLE) == 1 && !SciSx(EXAMPLE)
  {
  }

  lemma {:induction false} ResetRegisters()
    ensures forall i :: 0 <= i < 32 ==> Reset().r[i] == 0
  {
  }

  /** After reset the example puts 1 into a0, where at holds 0 and not 1: its number is 1. */
  lemma {:induction false} SetConditionWrong()
    ensures IsSetCondImm(Group(EXAMPLE)) && Reset().r[1] == 0
    ensures Perform(Reset(), [], EXAMPLE) != DocumentedSet(Reset(), [], EXAMPLE)
    ensures Perform(Reset(), [], EXAMPLE) == Next(SetReg(SetReg(Reset(), 2, 1), 0, 0), [], false)
  {
    ExampleFields();
    ResetRegisters();
    hide Perform, DocumentedSet, Group, D, S0, SciImm16, SciSx, FlushOnTransfer, Reset, EXAMPLE;
    SetConditionPerformed(Reset(), [], EXAMPLE);
    SetConditionRightAt(Reset(), [], EXAMPLE);
  }

  // ---- Transfers that do not flush, and a flush that does not transfer ----

  /** sysret does not flush, whatever the flag: the two instructions after it still run, the
      third is at xpc. */
  lemma {:induction false} SysretKeepsSlots(s: S.Seq)
    requires S.NextIs(s, IsSysret)
    ensures var pc := s.core.r[PC];
            var next := DelayedIsa.Step(S.ToArch(s));
            next.At? && next.s.pc == Plus(pc, 4) && next.s.npc == Plus(pc, 8)
            && next.s.core.r[PC] == s.core.xpc
  {
    S.ToArchFacts(s);
    hide InstrAt, Perform, Plus, IsSysret, SysReturn;
    var pc := s.core.r[PC];
    SystemCalls.SysretPerformed(SetPc(s.core, Plus(pc, 12)), s.bus, InstrAt(s.core, s.bus, pc).value);
  }

  lemma {:induction false} SysretDoesNotTransfer(c: Core, bus: Bus, w: Word)
    requires IsSysret(w)
    ensures !S.Transfers(c, bus, Decode(w))
  {
    hide Decode;
  }

  /** So at a sysret the machine follows the sequential instruction set exactly when xpc is
      where the slots end anyway. */
  lemma {:induction false} SysretIsSequentialIff(s: S.Seq)
    requires S.NextIs(s, IsSysret)
    ensures S.Step(s).At?
    ensures var same := DelayedIsa.Step(S.ToArch(s)) == DelayedIsa.At(S.ToArch(S.Step(s).s));
            same == (s.core.xpc == Plus(s.core.r[PC], 12))
  {
    S.ToArchFacts(s);
    hide InstrAt, Perform, Plus, IsSysret, SysReturn, S.Transfers, Decode;
    var pc := s.core.r[PC];
    var c := SetPc(s.core, Plus(pc, 12));
    SysretDoesNotTransfer(c, s.bus, InstrAt(s.core, s.bus, pc).value);
    SystemCalls.SysretPerformed(c, s.bus, InstrAt(s.core, s.bus, pc).value);
    PlusPlus(pc, 4, 4);
    PlusPlus(pc, 4, 8);
    var c1 := SetReg(SysReturn(c), 0, 0);
    assert c1.r[PC] == s.core.xpc;
    SetPcTwice(c1, Plus(pc, 4), Plus(pc, 12));
    SetPcTwice(c1, 0, 0);
    S.ToArchFacts(S.Step(s).s);
  }

  /** mtcr from r31 flushes although nothing transfers: the two prefetched instructions are lost
      and execution goes on at A + 12, if the flag is set after the move; else at A + 4. */
  lemma {:induction false} MoveFromPcSkipsTwo(s: S.Seq, w: Word)
    requires InstrAt(s.core, s.bus, s.core.r[PC]) == Some(w)
    requires Decode(w).CopExchange? && Decode(w).op == 0 && Decode(w).d == PC
    requires WriteCop(s.core, CopRegister(s.core.msel, Decode(w).copn, Decode(w).copr), Plus(s.core.r[PC], 12)).Some?
    ensures var pc, i := s.core.r[PC], Decode(w);
            var cr0 := WriteCop(s.core, CopRegister(s.core.msel, i.copn, i.copr), Plus(pc, 12)).value.cr0;
            var next := DelayedIsa.Step(S.ToArch(s));
            && next.At? && next.s.pc == Plus(pc, if FlushOnTransfer(cr0) then 12 else 4)
            && (FlushOnTransfer(s.core.cr0) ==> S.Step(s).At? && S.Step(s).s.core.r[PC] == next.s.pc)
  {
    hide InstrAt, Perform, Plus, FlushOnTransfer, Decode, CopRegister, SetEntryWord, S.Transfers;
    S.ToArchFacts(s);
    var c := SetPc(s.core, Plus(s.core.r[PC], 12));
    MovePerformed(c, s.bus, w);
    if FlushOnTransfer(s.core.cr0) {
      S.FlushIsTransfer(c, s.bus, w);
    }
    PlusPlus(s.core.r[PC], 4, 8);
  }

  lemma {:induction false} MovePerformed(c: Core, bus: Bus, w: Word)
    requires Decode(w).CopExchange? && Decode(w).op == 0 && Decode(w).d == PC
    requires WriteCop(c, CopRegister(c.msel, Decode(w).copn, Decode(w).copr), c.r[PC]).Some?
    ensures var c' := WriteCop(c, CopRegister(c.msel, Decode(w).copn, Decode(w).copr), c.r[PC]).value;
            Perform(c, bus, w) == Next(SetReg(c', 0, 0), bus, FlushOnTransfer(c'.cr0)) && c'.r == c.r
  {
    hide Decode, FlushOnTransfer, CopRegister, SetEntryWord;
  }
}
