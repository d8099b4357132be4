/** What every word does, group by group, in integers modulo 2^32, numbered fields and named parts
    of the state: a second reading of the instruction set that the executor is proved to follow. */
module InstructionMeaning {
  import opened Words
  import opened Alu
  import opened Core
  import opened Mmu
  import opened Instructions
  import opened Execute
  import opened AluMeaning
  import Privilege

  /** v goes to register d; r0 stays 0, and a write to r31 empties the pipeline if the flag is set. */
  function Leaves(c: Core, bus: Bus, d: Reg, v: Word): Effect {
    Next(c.(r := c.r[d := v][0 := 0]), bus, d == 31 && FlushOnTransfer(c.cr0))
  }

  /** Nothing happens but that r0 is 0. */
  function Skips(c: Core, bus: Bus): Effect {
    Next(c.(r := c.r[0 := 0]), bus, false)
  }

  /** An exception is raised; `RaiseIs` says what that changes. */
  function Excepts(c: Core, bus: Bus, cause: Word): Effect {
    var u := Raise(c, cause);
    Next(u.(r := u.r[0 := 0]), bus, FlushOnTransfer(c.cr0))
  }

  /** A 16-bit field as the integer it stands for. */
  function Immediate(field: Word, signed: bool): int {
    if signed && field >= 0x8000 then field - 0x1_0000 else field
  }

  lemma {:induction false} ImmediateIs(field: Word, signed: bool)
    requires field < 0x1_0000
    ensures SignExtend16If(field, signed) == Immediate(field, signed) % M
  {
  }

  lemma {:induction false} FieldSizes(w: Word)
    ensures AluImm16(w) < 0x1_0000 && LiImm16(w) < 0x1_0000 && SciImm16(w) < 0x1_0000
    ensures 0 <= LiShift(w) < 32 && 0 <= LslMode(w) < 8 && 0 <= LslOp(w) < 4 && 0 <= SysOp(w) < 8
    ensures 0 <= Group(w) < 32 && BrnImm16(w) < 0x1_0000 && 0 <= BrnC(w) < 2 && 0 <= LslImm10(w) < 0x400
    ensures 0 <= ScrOp(w) < 16 && 0 <= CpeOp(w) < 32
  {
  }

  /** The one-bit fields are the shifts and masks of the source. */
  lemma {:induction false} FlagFieldsAreMasks(w: Word)
    ensures AluI(w) == (BitAnd(Shr(w, 1), 1) == 1) && AluSx(w) == (BitAnd(w, 1) == 1)
    ensures BrnI(w) == (BitAnd(w, 1) == 1) && BrnL(w) == (BitAnd(w, 1) == 1)
    ensures LiSx(w) == (BitAnd(Shr(w, 5), 1) == 1) && SciSx(w) == (BitAnd(w, 1) == 1)
  {
    hide BitAnd, Shr, Pow2;
    MaskPowers();
    ShiftAndMask(w, 1, 1);
    ShiftAndMask(w, 5, 1);
    LowMask(w, 1);
  }

  // ---- ALU ----

  /** An ALU word leaves the result of its operation on two registers, or on its destination and the
      16-bit immediate, signed or not; it is undefined exactly where the operation is. */
  lemma {:induction false} AluWord(c: Core, bus: Bus, w: Word)
    requires Group(w) == 0
    ensures var a := c.r[if AluI(w) then D(w) else S0(w)];
            var b: Word := if AluI(w) then Immediate(AluImm16(w), AluSx(w)) % M else c.r[S1(w)];
            if !Defined(AluOpcode(w), b) then Perform(c, bus, w) == Undefined
            else exists v: Word :: Yields(AluOpcode(w), c.r[D(w)], a, b, v)
                                   && Perform(c, bus, w) == Leaves(c, bus, D(w), v)
  {
    DecodeAlu(w);
    FieldSizes(w);
    ImmediateIs(AluImm16(w), AluSx(w));
    hide Decode, Group, AluI, AluSx, AluImm16, AluOpcode, D, S0, S1, Operate, Yields, Defined, SignExtend16If,
         Immediate, FlushOnTransfer;
    var a := c.r[if AluI(w) then D(w) else S0(w)];
    var b: Word := if AluI(w) then Immediate(AluImm16(w), AluSx(w)) % M else c.r[S1(w)];
    TableYields(AluOpcode(w), c.r[D(w)], a, b);
    if Defined(AluOpcode(w), b) {
      var v := Operate(AluOpcode(w), c.r[D(w)], a, b).value;
      assert Perform(c, bus, w) == Leaves(c, bus, D(w), v);
    }
  }

  // ---- Load, store and lea ----

  /** The address of a load, store or lea, before it wraps: base and index register times the scale
      or shifted, or base and the 11-bit displacement. */
  function Displaced(c: Core, w: Word): int {
    var base, index := c.r[S0(w)], c.r[S1(w)];
    match LslMode(w)
    case 0 => base + index * S2(w)
    case 1 => base - index * S2(w)
    case 2 => base + index * Pow2(S2(w))
    case 3 => base - index * Pow2(S2(w))
    case 4 => base + LslImm10(w)
    case 5 => base - LslImm10(w)
    case 6 => base + (LslImm10(w) + 0x400)
    case _ => base - (LslImm10(w) + 0x400)
  }

  lemma {:induction false} WrapInside(base: int, x: int)
    ensures (base + x % M) % M == (base + x) % M && (base - x % M) % M == (base - x) % M
  {
    DivModUnique(base + x % M, M, (base + x) / M - x / M, (base + x) % M);
    DivModUnique(base - x % M, M, (base - x) / M + x / M, (base - x) % M);
  }

  lemma {:induction false} OffsetIs(base: Word, x: int)
    ensures Offset(base, false, x) == Offset(base, false, Wrap(x)) == (base + x) % M
    ensures Offset(base, true, x) == Offset(base, true, Wrap(x)) == (base - x) % M
  {
    WrapInside(base, x);
  }

  lemma {:induction false} AddressIs(c: Core, w: Word)
    ensures Address(c, S0(w), DecodeMode(w)) == Displaced(c, w) % M
  {
    FieldSizes(w);
    DisplacementIs(w);
    hide LslMode, S0, S1, S2, LslImm10, FixedDisp, Shl, Pow2, Offset, Wrap;
    var base, index := c.r[S0(w)], c.r[S1(w)];
    ShlIsMultiplication(index, S2(w));
    OffsetIs(base, index * S2(w));
    OffsetIs(base, index * Pow2(S2(w)));
    OffsetIs(base, FixedDisp(w));
  }

  lemma {:induction false} DisplacementIs(w: Word)
    ensures FixedDisp(w) == LslImm10(w) + if LslMode(w) in {2, 3, 6, 7} then 0x400 else 0
  {
  }

  /** What the four operations do at that address. */
  lemma {:induction false} AccessWord(c: Core, bus: Bus, w: Word)
    requires Group(w) == 16
    ensures var at := Displaced(c, w) % M;
            match LslOp(w)
            case 0 =>
              (var a := Read(c, bus, at, LslSize(w));
               var u := RaiseAll(c, a.causes);
               Perform(c, bus, w) ==
                 if a.value == None then Undefined
                 else Next(u.(r := u.r[D(w) := a.value.value][0 := 0]), bus,
                           (a.causes != [] || D(w) == 31) && FlushOnTransfer(c.cr0)))
            case 1 =>
              (var a := Write(c, bus, at, c.r[D(w)], LslSize(w));
               var u := RaiseAll(c, a.causes);
               Perform(c, bus, w) ==
                 if a.bus == None then Undefined
                 else Next(u.(r := u.r[0 := 0]), a.bus.value, a.causes != [] && FlushOnTransfer(c.cr0)))
            case 2 => Perform(c, bus, w) == Leaves(c, bus, D(w), at)
            case _ => Perform(c, bus, w) == Skips(c, bus)
  {
    DecodeAccess(w);
    AddressIs(c, w);
    hide Decode, Group, D, S0, LslOp, LslSize, DecodeMode, Address, Displaced, Read, Write, RaiseAll,
         FlushOnTransfer;
  }

  // ---- Coprocessor registers ----

  /** u replaces the state after mtcr from register d. */
  function Keeps(u: Core, bus: Bus, d: Reg): Effect {
    Next(u.(r := u.r[0 := 0]), bus, d == 31 && FlushOnTransfer(u.cr0))
  }

  lemma {:induction false} ExchangeWord(c: Core, bus: Bus, w: Word)
    requires Group(w) == 14
    ensures Perform(c, bus, w) ==
              match Exchange(c, bus, CpeOp(w), CpeCopn(w), D(w), CpeCopr(w))
              case Next(u, bus', flush) => Next(u.(r := u.r[0 := 0]), bus', flush)
              case other => other
  {
    DecodeExchange(w);
    hide Decode, Group, D, CpeOp, CpeCopn, CpeCopr, Exchange;
  }

  /** mfcr and mtcr by register number: cr0, xcause and xpc of coprocessor 0 and the control register
      of coprocessor 4, the ones a word can name outside the window. */
  lemma {:induction false} RegisterWord(c: Core, bus: Bus, w: Word)
    requires Group(w) == 14 && CpeOp(w) <= 1
    ensures CpeCopn(w) == 0 && CpeCopr(w) == 0 ==>
              Perform(c, bus, w) == if CpeOp(w) == 1 then Leaves(c, bus, D(w), c.cr0)
                                    else Keeps(c.(cr0 := c.r[D(w)]), bus, D(w))
    ensures CpeCopn(w) == 0 && CpeCopr(w) == 2 ==>
              Perform(c, bus, w) == if CpeOp(w) == 1 then Leaves(c, bus, D(w), c.xcause)
                                    else Keeps(c.(xcause := c.r[D(w)]), bus, D(w))
    ensures CpeCopn(w) == 0 && CpeCopr(w) == 4 ==>
              Perform(c, bus, w) == if CpeOp(w) == 1 then Leaves(c, bus, D(w), c.xpc)
                                    else Keeps(c.(xpc := c.r[D(w)]), bus, D(w))
    ensures CpeCopn(w) == 4 && CpeCopr(w) == 0 ==>
              Perform(c, bus, w) == if CpeOp(w) == 1 then Leaves(c, bus, D(w), c.ctrl)
                                    else Keeps(c.(ctrl := c.r[D(w)]), bus, D(w))
  {
    FieldSizes(w);
    ExchangeWord(c, bus, w);
    hide Perform, Group, D, CpeOp, CpeCopn, CpeCopr, FlushOnTransfer, Raise;
  }

  /** cr1, xhaddr and msel, which the executor would exchange if a word could name them. */
  lemma {:induction false} HiddenRegisters(c: Core, bus: Bus, d: Reg)
    ensures Exchange(c, bus, 1, 0, d, 1) == WriteBack(c, bus, d, c.cr1)
    ensures Exchange(c, bus, 1, 0, d, 3) == WriteBack(c, bus, d, c.xhaddr)
    ensures Exchange(c, bus, 1, 4, d, 1) == WriteBack(c, bus, d, c.msel)
    ensures var flush := d == 31 && FlushOnTransfer(c.cr0);
            && Exchange(c, bus, 0, 0, d, 1) == Next(c.(cr1 := c.r[d]), bus, flush)
            && Exchange(c, bus, 0, 0, d, 3) == Next(c.(xhaddr := c.r[d]), bus, flush)
            && Exchange(c, bus, 0, 4, d, 1) == Next(c.(msel := c.r[d]), bus, flush)
  {
    hide FlushOnTransfer, Raise;
  }

  lemma {:induction false} WindowIs(c: Core, m: nat, e: nat, f: nat)
    requires m < 4 && e < 32 && f < 4
    ensures var reg := CopRegister(c.msel, 4, 0x10 + 128 * m + 4 * e + f);
            reg.MapWord? && (reg.index < 512 <==> c.msel + m < 4)
            && reg.index / 4 == 32 * (c.msel + m) + e && reg.index % 4 == f
  {
    DivModUnique(128 * (c.msel + m) + 4 * e + f, 4, 32 * (c.msel + m) + e, f);
  }

  /** The window, word 0x10 + 128m + 4e + f, from the map selected by msel: a word of the program
      reaches the physical base (f = 0) and the size (f = 2) of entry e of map msel + m. */
  lemma {:induction false} WindowWord(c: Core, bus: Bus, w: Word, m: nat, e: nat, f: nat)
    requires Group(w) == 14 && CpeOp(w) <= 1 && CpeCopn(w) == 4 && m < 4 && e < 32 && (f == 0 || f == 2)
    requires CpeCopr(w) == 0x10 + 128 * m + 4 * e + f
    ensures c.msel + m >= 4 ==> Perform(c, bus, w) == Undefined
    ensures c.msel + m < 4 ==>
              var i := 32 * (c.msel + m) + e;
              var was := c.maps[i];
              var now := if f == 0 then was.(paddr := c.r[D(w)]) else was.(size := c.r[D(w)]);
              Perform(c, bus, w) == if CpeOp(w) == 1 then Leaves(c, bus, D(w), if f == 0 then was.paddr else was.size)
                                    else Keeps(c.(maps := c.maps[i := now]), bus, D(w))
  {
    FieldSizes(w);
    ExchangeWord(c, bus, w);
    WindowIs(c, m, e, f);
    hide Perform, Group, D, CpeOp, CpeCopn, CpeCopr, CopRegister, FlushOnTransfer, Trap;
  }

  /** No other number names a register: exception 0x400008. Operations above 1 lie outside the
      table of the source. */
  lemma {:induction false} NoRegisterWord(c: Core, bus: Bus, w: Word)
    requires Group(w) == 14
    ensures CpeOp(w) >= 2 ==> Perform(c, bus, w) == Undefined
    ensures var n, r := CpeCopn(w), CpeCopr(w);
            CpeOp(w) <= 1 && !(n == 0 && r <= 4) && !(n == 4 && (r <= 1 || 0x10 <= r < 0x210)) ==>
              Perform(c, bus, w) == Excepts(c, bus, 0x40_0008)
  {
    FieldSizes(w);
    ExchangeWord(c, bus, w);
    hide Perform, Group, D, CpeOp, CpeCopn, CpeCopr, FlushOnTransfer, Raise;
  }

  // ---- Immediates and conditions ----

  /** Condition k as the assembler numbers it; the comparisons are unsigned. */
  predicate Compares(k: int, a: int, b: int) {
    match k
    case 1 => a == b
    case 2 => a != b
    case 3 => a > b
    case 4 => a >= b
    case 5 => a < b
    case 6 => a <= b
    case _ => false
  }

  lemma {:induction false} ConditionIs(g: int, a: Word, b: Word)
    requires g in {2, 4, 6, 8, 10, 12, 18, 20, 22, 24, 26, 28, 19, 21, 23, 25, 27, 29}
    ensures 1 <= g / 2 % 8 <= 6 && IsBranchImm(g) == (g % 2 == 0) && IsSetCondImm(g) == (g % 2 == 1)
    ensures Holds(g / 2 % 8 - 1, a, b) == Compares(g % 16 / 2, a, b)
  {
    hide Holds, Compares;
    assert 1 <= g / 2 % 8 == g % 16 / 2 <= 6;
    EntryIs(g % 16 / 2, a, b);
  }

  lemma {:induction false} EntryIs(k: int, a: Word, b: Word)
    requires 1 <= k <= 6
    ensures Holds(k - 1, a, b) == Compares(k, a, b)
  {
  }

  /** li extends its 16 bits first and shifts then. */
  lemma {:induction false} LoadImmediateWord(c: Core, bus: Bus, w: Word)
    requires Group(w) == 17
    ensures Perform(c, bus, w) ==
              Leaves(c, bus, D(w), Immediate(LiImm16(w), LiSx(w)) * Pow2(LiShift(w)) % M)
  {
    DecodeSet(w);
    FieldSizes(w);
    ImmediateIs(LiImm16(w), LiSx(w));
    var x := Immediate(LiImm16(w), LiSx(w));
    hide Decode, Group, D, LiImm16, LiSx, LiShift, SignExtend16If, Immediate, FlushOnTransfer, Shl, Pow2;
    ShlIsMultiplication(x % M, LiShift(w));
    FactorWraps(x, Pow2(LiShift(w)));
  }

  lemma {:induction false} FactorWraps(x: int, p: nat)
    ensures x % M * p % M == x * p % M
  {
    var q := x / M;
    assert x * p == x % M * p + q * p * M;
    var y, low := x % M * p, x % M * p % M;
    DivModUnique(x * p, M, y / M + q * p, low);
  }

  /** Set-if-condition leaves 1 or 0: the immediate form compares the number of its register. */
  lemma {:induction false} SetWord(c: Core, bus: Bus, w: Word)
    requires Group(w) in {11, 19, 21, 23, 25, 27, 29}
    ensures Group(w) != 11 ==>
              var b := Immediate(SciImm16(w), SciSx(w)) % M;
              Perform(c, bus, w) == Leaves(c, bus, D(w), if Compares(Group(w) % 16 / 2, S0(w), b) then 1 else 0)
    ensures Group(w) == 11 ==>
              var holds := Compares(ScrOp(w), c.r[S0(w)], c.r[S1(w)]);
              Perform(c, bus, w) == if 1 <= ScrOp(w) <= 6 then Leaves(c, bus, D(w), if holds then 1 else 0)
                                    else Undefined
  {
    FieldSizes(w);
    ImmediateIs(SciImm16(w), SciSx(w));
    if Group(w) == 11 {
      DecodeSet(w);
      if 1 <= ScrOp(w) <= 6 {
        EntryIs(ScrOp(w), c.r[S0(w)], c.r[S1(w)]);
      }
      hide Compares, Holds, Decode, Group, D, S0, S1, ScrOp, SciImm16, SciSx, SignExtend16If, Immediate,
           FlushOnTransfer;
    } else {
      ConditionIs(Group(w), S0(w), SignExtend16If(SciImm16(w), SciSx(w)));
      DecodeSet(w);
      hide Compares, Holds, IsSetCondImm, Decode, Group, D, S0, S1, ScrOp, SciImm16, SciSx, SignExtend16If, Immediate,
           FlushOnTransfer;
    }
  }

  /** A taken branch leaves r31 plus its signed 17-bit displacement in r31, and the old r31 in r30 if
      it links. */
  lemma {:induction false} BranchWord(c: Core, bus: Bus, w: Word)
    requires Group(w) in {2, 4, 6, 8, 10, 12, 18, 20, 22, 24, 26, 28}
    ensures var disp := if Group(w) >= 16 then BrnImm16(w) - 0x1_0000 else BrnImm16(w);
            var linked := if BrnL(w) then c.r[30 := c.r[31]] else c.r;
            Perform(c, bus, w) ==
              if Compares(Group(w) % 16 / 2, c.r[D(w)], c.r[S0(w)])
              then Next(c.(r := linked[31 := (c.r[31] + disp) % M][0 := 0]), bus, FlushOnTransfer(c.cr0))
              else Skips(c, bus)
  {
    ConditionIs(Group(w), c.r[D(w)], c.r[S0(w)]);
    DecodeBranchImm(w);
    BranchDispIs(w);
    var disp := if Group(w) >= 16 then BrnImm16(w) - 0x1_0000 else BrnImm16(w);
    BranchIs(c, bus, Compares(Group(w) % 16 / 2, c.r[D(w)], c.r[S0(w)]), BrnL(w), disp);
    hide Decode, Group, D, S0, BrnL, BrnImm16, BranchDisp, FlushOnTransfer, Holds, Compares, IsBranchImm, DoBranch,
         Wrap;
  }

  lemma {:induction false} BranchIs(c: Core, bus: Bus, taken: bool, link: bool, disp: int)
    ensures var linked := if link then c.r[30 := c.r[31]] else c.r;
            DoBranch(c, bus, taken, link, Plus(c.r[31], disp % M)) ==
              if taken then Next(c.(r := linked[31 := (c.r[31] + disp) % M]), bus, FlushOnTransfer(c.cr0))
              else Next(c, bus, false)
  {
    WrapInside(c.r[31], disp);
    hide FlushOnTransfer;
  }

  lemma {:induction false} BranchDispIs(w: Word)
    ensures BranchDisp(w) == (if Group(w) >= 16 then BrnImm16(w) - 0x1_0000 else BrnImm16(w)) % M
  {
    FieldSizes(w);
    var top := Group(w) / 16;
    assert top == if Group(w) >= 16 then 1 else 0;
    Extended(BrnImm16(w), top);
    hide Group, BrnImm16, SignExtend17;
  }

  lemma {:induction false} Extended(imm: Word, top: nat)
    requires imm < 0x1_0000 && top < 2
    ensures SignExtend17(imm + top * 0x1_0000) == (if top == 1 then imm - 0x1_0000 else imm) % M
  {
    if top == 1 {
      DivModUnique(imm - 0x1_0000, M, -1, imm + 0xffff_0000);
    }
  }

  /** The register branch, whose condition field is one bit: undefined if it is clear, and else taken
      where the two registers are equal, to r31 plus the third register or to that register. */
  lemma {:induction false} BranchRegisterWord(c: Core, bus: Bus, w: Word)
    requires Group(w) == 13
    ensures var target := if BrnI(w) then (c.r[31] + c.r[S1(w)]) % M else c.r[S1(w)];
            Perform(c, bus, w) ==
              if BrnC(w) == 0 then Undefined
              else if c.r[D(w)] == c.r[S0(w)]
              then Next(c.(r := c.r[31 := target][0 := 0]), bus, FlushOnTransfer(c.cr0))
              else Skips(c, bus)
  {
    DecodeBranchReg(w);
    FieldSizes(w);
    hide Decode, Group, D, S0, S1, BrnI, BrnC, FlushOnTransfer;
  }

  // ---- System ----

  /** The immediate above the low byte of a cause; it shares bit 22 with the base 0x400000. */
  function CauseWith(imm: Word, low: Word): Word
    requires imm < 0x100_0000 && low < 4
  {
    256 * imm + low + if imm / 0x4000 % 2 == 1 then 0 else 0x40_0000
  }

  lemma {:induction false} CauseIs(imm: Word, low: Word)
    requires imm < 0x100_0000 && low < 4
    ensures Or32(0x40_0000 + low, Wrap(imm * 0x100)) == CauseWith(imm, low)
  {
    hide BitOr, BitAnd, Pow2;
    MaskPowers();
    var high, rest := imm / 0x8000, imm % 0x4000;
    var bit := imm / 0x4000 % 2;
    assert imm * 0x100 == imm * Pow2(8);
    OrIsAddition(low, 0x4000, 8);
    OrAssociates(low, 0x40_0000, imm * 0x100);
    OneBitMask(imm * 0x100, 22);
    assert imm * 0x100 / 0x40_0000 == imm / 0x4000 by { DivModTwice(imm * 0x100, 0x100, 0x4000); }
    OrCommutes(0x40_0000, imm * 0x100);
    OrIsAddition(low, imm + if bit == 1 then 0 else 0x4000, 8);
  }

  lemma {:induction false} OrAssociates(a: nat, b: nat, x: nat)
    ensures BitOr(BitOr(a, b), x) == BitOr(a, BitOr(b, x))
    decreases a + b + x
  {
    hide BitOr;
    if a == 0 || b == 0 || x == 0 {
      ZeroOperand(a);
      ZeroOperand(b);
      ZeroOperand(x);
      ZeroOperand(BitOr(a, b));
      ZeroOperand(BitOr(b, x));
    } else {
      OrAssociates(a / 2, b / 2, x / 2);
      OrHalves(a, b);
      OrHalves(b, x);
      Halves(BitOr(a, b), x);
      Halves(a, BitOr(b, x));
    }
  }

  lemma {:induction false} SystemIs(c: Core, bus: Bus, op: int, imm: Word)
    requires 0 <= op < 8 && imm < 0x100_0000
    ensures DoSystem(c, bus, op, imm) ==
              match op
              case 0 => Trap(c, bus, CauseWith(imm, 0))
              case 1 => Trap(c, bus, 0x40_0003)
              case 2 => Trap(c, bus, 0x40_0004)
              case 3 => Trap(c, bus, 0x40_0005)
              case 4 => Trap(c, bus, 0x40_0006)
              case 5 => if imm == 0xad_c0de then Halt(c.r[2]) else Trap(c, bus, CauseWith(imm, 1))
              case 6 => Trap(c, bus, CauseWith(imm, 2))
              case _ => Next(SysReturn(c), bus, false)
  {
    hide Trap, SysReturn, Or32, CauseWith, Wrap;
    if op == 0 {
      CauseIs(imm, 0);
      assert Or32(CAUSE_SYSCALL, Wrap(imm * 0x100)) == CauseWith(imm, 0);
    } else if op == 5 {
      CauseIs(imm, 1);
      assert Or32(CAUSE_DEBUG, Wrap(imm * 0x100)) == CauseWith(imm, 1);
    } else if op == 6 {
      CauseIs(imm, 2);
      assert Or32(CAUSE_SEXCEPT, Wrap(imm * 0x100)) == CauseWith(imm, 2);
    }
  }

  /** syscall, debug and excep raise their base with the immediate, tpl0 to tpl3 raise 0x400003 to
      0x400006, debug 0xadc0de exits with r2, and sysret returns; `SysReturnIs` says how. */
  lemma {:induction false} SystemWord(c: Core, bus: Bus, w: Word)
    requires Group(w) == 15
    ensures var imm := SysImm24(w);
            Perform(c, bus, w) ==
              match SysOp(w)
              case 0 => Excepts(c, bus, CauseWith(imm, 0))
              case 1 => Excepts(c, bus, 0x40_0003)
              case 2 => Excepts(c, bus, 0x40_0004)
              case 3 => Excepts(c, bus, 0x40_0005)
              case 4 => Excepts(c, bus, 0x40_0006)
              case 5 => if imm == 0xad_c0de then Halt(c.r[2]) else Excepts(c, bus, CauseWith(imm, 1))
              case 6 => Excepts(c, bus, CauseWith(imm, 2))
              case _ => var u := SysReturn(c); Next(u.(r := u.r[0 := 0]), bus, false)
  {
    DecodeSystem(w);
    FieldSizes(w);
    ImmBelow(w);
    hide Decode, Group, SysOp, SysImm24, DoSystem, CauseWith, FlushOnTransfer, Raise, SysReturn;
    SystemIs(c, bus, SysOp(w), SysImm24(w));
  }

  lemma {:induction false} ImmBelow(w: Word)
    ensures SysImm24(w) < 0x100_0000
  {
  }

  /** Coprocessor instructions do nothing, and the five free groups raise 0x400007. */
  lemma {:induction false} OtherWord(c: Core, bus: Bus, w: Word)
    ensures Group(w) in {30, 31} ==> Perform(c, bus, w) == Skips(c, bus)
    ensures Group(w) in {1, 3, 5, 7, 9} ==> Perform(c, bus, w) == Excepts(c, bus, 0x40_0007)
  {
    if Group(w) in {30, 31} {
      DecodeNothing(w);
    } else if Group(w) in {1, 3, 5, 7, 9} {
      DecodeIllegal(w);
    }
    hide Decode, Group, Raise, FlushOnTransfer;
  }

  // ---- Exceptions and sysret ----

  /** Bit 0 of the control word set or cleared. */
  function WithEnable(ctrl: Word, on: bool): Word {
    ctrl / 2 * 2 + if on then 1 else 0
  }

  /** An exception goes one level up, to 0 at least, saves r31 and jumps to the handler. Entering
      level 1 turns the MMU on if bit 12 of the control word is set, entering level 0 turns it off if
      bit 13 is, and a change of level changes the map if bit 14 is. */
  lemma {:induction false} RaiseIs(c: Core, cause: Word)
    ensures Raise(c, cause) ==
              c.(pl := if c.pl == 0 then 0 else c.pl - 1,
                 xcause := cause, xpc := c.r[31], r := c.r[31 := c.xhaddr],
                 ctrl := if c.pl == 2 && c.ctrl / 0x1000 % 2 == 1 then WithEnable(c.ctrl, true)
                         else if c.pl == 1 && c.ctrl / 0x2000 % 2 == 1 then WithEnable(c.ctrl, false)
                         else c.ctrl,
                 cmap := if c.pl >= 1 && c.ctrl / 0x4000 % 2 == 1 then c.pl - 1 else c.cmap)
  {
    Privilege.EnableBitAlone(c.ctrl);
    EnableIs(c.ctrl);
    hide SetEnable, ClearEnable, WithEnable;
  }

  lemma {:induction false} EnableIs(ctrl: Word)
    ensures SetEnable(ctrl) == WithEnable(ctrl, true) && ClearEnable(ctrl) == WithEnable(ctrl, false)
  {
  }

  /** sysret goes one level down, to 3 at most, and on at xpc. The MMU is turned on only on entering
      level 1, if bit 12 is set, and the map changes only with the level, if bit 14 is. */
  lemma {:induction false} SysReturnIs(c: Core)
    ensures SysReturn(c) ==
              c.(pl := if c.pl == 3 then 3 else c.pl + 1, r := c.r[31 := c.xpc],
                 ctrl := if c.pl == 0 && c.ctrl / 0x1000 % 2 == 1 then WithEnable(c.ctrl, true) else c.ctrl,
                 cmap := if c.pl <= 2 && c.ctrl / 0x4000 % 2 == 1 then c.pl + 1 else c.cmap)
  {
    Privilege.EnableBitAlone(c.ctrl);
    EnableIs(c.ctrl);
    hide SetEnable, ClearEnable, WithEnable;
  }
}
