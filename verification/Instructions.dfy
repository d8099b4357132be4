/** Instruction fields and the instruction each 32-bit word stands for. */
module Instructions {
  import opened Words
  import opened Alu

  type Reg = r: int | 0 <= r < 32

  // ---- Fields (the executor and the disassembler share these shifts and masks) ----

  function Group(w: Word): int { w / 0x800_0000 % 32 }
  function D(w: Word): Reg { w / 0x40_0000 % 32 }
  function S0(w: Word): Reg { w / 0x2_0000 % 32 }
  function S1(w: Word): Reg { w / 0x1000 % 32 }
  function S2(w: Word): Reg { w / 0x80 % 32 }
  function AluOpcode(w: Word): AluOp { w / 4 % 16 }
  predicate AluI(w: Word) { w / 2 % 2 == 1 }
  predicate AluSx(w: Word) { w % 2 == 1 }
  function AluImm16(w: Word): Word { w / 0x40 % 0x1_0000 }
  function BrnC(w: Word): int { w / 2 % 2 }
  predicate BrnI(w: Word) { w % 2 == 1 }
  function BrnImm16(w: Word): Word { w / 2 % 0x1_0000 }
  predicate BrnL(w: Word) { w % 2 == 1 }
  function CpeCopr(w: Word): nat { w / 0x1000 % 0x400 }
  function CpeCopn(w: Word): nat { w / 0x100 % 32 }
  function CpeOp(w: Word): int { w % 32 }
  function SysImm24(w: Word): Word { w % 0x100_0000 }
  function SysOp(w: Word): int { w / 0x100_0000 % 8 }
  function LslImm10(w: Word): int { w / 0x80 % 0x400 }
  function LslSize(w: Word): Size { w / 0x20 % 4 }
  function LslOp(w: Word): int { w / 8 % 4 }
  function LslMode(w: Word): int { w % 8 }
  function LiImm16(w: Word): Word { w / 0x40 % 0x1_0000 }
  predicate LiSx(w: Word) { w / 0x20 % 2 == 1 }
  function LiShift(w: Word): int { w % 32 }
  function SciImm16(w: Word): Word { w / 2 % 0x1_0000 }
  predicate SciSx(w: Word) { w % 2 == 1 }
  function ScrOp(w: Word): int { w / 4 % 16 }

  /** The 17-bit branch displacement: the top bit of the word above the 16-bit field. */
  function BranchDisp(w: Word): Word {
    SignExtend17(BrnImm16(w) + Group(w) / 16 * 0x1_0000)
  }

  /** The 11-bit load/store displacement: bit 1 of the mode above the 10-bit field. */
  function FixedDisp(w: Word): Word {
    LslImm10(w) + LslMode(w) / 2 % 2 * 0x400
  }

  function LiValue(w: Word): Word {
    Shl(SignExtend16If(LiImm16(w), LiSx(w)), LiShift(w))
  }

  // ---- Instructions ----

  datatype Mode =
    | Scaled(sub: bool, s1: Reg, s2: Reg)
    | Shifted(sub: bool, s1: Reg, s2: Reg)
    | Fixed(sub: bool, disp: Word)

  datatype Instr =
    | AluReg(alu: AluOp, d: Reg, s0: Reg, s1: Reg)
    | AluImm(alu: AluOp, d: Reg, imm: Word)
    | BranchImm(cond: CondIndex, d: Reg, s0: Reg, link: bool, disp: Word)
    | BranchReg(entry: int, d: Reg, s0: Reg, s1: Reg, relative: bool)
    | CopExchange(op: int, copn: int, d: Reg, copr: int)
    | CopInstr
    | System(op: int, imm: Word)
    | LoadStore(op: int, size: Size, d: Reg, s0: Reg, mode: Mode)
    | LoadImm(d: Reg, value: Word)
    | SetCondImm(cond: CondIndex, d: Reg, s0: Reg, imm: Word)
    | SetCondReg(entry: int, d: Reg, s0: Reg, s1: Reg)
    | Illegal

  predicate IsBranchImm(g: int) {
    g % 2 == 0 && 1 <= g / 2 % 8 <= 6 && 0 <= g < 32
  }

  predicate IsSetCondImm(g: int) {
    g % 2 == 1 && 1 <= g / 2 % 8 <= 6 && 16 <= g < 32
  }

  function DecodeMode(w: Word): Mode {
    match LslMode(w)
    case 0 => Scaled(false, S1(w), S2(w))
    case 1 => Scaled(true, S1(w), S2(w))
    case 2 => Shifted(false, S1(w), S2(w))
    case 3 => Shifted(true, S1(w), S2(w))
    case 4 => Fixed(false, FixedDisp(w))
    case 6 => Fixed(false, FixedDisp(w))
    case _ => Fixed(true, FixedDisp(w))
  }

  function Decode(w: Word): Instr {
    var g := Group(w);
    if g == 0 then
      if AluI(w) then AluImm(AluOpcode(w), D(w), SignExtend16If(AluImm16(w), AluSx(w)))
      else AluReg(AluOpcode(w), D(w), S0(w), S1(w))
    else if IsBranchImm(g) then BranchImm(g / 2 % 8 - 1, D(w), S0(w), BrnL(w), BranchDisp(w))
    else if g == 13 then BranchReg(BrnC(w) - 1, D(w), S0(w), S1(w), BrnI(w))
    else if g == 14 then CopExchange(CpeOp(w), CpeCopn(w), D(w), CpeCopr(w))
    else if g == 30 || g == 31 then CopInstr
    else if g == 15 then System(SysOp(w), SysImm24(w))
    else if g == 16 then LoadStore(LslOp(w), LslSize(w), D(w), S0(w), DecodeMode(w))
    else if g == 17 then LoadImm(D(w), LiValue(w))
    else if IsSetCondImm(g) then
      SetCondImm(g / 2 % 8 - 1, D(w), S0(w), SignExtend16If(SciImm16(w), SciSx(w)))
    else if g == 11 then SetCondReg(ScrOp(w) - 1, D(w), S0(w), S1(w))
    else Illegal
  }

  // ---- One group at a time ----

  lemma {:induction false} DecodeAlu(w: Word)
    requires Group(w) == 0
    ensures Decode(w) == if AluI(w) then AluImm(AluOpcode(w), D(w), SignExtend16If(AluImm16(w), AluSx(w)))
                         else AluReg(AluOpcode(w), D(w), S0(w), S1(w))
  {
    hide D, S0, S1, S2, AluOpcode, AluI, AluSx, AluImm16, BrnC, BrnI, BrnL, BrnImm16, CpeCopr, CpeCopn, CpeOp,
         SysImm24, SysOp, LslSize, LslOp, LslMode, LiValue, SciImm16, SciSx, ScrOp, BranchDisp, FixedDisp,
         DecodeMode, SignExtend16If, Group;
  }

  lemma {:induction false} DecodeBranchImm(w: Word)
    requires IsBranchImm(Group(w))
    ensures Decode(w) == BranchImm(Group(w) / 2 % 8 - 1, D(w), S0(w), BrnL(w), BranchDisp(w))
  {
    hide D, S0, S1, S2, AluOpcode, AluI, AluSx, AluImm16, BrnC, BrnI, BrnL, BrnImm16, CpeCopr, CpeCopn, CpeOp,
         SysImm24, SysOp, LslSize, LslOp, LslMode, LiValue, SciImm16, SciSx, ScrOp, BranchDisp, FixedDisp,
         DecodeMode, SignExtend16If, Group;
  }

  lemma {:induction false} DecodeBranchReg(w: Word)
    requires Group(w) == 13
    ensures Decode(w) == BranchReg(BrnC(w) - 1, D(w), S0(w), S1(w), BrnI(w))
  {
    hide D, S0, S1, S2, AluOpcode, AluI, AluSx, AluImm16, BrnC, BrnI, BrnL, BrnImm16, CpeCopr, CpeCopn, CpeOp,
         SysImm24, SysOp, LslSize, LslOp, LslMode, LiValue, SciImm16, SciSx, ScrOp, BranchDisp, FixedDisp,
         DecodeMode, SignExtend16If, Group;
  }

  lemma {:induction false} DecodeExchange(w: Word)
    requires Group(w) == 14
    ensures Decode(w) == CopExchange(CpeOp(w), CpeCopn(w), D(w), CpeCopr(w))
  {
    hide D, S0, S1, S2, AluOpcode, AluI, AluSx, AluImm16, BrnC, BrnI, BrnL, BrnImm16, CpeCopr, CpeCopn, CpeOp,
         SysImm24, SysOp, LslSize, LslOp, LslMode, LiValue, SciImm16, SciSx, ScrOp, BranchDisp, FixedDisp,
         DecodeMode, SignExtend16If, Group;
  }

  lemma {:induction false} DecodeNothing(w: Word)
    requires Group(w) == 30 || Group(w) == 31
    ensures Decode(w) == CopInstr
  {
    hide D, S0, S1, S2, AluOpcode, AluI, AluSx, AluImm16, BrnC, BrnI, BrnL, BrnImm16, CpeCopr, CpeCopn, CpeOp,
         SysImm24, SysOp, LslSize, LslOp, LslMode, LiValue, SciImm16, SciSx, ScrOp, BranchDisp, FixedDisp,
         DecodeMode, SignExtend16If, Group;
  }

  lemma {:induction false} DecodeSystem(w: Word)
    requires Group(w) == 15
    ensures Decode(w) == System(SysOp(w), SysImm24(w))
  {
    hide D, S0, S1, S2, AluOpcode, AluI, AluSx, AluImm16, BrnC, BrnI, BrnL, BrnImm16, CpeCopr, CpeCopn, CpeOp,
         SysImm24, SysOp, LslSize, LslOp, LslMode, LiValue, SciImm16, SciSx, ScrOp, BranchDisp, FixedDisp,
         DecodeMode, SignExtend16If, Group;
  }

  lemma {:induction false} DecodeAccess(w: Word)
    requires Group(w) == 16
    ensures Decode(w) == LoadStore(LslOp(w), LslSize(w), D(w), S0(w), DecodeMode(w))
  {
    hide D, S0, S1, S2, AluOpcode, AluI, AluSx, AluImm16, BrnC, BrnI, BrnL, BrnImm16, CpeCopr, CpeCopn, CpeOp,
         SysImm24, SysOp, LslSize, LslOp, LslMode, LiValue, SciImm16, SciSx, ScrOp, BranchDisp, FixedDisp,
         DecodeMode, SignExtend16If, Group;
  }

  lemma {:induction false} DecodeSet(w: Word)
    requires Group(w) == 17 || IsSetCondImm(Group(w)) || Group(w) == 11
    ensures Decode(w) ==
              if Group(w) == 17 then LoadImm(D(w), LiValue(w))
              else if Group(w) == 11 then SetCondReg(ScrOp(w) - 1, D(w), S0(w), S1(w))
              else SetCondImm(Group(w) / 2 % 8 - 1, D(w), S0(w), SignExtend16If(SciImm16(w), SciSx(w)))
  {
    hide D, S0, S1, S2, AluOpcode, AluI, AluSx, AluImm16, BrnC, BrnI, BrnL, BrnImm16, CpeCopr, CpeCopn, CpeOp,
         SysImm24, SysOp, LslSize, LslOp, LslMode, LiValue, SciImm16, SciSx, ScrOp, BranchDisp, FixedDisp,
         DecodeMode, SignExtend16If, Group;
  }

  lemma {:induction false} DecodeIllegal(w: Word)
    requires var g := Group(w);
             g !in {0, 11, 13, 14, 15, 16, 17, 30, 31} && !IsBranchImm(g) && !IsSetCondImm(g)
    ensures Decode(w) == Illegal
  {
    hide D, S0, S1, S2, AluOpcode, AluI, AluSx, AluImm16, BrnC, BrnI, BrnL, BrnImm16, CpeCopr, CpeCopn, CpeOp,
         SysImm24, SysOp, LslSize, LslOp, LslMode, LiValue, SciImm16, SciSx, ScrOp, BranchDisp, FixedDisp,
         DecodeMode, SignExtend16If, Group;
  }

  predicate IsSyscall(w: Word) {
    Decode(w).System? && Decode(w).op == 0
  }

  predicate IsSysret(w: Word) {
    Decode(w).System? && Decode(w).op == 7
  }

  // ---- The fields are the shifts and masks of the source ----

  lemma {:induction false} ShiftAndMask(w: Word, shift: nat, width: nat)
    ensures BitAnd(Shr(w, shift), Pow2(width) - 1) == w / Pow2(shift) % Pow2(width)
  {
    hide BitAnd, Shr;
    ShrIsDivision(w, shift);
    AndLowMask(Shr(w, shift), width);
  }

  lemma {:induction false} RegisterFieldsAreMasks(w: Word)
    ensures Group(w) == BitAnd(Shr(w, 27), 0x1f) && D(w) == BitAnd(Shr(w, 22), 0x1f)
    ensures S0(w) == BitAnd(Shr(w, 17), 0x1f) && S1(w) == BitAnd(Shr(w, 12), 0x1f) && S2(w) == BitAnd(Shr(w, 7), 0x1f)
  {
    hide BitAnd, Shr, Pow2;
    MaskPowers();
    ShiftAndMask(w, 27, 5);
    ShiftAndMask(w, 22, 5);
    ShiftAndMask(w, 17, 5);
    ShiftAndMask(w, 12, 5);
    ShiftAndMask(w, 7, 5);
  }

  lemma {:induction false} OperandFieldsAreMasks(w: Word)
    ensures AluOpcode(w) == BitAnd(Shr(w, 2), 0xf) && ScrOp(w) == BitAnd(Shr(w, 2), 0xf)
    ensures AluImm16(w) == BitAnd(Shr(w, 6), 0xffff) && LiImm16(w) == BitAnd(Shr(w, 6), 0xffff)
    ensures BrnImm16(w) == BitAnd(Shr(w, 1), 0xffff) && SciImm16(w) == BitAnd(Shr(w, 1), 0xffff)
    ensures LslImm10(w) == BitAnd(Shr(w, 7), 0x3ff) && LslSize(w) == BitAnd(Shr(w, 5), 3)
    ensures LslOp(w) == BitAnd(Shr(w, 3), 3) && BrnC(w) == BitAnd(Shr(w, 1), 1)
  {
    hide BitAnd, Shr, Pow2;
    MaskPowers();
    ShiftAndMask(w, 2, 4);
    ShiftAndMask(w, 6, 16);
    ShiftAndMask(w, 1, 16);
    ShiftAndMask(w, 7, 10);
    ShiftAndMask(w, 5, 2);
    ShiftAndMask(w, 3, 2);
    ShiftAndMask(w, 1, 1);
  }

  lemma {:induction false} SystemFieldsAreMasks(w: Word)
    ensures CpeCopr(w) == BitAnd(Shr(w, 12), 0x3ff) && CpeCopn(w) == BitAnd(Shr(w, 8), 0x1f)
    ensures SysOp(w) == BitAnd(Shr(w, 24), 7) && SysImm24(w) == BitAnd(w, 0xff_ffff)
    ensures CpeOp(w) == BitAnd(w, 0x1f) && LiShift(w) == BitAnd(w, 0x1f) && LslMode(w) == BitAnd(w, 7)
  {
    hide BitAnd, Shr, Pow2, Low;
    MaskPowers();
    ShiftAndMask(w, 12, 10);
    ShiftAndMask(w, 8, 5);
    ShiftAndMask(w, 24, 3);
    LowMask(w, 24);
    LowMask(w, 5);
    LowMask(w, 3);
  }

  /** The two displacements, as the source puts them together from their parts. */
  lemma {:induction false} DisplacementsAreMasks(w: Word)
    ensures BranchDisp(w) == SignExtend17(Or32(BrnImm16(w), Shl(BitAnd(Group(w), 0x10), 12)))
    ensures FixedDisp(w) == BitOr(LslImm10(w), Shl(BitAnd(LslMode(w), 2), 9))
  {
    hide BitAnd, BitOr, Shl, SignExtend17, Group, BrnImm16, LslMode, LslImm10;
    FieldRanges(w);
    SignAbove(BrnImm16(w), Group(w));
    ModeAbove(LslImm10(w), LslMode(w));
  }

  lemma {:induction false} FieldRanges(w: Word)
    ensures 0 <= Group(w) < 32 && 0 <= LslMode(w) < 8 && 0 <= LslImm10(w) < 0x400 && BrnImm16(w) < 0x1_0000
  {
  }

  lemma {:induction false} SignAbove(imm: Word, g: nat)
    requires imm < 0x1_0000 && g < 32
    ensures Or32(imm, Shl(BitAnd(g, 0x10), 12)) == imm + g / 16 * 0x1_0000
  {
    hide BitAnd, BitOr, Shl, Pow2;
    MaskPowers();
    OneBitMask(g, 4);
    ShlIsMultiplication(BitAnd(g, 0x10), 12);
    OrIsAddition(imm, g / 16, 16);
  }

  lemma {:induction false} ModeAbove(imm: nat, mode: nat)
    requires imm < 0x400 && mode < 8
    ensures BitOr(imm, Shl(BitAnd(mode, 2), 9)) == imm + mode / 2 % 2 * 0x400
  {
    hide BitAnd, BitOr, Shl, Pow2;
    MaskPowers();
    assert Pow2(9) == 512 by { NinthPower(); }
    OneBitMask(mode, 1);
    ShlIsMultiplication(BitAnd(mode, 2), 9);
    OrIsAddition(imm, mode / 2 % 2, 10);
  }

  lemma {:induction false} NinthPower()
    ensures Pow2(9) == 512
  {
  }

  lemma {:induction false} LowMask(w: Word, width: nat)
    ensures BitAnd(w, Pow2(width) - 1) == w % Pow2(width)
  {
    AndLowMask(w, width);
  }

  lemma {:induction false} MaskPowers()
    ensures Pow2(1) == 2 && Pow2(2) == 4 && Pow2(3) == 8 && Pow2(4) == 16 && Pow2(5) == 32 && Pow2(6) == 64
    ensures Pow2(7) == 128 && Pow2(8) == 256 && Pow2(10) == 1024 && Pow2(12) == 0x1000 && Pow2(16) == 0x1_0000
    ensures Pow2(17) == 0x2_0000 && Pow2(22) == 0x40_0000 && Pow2(24) == 0x100_0000 && Pow2(27) == 0x800_0000
  {
    Pow2Values();
    assert Pow2(10) == 4 * Pow2(8) && Pow2(17) == 2 * Pow2(16) && Pow2(27) == 8 * Pow2(24);
    assert Pow2(22) == 64 * Pow2(16);
  }
}
