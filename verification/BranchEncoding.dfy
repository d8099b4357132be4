/** Assembling an immediate branch: the displacement is split over the top bit of the word and
    the 16-bit field, and decoding puts it together again. */
module BranchEncoding {
  import opened Words
  import opened Alu
  import opened Core
  import opened Mmu
  import opened Instructions
  import opened Execute

  type Displacement = x: int | -0x1_0000 <= x < 0x1_0000

  function Bit1(b: bool): int { if b then 1 else 0 }

  /** The fields of an immediate branch put in their places. */
  function Encode(cond: CondIndex, d: Reg, s0: Reg, link: bool, disp: Displacement): Word {
    Bit1(disp < 0) * 0x8000_0000 + (cond + 1) * 0x1000_0000
    + d * 0x40_0000 + s0 * 0x2_0000 + disp % 0x1_0000 * 2 + Bit1(link)
  }

  lemma {:induction false} Fields(cond: CondIndex, d: Reg, s0: Reg, link: bool, disp: Displacement)
    ensures var w := Encode(cond, d, s0, link, disp);
            Group(w) == 16 * Bit1(disp < 0) + 2 * (cond + 1)
            && D(w) == d && S0(w) == s0 && BrnImm16(w) == disp % 0x1_0000 && BrnL(w) == link
  {
    var w := Encode(cond, d, s0, link, disp);
    var half := s0 * 0x1_0000 + disp % 0x1_0000;
    var low := d * 0x20 + s0;
    var g := 16 * Bit1(disp < 0) + 2 * (cond + 1);
    DivModUnique(w, 2, g * 0x400_0000 + d * 0x20_0000 + half, Bit1(link));
    DivModUnique(w / 2, 0x1_0000, g * 0x400 + low, disp % 0x1_0000);
    DivModUnique(w, 0x2_0000, g * 0x400 + low, disp % 0x1_0000 * 2 + Bit1(link));
    DivModUnique(w / 0x2_0000, 32, g * 0x20 + d, s0);
    DivModUnique(w, 0x40_0000, g * 0x20 + d, s0 * 0x2_0000 + disp % 0x1_0000 * 2 + Bit1(link));
    DivModUnique(w / 0x40_0000, 32, g, d);
    DivModUnique(w, 0x800_0000, g, d * 0x40_0000 + s0 * 0x2_0000 + disp % 0x1_0000 * 2 + Bit1(link));
  }

  lemma {:induction false} Displaced(disp: Displacement)
    ensures SignExtend17(disp % 0x1_0000 + Bit1(disp < 0) * 0x1_0000) == Wrap(disp)
  {
  }

  /** Decoding undoes the assembly, for every displacement of 17 bits. */
  lemma {:induction false} DecodeEncode(cond: CondIndex, d: Reg, s0: Reg, link: bool, disp: Displacement)
    ensures Decode(Encode(cond, d, s0, link, disp)) == BranchImm(cond, d, s0, link, Wrap(disp))
  {
    hide Encode, Group, D, S0, BrnImm16, BrnL, SignExtend17;
    var w := Encode(cond, d, s0, link, disp);
    Fields(cond, d, s0, link, disp);
    Displaced(disp);
    assert Group(w) / 16 == Bit1(disp < 0);
    assert Group(w) / 2 % 8 == cond + 1;
    assert IsBranchImm(Group(w));
  }

  /** A taken branch moves r31 by exactly the displacement modulo 2^32; one not taken leaves it. */
  lemma {:induction false} BranchMovesPc(c: Core, bus: Bus, cond: CondIndex, d: Reg, s0: Reg, link: bool,
                                         disp: Displacement)
    ensures var e := Perform(c, bus, Encode(cond, d, s0, link, disp));
            e.Next? && e.core.r[PC] == Plus(c.r[PC], if Holds(cond, c.r[d], c.r[s0]) then disp else 0)
            && (d != 0 && d != PC && d != LR ==> e.core.r[d] == c.r[d])
            && e.core.r[LR] == if link && Holds(cond, c.r[d], c.r[s0]) then c.r[PC] else c.r[LR]
  {
    hide Decode, Encode, Holds, FlushOnTransfer, Wrap;
    DecodeEncode(cond, d, s0, link, disp);
    WrappedMove(c.r[PC], disp);
  }

  lemma {:induction false} WrappedMove(a: Word, n: int)
    ensures Plus(a, Wrap(n)) == Plus(a, n) && Plus(a, 0) == a
  {
  }
}
