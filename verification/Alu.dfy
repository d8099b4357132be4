/** The ALU operation table, the condition table and the sign extensions, with the integer
    meaning of the shifts and rotations. */
module Alu {
  import opened Words

  datatype Option<+T> = None | Some(value: T)

  type AluOp = op: int | 0 <= op < 16

  function Asr(v: Word, s: nat): Word {
    if v >= 0x8000_0000 then Or32(Shr(v, s), BitNot(Shr(0xffff_ffff, s))) else Shr(v, s)
  }

  /** The shift by 32 - r is undefined in C++ when r is a multiple of 32. */
  function Rol(v: Word, r: nat): Word {
    Or32(Shl(v, r % 32), Shr(v, 32 - r % 32))
  }

  function Ror(v: Word, r: nat): Word {
    Or32(Shr(v, r % 32), Shl(v, 32 - r % 32))
  }

  function SignExtend8(v: Word): Word {
    var low := v % 0x100;
    if low >= 0x80 then 0xffff_ff00 + low else low
  }

  function SignExtend16(v: Word): Word {
    var low := v % 0x1_0000;
    if low >= 0x8000 then 0xffff_0000 + low else low
  }

  function SignExtend17(v: Word): Word {
    var low := v % 0x2_0000;
    if low >= 0x1_0000 then 0xfffe_0000 + low else low
  }

  function SignExtend16If(v: Word, cond: bool): Word {
    if cond then SignExtend16(v) else v
  }

  /** The new destination value; `None` where C++ leaves the result undefined. */
  function Operate(op: AluOp, d: Word, s0: Word, s1: Word): Option<Word> {
    match op
    case 0 => Some(Wrap(s0 + s1))
    case 1 => Some(Wrap(s0 - s1))
    case 2 => Some(Wrap(s0 * s1))
    case 3 => Some(Wrap(d + s0 * s1))
    case 4 => if s1 == 0 then None else Some(Quotient(s0, s1))
    case 5 => if s1 == 0 then None else Some(Remainder(s0, s1))
    case 6 => Some(And32(s0, s1))
    case 7 => Some(Or32(s0, s1))
    case 8 => Some(Xor32(s0, s1))
    case 9 => if s1 >= 32 then None else Some(Shl(s0, s1))
    case 10 => if s1 >= 32 then None else Some(Shr(s0, s1))
    case 11 => if s1 >= 32 then None else Some(Asr(s0, s1))
    case 12 => Some(SignExtend8(s0))
    case 13 => Some(SignExtend16(s0))
    case 14 => if s1 % 32 == 0 then None else Some(Rol(s0, s1))
    case 15 => if s1 % 32 == 0 then None else Some(Ror(s0, s1))
  }

  function Quotient(a: Word, b: Word): Word
    requires b > 0
  {
    QuotientBound(a, b);
    a / b
  }

  function Remainder(a: Word, b: Word): Word
    requires b > 0
  {
    a % b
  }

  lemma {:induction false} ProductGrows(q: int, b: int)
    requires b > 0 && q >= 0
    ensures q * b >= q
  {
  }

  lemma {:induction false} QuotientBound(a: nat, b: nat)
    requires b > 0
    ensures 0 <= a / b <= a
  {
    ProductGrows(a / b, b);
  }

  type CondIndex = c: int | 0 <= c < 6

  /** Entry c of the condition table; every comparison is unsigned. */
  predicate Holds(c: CondIndex, a: Word, b: Word) {
    match c
    case 0 => a == b
    case 1 => a != b
    case 2 => a > b
    case 3 => a >= b
    case 4 => a < b
    case 5 => a <= b
  }

  // ---- Integer meaning ----

  /** The two's complement value of a word. */
  function Signed(w: Word): int {
    if w >= 0x8000_0000 then w - 0x1_0000_0000 else w
  }

  /** Arithmetic right shift is floor division of the signed value. */
  lemma {:induction false} AsrIsFloorDivision(v: Word, s: nat)
    requires s < 32
    ensures Signed(Asr(v, s)) == Signed(v) / Pow2(s)
  {
    ShrIsDivision(v, s);
    if v >= 0x8000_0000 {
      NegativeAsr(v, s);
      WordSplit(s);
      FloorOfShifted(v, Pow2(s), Pow2(32 - s));
    }
  }

  lemma {:induction false} WordSplit(s: nat)
    requires s <= 32
    ensures Pow2(s) * Pow2(32 - s) == 0x1_0000_0000
  {
    Pow2Add(s, 32 - s);
    Pow2Values();
  }

  lemma {:induction false} FloorOfShifted(v: int, p: nat, q: nat)
    requires p > 0
    ensures (v - p * q) / p == v / p - q
  {
    var h, r := v / p, v % p;
    assert v - p * q == (h - q) * p + r;
    DivModUnique(v - p * q, p, h - q, r);
  }

  /** The ones shifted in above a negative value add to it. */
  lemma {:induction false} NegativeAsr(v: Word, s: nat)
    requires v >= 0x8000_0000 && s < 32
    ensures Asr(v, s) == Shr(v, s) + 0x1_0000_0000 - Pow2(32 - s) >= 0x8000_0000
  {
    hide Shr, BitOr, BitNot, Pow2;
    ShiftedRange(v, s);
    WordSplit(s);
    OnesAbove(s);
    var p, q := Pow2(s), Pow2(32 - s);
    OneLess(p, q);
    OrIsAddition(Shr(v, s), p - 1, 32 - s);
  }

  lemma {:induction false} OnesAbove(s: nat)
    requires s < 32
    ensures BitNot(Shr(0xffff_ffff, s)) == 0x1_0000_0000 - Pow2(32 - s)
  {
    hide Shr, Pow2;
    ShiftedOnes(s);
  }

  lemma {:induction false} OneLess(p: nat, q: nat)
    ensures (p - 1) * q == p * q - q
  {
  }

  lemma {:induction false} ShiftedOnes(s: nat)
    requires s < 32
    ensures Shr(0xffff_ffff, s) == Pow2(32 - s) - 1
  {
    Pow2Values();
    OnesShifted(32, s);
  }

  lemma {:induction false} ShiftedRange(v: Word, s: nat)
    requires v >= 0x8000_0000 && s < 32
    ensures Pow2(32 - s) <= 2 * Shr(v, s) < 2 * Pow2(32 - s) <= 0x2_0000_0000
  {
    Pow2Values();
    ShrTop(v, s, 32);
    TopStays(v, s, 31);
    WordSplit(s);
    ProductGrows(Pow2(32 - s), Pow2(s));
  }

  lemma {:induction false} OnesShifted(n: nat, s: nat)
    requires s <= n
    ensures Shr(Pow2(n) - 1, s) == Pow2(n - s) - 1
    decreases s
  {
    if s == 0 {
    } else {
      OnesShifted(n - 1, s - 1);
    }
  }

  lemma {:induction false} ShrTop(v: nat, s: nat, n: nat)
    requires v < Pow2(n) && s <= n
    ensures Shr(v, s) < Pow2(n - s)
    decreases s
  {
    if s == 0 {
    } else {
      ShrTop(v / 2, s - 1, n - 1);
    }
  }

  lemma {:induction false} TopStays(v: nat, s: nat, n: nat)
    requires v >= Pow2(n) && s <= n
    ensures Shr(v, s) >= Pow2(n - s)
    decreases s
  {
    if s == 0 {
    } else {
      TopStays(v / 2, s - 1, n - 1);
    }
  }

  /** Bit i of a rotation by r is bit i - r of the operand, counted modulo 32. */
  lemma {:induction false} BitOfRol(v: Word, r: nat, i: nat)
    requires r % 32 != 0 && i < 32
    ensures Bit(Rol(v, r), i) == Bit(v, Source(i, r))
  {
    hide Shl, Shr, BitOr, Bit;
    var s := r % 32;
    BitOfOr(Shl(v, s), Shr(v, 32 - s), i);
    BitOfShl(v, s, i);
    BitOfShr(v, 32 - s, i);
    if i >= s {
      NoHighBit(v, i + 32 - s);
    }
  }

  /** (i - r) modulo 32. */
  function Source(i: nat, r: nat): (j: nat)
    requires i < 32
    ensures j < 32
  {
    if i >= r % 32 then i - r % 32 else i + 32 - r % 32
  }

  lemma {:induction false} SourceIs(i: nat, r: nat)
    requires i < 32
    ensures Source(i, r) == (i - r) % 32
  {
    var j := Source(i, r);
    DivModUnique(i - r, 32, if i >= r % 32 then -(r / 32) else -(r / 32) - 1, j);
  }

  lemma {:induction false} SumModulo(a: nat, b: nat)
    ensures (a + b) % 32 == if a % 32 + b % 32 < 32 then a % 32 + b % 32 else a % 32 + b % 32 - 32
  {
    var q := a / 32 + b / 32;
    if a % 32 + b % 32 < 32 {
      DivModUnique(a + b, 32, q, a % 32 + b % 32);
    } else {
      DivModUnique(a + b, 32, q + 1, a % 32 + b % 32 - 32);
    }
  }

  lemma {:induction false} NoHighBit(v: Word, i: nat)
    requires i >= 32
    ensures !Bit(v, i)
  {
    Pow2Values();
    BitBeyond(v, 32, i);
  }

  lemma {:induction false} RorIsRol(v: Word, r: nat)
    requires r % 32 != 0
    ensures Ror(v, r) == Rol(v, 32 - r % 32)
  {
    hide Shl, Shr, BitOr;
    OrCommutes(Shr(v, r % 32), Shl(v, 32 - r % 32));
    assert (32 - r % 32) % 32 == 32 - r % 32;
  }

  lemma {:induction false} SameWord(a: Word, b: Word)
    requires forall i: nat :: i < 32 ==> Bit(a, i) == Bit(b, i)
    ensures a == b
  {
    Pow2Values();
    SameBits(a, b, 32);
  }

  lemma {:induction false} SourceTwice(i: nat, a: nat, b: nat)
    requires i < 32
    ensures Source(Source(i, b), a) == Source(i, a + b)
    ensures (a + b) % 32 == 0 ==> Source(i, a + b) == i
  {
    SumModulo(a, b);
    Shifted(i, a % 32, b % 32);
  }

  /** Going back by b and then by a, counted modulo 32, for rotations below 32. */
  lemma {:induction false} Shifted(i: nat, a: nat, b: nat)
    requires i < 32 && a < 32 && b < 32
    ensures var j := if i >= b then i - b else i + 32 - b;
            var sum := if a + b < 32 then a + b else a + b - 32;
            (if j >= a then j - a else j + 32 - a) == if i >= sum then i - sum else i + 32 - sum
  {
  }

  lemma {:induction false} RolCompose(v: Word, a: nat, b: nat)
    requires a % 32 != 0 && b % 32 != 0
    ensures Rol(Rol(v, a), b) == if (a + b) % 32 == 0 then v else Rol(v, a + b)
  {
    var w := if (a + b) % 32 == 0 then v else Rol(v, a + b);
    forall i: nat | i < 32
      ensures Bit(Rol(Rol(v, a), b), i) == Bit(w, i)
    {
      BitOfRol(Rol(v, a), b, i);
      BitOfRol(v, a, Source(i, b));
      SourceTwice(i, a, b);
      if (a + b) % 32 != 0 {
        BitOfRol(v, a + b, i);
      }
    }
    SameWord(Rol(Rol(v, a), b), w);
  }

  /** Rotations compose additively modulo 32, and rol and ror undo each other. */
  lemma {:induction false} RotationsCompose(v: Word, a: nat, b: nat)
    requires a % 32 != 0 && b % 32 != 0
    ensures Rol(Rol(v, a), b) == if (a + b) % 32 == 0 then v else Rol(v, a + b)
    ensures Ror(Ror(v, a), b) == if (a + b) % 32 == 0 then v else Ror(v, a + b)
    ensures Ror(Rol(v, a), a) == v && Rol(Ror(v, a), a) == v
  {
    RolCompose(v, a, b);
    RorCompose(v, a, b);
    RolThenRor(v, a);
  }

  lemma {:induction false} RolThenRor(v: Word, a: nat)
    requires a % 32 != 0
    ensures Ror(Rol(v, a), a) == v && Rol(Ror(v, a), a) == v
  {
    var a' := 32 - a % 32;
    assert a' % 32 != 0 && (a + a') % 32 == 0;
    RolCompose(v, a, a');
    RolCompose(v, a', a);
    RorIsRol(v, a);
    RorIsRol(Rol(v, a), a);
  }

  lemma {:induction false} RorCompose(v: Word, a: nat, b: nat)
    requires a % 32 != 0 && b % 32 != 0
    ensures Ror(Ror(v, a), b) == if (a + b) % 32 == 0 then v else Ror(v, a + b)
  {
    var u := Ror(Ror(v, a), b);
    RolThenRor(v, a);
    RolThenRor(Ror(v, a), b);
    RolCompose(u, b, a);
    if (a + b) % 32 != 0 {
      RolThenRor(u, b + a);
    }
  }

  // ---- The table as a whole ----

  function Result(op: AluOp, a: Word, b: Word): Word {
    match Operate(op, 0, a, b)
    case Some(v) => v
    case None => 0
  }

  /** add commutes and sub undoes it, from either side. */
  lemma {:induction false} SumsUndo(a: Word, b: Word)
    ensures Result(0, a, b) == Result(0, b, a) && Result(0, a, 0) == a
    ensures Result(1, Result(0, a, b), b) == a && Result(0, Result(1, a, b), b) == a
  {
    hide Wrap;
    var x: int, y: int := a, b;
    WrapSum(x + y, -y);
    WrapSum(x - y, y);
    WrapWord(a);
  }

  /** mul is repeated addition, and mla adds the product to the destination. */
  lemma {:induction false} ProductsAreSums(d: Word, a: Word, b: Word)
    ensures Result(2, 0, b) == 0 && Result(2, Result(0, a, 1), b) == Result(0, Result(2, a, b), b)
    ensures Operate(3, d, a, b) == Operate(0, 0, d, Result(2, a, b))
  {
    hide Wrap;
    WrapWord(0);
    WrapSum(d, a * b);
    ProductOfSuccessor(a, b);
  }

  lemma {:induction false} WrapSum(x: int, y: int)
    ensures Wrap(Wrap(x) + y) == Wrap(x + y) == Wrap(x + Wrap(y))
  {
    WrapLeft(x, y);
    WrapLeft(y, x);
  }

  lemma {:induction false} WrapLeft(x: int, y: int)
    ensures Wrap(Wrap(x) + y) == Wrap(x + y)
  {
    var m := 0x1_0000_0000;
    var low := (x + y) % m;
    DivModUnique(x % m + y, m, (x + y) / m - x / m, low);
  }

  lemma {:induction false} ProductOfSuccessor(a: Word, b: Word)
    ensures Wrap(Wrap(a + 1) * b) == Wrap(Wrap(a * b) + b)
  {
    WrapFactor(a + 1, b);
    assert (a + 1) * b == a * b + b;
    WrapSum(a * b, b);
  }

  /** div and mod are quotient and remainder, undefined exactly for a zero divisor. */
  lemma {:induction false} QuotientAndRemainder(a: Word, b: Word)
    ensures Operate(4, 0, a, b) == None <==> b == 0
    ensures Operate(5, 0, a, b) == None <==> b == 0
    ensures b > 0 ==> a == Result(4, a, b) * b + Result(5, a, b) && Result(5, a, b) < b
  {
    if b > 0 {
      assert a == a / b * b + a % b;
    }
  }

  /** and, or and xor, bit by bit. */
  lemma {:induction false} LogicByBits(a: Word, b: Word, i: nat)
    ensures Bit(Result(6, a, b), i) == (Bit(a, i) && Bit(b, i))
    ensures Bit(Result(7, a, b), i) == (Bit(a, i) || Bit(b, i))
    ensures Bit(Result(8, a, b), i) == (Bit(a, i) != Bit(b, i))
  {
    hide BitAnd, BitOr, BitXor, Bit;
    BitOfAnd(a, b, i);
    BitOfOr(a, b, i);
    BitOfXor(a, b, i);
  }

  /** lsl multiplies modulo 2^32, lsr divides, asr divides the signed value; all three are
      undefined exactly for shifts of 32 or more. */
  lemma {:induction false} ShiftsByIntegers(v: Word, s: Word)
    ensures forall op: AluOp :: 9 <= op <= 11 ==> (Operate(op, 0, v, s) == None <==> s >= 32)
    ensures s < 32 ==> Result(9, v, s) == Wrap(v * Pow2(s)) && Result(10, v, s) == v / Pow2(s)
    ensures s < 32 ==> Signed(Result(11, v, s)) == Signed(v) / Pow2(s)
  {
    hide Shl, Shr, Asr, Pow2;
    ShlIsMultiplication(v, s);
    ShrIsDivision(v, s);
    if s < 32 {
      AsrIsFloorDivision(v, s);
    }
  }

  /** The sign extensions give the signed value of the low byte, half word or 17 bits. */
  lemma {:induction false} ExtensionsAreSigned(v: Word)
    ensures -0x80 <= Signed(Result(12, v, 0)) < 0x80 && (Signed(Result(12, v, 0)) - v) % 0x100 == 0
    ensures -0x8000 <= Signed(Result(13, v, 0)) < 0x8000 && (Signed(Result(13, v, 0)) - v) % 0x1_0000 == 0
    ensures -0x1_0000 <= Signed(SignExtend17(v)) < 0x1_0000 && (Signed(SignExtend17(v)) - v) % 0x2_0000 == 0
  {
    hide SignExtend8, SignExtend16, SignExtend17, Signed;
    Extension8(v);
    Extension16(v);
    Extension17(v);
  }

  lemma {:induction false} Extension8(v: Word)
    ensures -0x80 <= Signed(SignExtend8(v)) < 0x80 && (Signed(SignExtend8(v)) - v) % 0x100 == 0
  {
    CongruentLow(v, 0x100);
  }

  lemma {:induction false} Extension16(v: Word)
    ensures -0x8000 <= Signed(SignExtend16(v)) < 0x8000 && (Signed(SignExtend16(v)) - v) % 0x1_0000 == 0
  {
    CongruentLow(v, 0x1_0000);
  }

  lemma {:induction false} Extension17(v: Word)
    ensures -0x1_0000 <= Signed(SignExtend17(v)) < 0x1_0000 && (Signed(SignExtend17(v)) - v) % 0x2_0000 == 0
  {
    CongruentLow(v, 0x2_0000);
  }

  lemma {:induction false} CongruentLow(v: nat, m: nat)
    requires m > 0
    ensures (v % m - v) % m == 0 && (v % m - m - v) % m == 0
  {
    var q := v / m;
    assert v == q * m + v % m;
    DivModUnique(v % m - v, m, -q, 0);
    DivModUnique(v % m - m - v, m, -q - 1, 0);
  }

  /** The rotations of the table, bit by bit: undefined exactly for multiples of 32. */
  lemma {:induction false} RotationsByBits(v: Word, s: Word, i: nat)
    requires i < 32
    ensures Operate(14, 0, v, s) == None <==> s % 32 == 0
    ensures Operate(15, 0, v, s) == None <==> s % 32 == 0
    ensures s % 32 != 0 ==> Bit(Result(14, v, s), i) == Bit(v, (i - s) % 32)
    ensures s % 32 != 0 ==> Bit(Result(15, v, s), i) == Bit(v, (i + s) % 32)
  {
    hide Rol, Ror, Bit;
    if s % 32 != 0 {
      BitOfRol(v, s, i);
      SourceIs(i, s);
      BitOfRor(v, s, i);
    }
  }

  lemma {:induction false} BitOfRor(v: Word, r: nat, i: nat)
    requires r % 32 != 0 && i < 32
    ensures Bit(Ror(v, r), i) == Bit(v, (i + r) % 32)
  {
    hide Rol, Ror, Bit;
    RorIsRol(v, r);
    BitOfRol(v, 32 - r % 32, i);
    SourceBack(i, r);
  }

  lemma {:induction false} SourceBack(i: nat, r: nat)
    requires i < 32 && r % 32 != 0
    ensures Source(i, 32 - r % 32) == (i + r) % 32
  {
    SumModulo(i, r);
    SmallModulo(i);
    SmallModulo(32 - r % 32);
  }

  lemma {:induction false} SmallModulo(i: nat)
    requires i < 32
    ensures i % 32 == i
  {
  }

  /** The sign extensions as the source writes them, with masks. */
  lemma {:induction false} ExtensionsAreMasks(v: Word)
    ensures SignExtend8(v) == MaskedExtension(v, 0xff, 0x80, 0xffff_ff00)
    ensures SignExtend16(v) == MaskedExtension(v, 0xffff, 0x8000, 0xffff_0000)
    ensures SignExtend17(v) == MaskedExtension(v, 0x1_ffff, 0x1_0000, 0xfffe_0000)
  {
    hide BitAnd, BitOr, Pow2;
    assert Pow2(7) == 0x80 && Pow2(8) == 0x100 && Pow2(15) == 0x8000 && Pow2(16) == 0x1_0000
           && Pow2(17) == 0x2_0000 && Pow2(32) == 0x1_0000_0000 by { ExtensionPowers(); }
    Extends(v, 7, 0xff_ffff);
    Extends(v, 15, 0xffff);
    Extends(v, 16, 0x7fff);
  }

  function MaskedExtension(v: Word, mask: Word, sign: Word, ones: Word): int {
    var low := BitAnd(v, mask);
    if BitAnd(low, sign) != 0 then BitOr(low, ones) else low
  }

  lemma {:induction false} ExtensionPowers()
    ensures Pow2(7) == 0x80 && Pow2(8) == 0x100 && Pow2(15) == 0x8000 && Pow2(16) == 0x1_0000
    ensures Pow2(17) == 0x2_0000 && Pow2(32) == 0x1_0000_0000
  {
    Pow2Values();
    assert Pow2(17) == 2 * Pow2(16) && Pow2(16) == 2 * Pow2(15) && Pow2(8) == 2 * Pow2(7);
  }

  lemma {:induction false} Extends(v: Word, k: nat, ones: nat)
    ensures var p := Pow2(k);
            var low := v % (2 * p);
            BitAnd(v, 2 * p - 1) == low
            && (BitAnd(low, p) != 0 <==> low >= p)
            && BitOr(low, ones * (2 * p)) == low + ones * (2 * p)
  {
    hide BitAnd, BitOr;
    var p := Pow2(k);
    assert Pow2(k + 1) == 2 * p;
    AndLowMask(v, k + 1);
    OneBitMask(v % (2 * p), k);
    TopBit(v % (2 * p), p);
    OrIsAddition(v % (2 * p), ones, k + 1);
  }

  lemma {:induction false} TopBit(x: nat, p: nat)
    requires x < 2 * p
    ensures x / p % 2 == 1 <==> x >= p
  {
    if x >= p {
      DivModUnique(x, p, 1, x - p);
    } else {
      DivModUnique(x, p, 0, x);
    }
  }

  /** The six conditions are the unsigned comparisons: three pairs of complements. */
  lemma {:induction false} ConditionsAreComparisons(a: Word, b: Word)
    ensures Holds(0, a, b) != Holds(1, a, b) && Holds(2, a, b) != Holds(5, a, b) && Holds(3, a, b) != Holds(4, a, b)
    ensures Holds(3, a, b) <==> Holds(2, a, b) || Holds(0, a, b)
    ensures Holds(0, a, b) <==> a == b
    ensures Holds(2, a, b) <==> a - b > 0
  {
  }
}
