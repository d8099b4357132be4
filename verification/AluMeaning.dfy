/** What the sixteen ALU operations compute, as relations between integers and between bits. The
    relations determine their result, and the operation table is exactly the function they define. */
module AluMeaning {
  import opened Words
  import opened Alu

  const M := 0x1_0000_0000

  /** The operand after which C++ defines the operation. */
  predicate Defined(op: AluOp, b: Word) {
    && (op == 4 || op == 5 ==> b != 0)
    && (op == 9 || op == 10 || op == 11 ==> b < 32)
    && (op == 14 || op == 15 ==> b % 32 != 0)
  }

  /** v is the result of operation op on the operands a and b, d being the old destination. */
  predicate Yields(op: AluOp, d: Word, a: Word, b: Word, v: Word) {
    match op
    case 0 => v == (a + b) % M
    case 1 => v == (a - b) % M
    case 2 => v == (a * b) % M
    case 3 => v == (d + a * b) % M
    case 4 => v * b <= a < v * b + b
    case 5 => v < b && (a - v) % (if b == 0 then 1 else b) == 0
    case 6 => forall i: nat :: i < 32 ==> Bit(v, i) == (Bit(a, i) && Bit(b, i))
    case 7 => forall i: nat :: i < 32 ==> Bit(v, i) == (Bit(a, i) || Bit(b, i))
    case 8 => forall i: nat :: i < 32 ==> Bit(v, i) == (Bit(a, i) != Bit(b, i))
    case 9 => v == (a * Pow2(b)) % M
    case 10 => v * Pow2(b) <= a < v * Pow2(b) + Pow2(b)
    case 11 => Signed(v) * Pow2(b) <= Signed(a) < Signed(v) * Pow2(b) + Pow2(b)
    case 12 => Extends(v, a, 0x80)
    case 13 => Extends(v, a, 0x8000)
    case 14 => forall i: nat :: i < 32 ==> Bit(v, i) == Bit(a, (i - b) % 32)
    case 15 => forall i: nat :: i < 32 ==> Bit(v, i) == Bit(a, (i + b) % 32)
  }

  /** The signed value of v is in the range of half on either side of 0 and has the low bits of a. */
  predicate Extends(v: Word, a: Word, half: int)
    requires half > 0
  {
    -half <= Signed(v) < half && (Signed(v) - a) % (2 * half) == 0
  }

  // ---- The table yields what it should ----

  lemma {:induction false} DividesDown(x: int, d: int, q: int)
    requires d > 0 && q == x / d
    ensures q * d <= x < q * d + d
  {
  }

  lemma {:induction false} RemainderDivides(a: nat, b: nat)
    requires b > 0
    ensures (a - a % b) % b == 0
  {
    DivModUnique(a - a % b, b, a / b, 0);
  }

  lemma {:induction false} TableSums(op: AluOp, d: Word, a: Word, b: Word)
    requires op < 4
    ensures Operate(op, d, a, b).Some? && Yields(op, d, a, b, Operate(op, d, a, b).value)
  {
  }

  lemma {:induction false} TableDivides(op: AluOp, d: Word, a: Word, b: Word)
    requires op == 4 || op == 5
    ensures Operate(op, d, a, b).Some? == (b != 0)
    ensures b != 0 ==> Yields(op, d, a, b, Operate(op, d, a, b).value)
  {
    if b != 0 {
      DividesDown(a, b, a / b);
      RemainderDivides(a, b);
    }
  }

  lemma {:induction false} TableLogic(op: AluOp, d: Word, a: Word, b: Word)
    requires 6 <= op <= 8
    ensures Operate(op, d, a, b).Some? && Yields(op, d, a, b, Operate(op, d, a, b).value)
  {
    hide BitAnd, BitOr, BitXor, Bit;
    forall i: nat
      ensures Bit(Result(6, a, b), i) == (Bit(a, i) && Bit(b, i))
      ensures Bit(Result(7, a, b), i) == (Bit(a, i) || Bit(b, i))
      ensures Bit(Result(8, a, b), i) == (Bit(a, i) != Bit(b, i))
    {
      LogicByBits(a, b, i);
    }
  }

  lemma {:induction false} TableShifts(op: AluOp, d: Word, a: Word, b: Word)
    requires 9 <= op <= 11
    ensures Operate(op, d, a, b).Some? == (b < 32)
    ensures b < 32 ==> Yields(op, d, a, b, Operate(op, d, a, b).value)
  {
    hide Shl, Shr, Asr, Pow2, Signed;
    ShiftsByIntegers(a, b);
    if b < 32 {
      DividesDown(a, Pow2(b), Result(10, a, b));
      DividesDown(Signed(a), Pow2(b), Signed(Result(11, a, b)));
    }
  }

  lemma {:induction false} TableExtends(op: AluOp, d: Word, a: Word, b: Word)
    requires op == 12 || op == 13
    ensures Operate(op, d, a, b).Some? && Yields(op, d, a, b, Operate(op, d, a, b).value)
  {
    hide SignExtend8, SignExtend16, Signed;
    ExtensionsAreSigned(a);
  }

  lemma {:induction false} TableRotates(op: AluOp, d: Word, a: Word, b: Word)
    requires op == 14 || op == 15
    ensures Operate(op, d, a, b).Some? == (b % 32 != 0)
    ensures b % 32 != 0 ==> Yields(op, d, a, b, Operate(op, d, a, b).value)
  {
    hide Rol, Ror, Bit;
    if b % 32 != 0 {
      var v := Operate(op, d, a, b).value;
      assert v == Result(op, a, b);
      forall i: nat | i < 32
        ensures Bit(v, i) == Bit(a, if op == 14 then (i - b) % 32 else (i + b) % 32)
      {
        RotationsByBits(a, b, i);
      }
    }
  }

  lemma {:induction false} TableYields(op: AluOp, d: Word, a: Word, b: Word)
    ensures Operate(op, d, a, b).Some? == Defined(op, b)
    ensures Defined(op, b) ==> Yields(op, d, a, b, Operate(op, d, a, b).value)
  {
    hide Operate, Yields;
    if op < 4 {
      TableSums(op, d, a, b);
    } else if op < 6 {
      TableDivides(op, d, a, b);
    } else if op < 9 {
      TableLogic(op, d, a, b);
    } else if op < 12 {
      TableShifts(op, d, a, b);
    } else if op < 14 {
      TableExtends(op, d, a, b);
    } else {
      TableRotates(op, d, a, b);
    }
  }

  // ---- The relations determine the result ----

  lemma {:induction false} SameQuotient(x: int, d: int, q: int, p: int)
    requires d > 0 && q * d <= x < q * d + d && p * d <= x < p * d + d
    ensures q == p
  {
    DivModUnique(x, d, q, x - q * d);
    DivModUnique(x, d, p, x - p * d);
  }

  lemma {:induction false} SameRemainder(a: int, b: int, v: int, u: int, low: int)
    requires b > 0 && low <= v < low + b && low <= u < low + b
    requires (a - v) % b == 0 && (a - u) % b == 0
    ensures v == u
  {
    var q, p := (a - v) / b, (a - u) / b;
    assert a - low == q * b + (v - low) && a - low == p * b + (u - low);
    DivModUnique(a - low, b, q, v - low);
    DivModUnique(a - low, b, p, u - low);
  }

  lemma {:induction false} SameExtension(v: Word, u: Word, a: Word, half: int)
    requires half > 0 && Extends(v, a, half) && Extends(u, a, half)
    ensures v == u
  {
    hide Signed;
    Opposite(Signed(v) - a, 2 * half);
    Opposite(Signed(u) - a, 2 * half);
    SameRemainder(a, 2 * half, Signed(v), Signed(u), -half);
    SignedInjective(v, u);
  }

  lemma {:induction false} Opposite(x: int, d: int)
    requires d > 0 && x % d == 0
    ensures -x % d == 0
  {
    DivModUnique(-x, d, -(x / d), 0);
  }

  lemma {:induction false} SignedInjective(v: Word, u: Word)
    requires Signed(v) == Signed(u)
    ensures v == u
  {
  }

  lemma {:induction false} SameWord(v: Word, u: Word)
    requires forall i: nat :: i < 32 ==> Bit(v, i) == Bit(u, i)
    ensures v == u
  {
    hide Bit;
    Pow2Values();
    SameBits(v, u, 32);
  }

  lemma {:induction false} YieldsOne(op: AluOp, d: Word, a: Word, b: Word, v: Word, u: Word)
    requires Defined(op, b) && Yields(op, d, a, b, v) && Yields(op, d, a, b, u)
    ensures v == u
  {
    hide Bit, Signed, Pow2, Extends;
    match op
    case 4 => SameQuotient(a, b, v, u);
    case 5 => SameRemainder(a, b, v, u, 0);
    case 10 => SameQuotient(a, Pow2(b), v, u);
    case 11 =>
      SameQuotient(Signed(a), Pow2(b), Signed(v), Signed(u));
      SignedInjective(v, u);
    case 12 => SameExtension(v, u, a, 0x80);
    case 13 => SameExtension(v, u, a, 0x8000);
    case _ =>
      if op >= 6 && op != 9 {
        SameWord(v, u);
      }
  }

  /** The table computes v exactly if the operation is defined and v is its result. */
  lemma {:induction false} OperateMeans(op: AluOp, d: Word, a: Word, b: Word, v: Word)
    ensures Operate(op, d, a, b) == Some(v) <==> Defined(op, b) && Yields(op, d, a, b, v)
  {
    hide Operate, Yields, Defined;
    TableYields(op, d, a, b);
    if Defined(op, b) && Yields(op, d, a, b, v) {
      YieldsOne(op, d, a, b, v, Operate(op, d, a, b).value);
    }
  }

  /** Only mla reads its destination. */
  lemma {:induction false} OnlyMlaReadsDestination(op: AluOp, a: Word, b: Word)
    ensures (forall d: Word, d': Word :: Operate(op, d, a, b) == Operate(op, d', a, b)) == (op != 3)
  {
    if op == 3 {
      AddsDestination(a, b);
      assert Operate(op, 0, a, b) != Operate(op, 1, a, b);
    }
  }

  lemma {:induction false} AddsDestination(a: Word, b: Word)
    ensures Operate(3, 0, a, b) != Operate(3, 1, a, b)
  {
  }
}
