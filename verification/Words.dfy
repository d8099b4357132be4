/** 32-bit machine words as integers, and the bit operations the emulator uses on them.
    `BitAnd`, `BitOr` and `BitXor` work bit by bit; the lemmas below turn the masks that
    occur in the source into divisions and remainders by powers of two. */
module Words {

  type Word = w: int | 0 <= w < 0x1_0000_0000
  type Byte = b: int | 0 <= b < 256

  /** Access sizes: byte, short, long, and instruction fetch. */
  type Size = s: int | 0 <= s <= 3

  /** The value a `uint32_t` keeps of an exact result. */
  function Wrap(x: int): Word {
    x % 0x1_0000_0000
  }

  function Plus(a: Word, n: int): Word {
    Wrap(a + n)
  }

  function Times(a: Word, n: int): Word {
    Wrap(a * n)
  }

  function Pow2(n: nat): (p: nat)
    ensures p >= 1
  {
    if n == 0 then 1 else 2 * Pow2(n - 1)
  }

  function BitAnd(a: nat, b: nat): (r: nat)
    ensures r <= a && r <= b
    decreases a
  {
    if a == 0 || b == 0 then 0
    else 2 * BitAnd(a / 2, b / 2) + (if a % 2 == 1 && b % 2 == 1 then 1 else 0)
  }

  function BitOr(a: nat, b: nat): (r: nat)
    ensures r >= a && r >= b && r <= a + b
    decreases a
  {
    if a == 0 then b
    else if b == 0 then a
    else 2 * BitOr(a / 2, b / 2) + (if a % 2 == 1 || b % 2 == 1 then 1 else 0)
  }

  function BitXor(a: nat, b: nat): (r: nat)
    ensures r <= a + b
    decreases a
  {
    if a == 0 then b
    else if b == 0 then a
    else 2 * BitXor(a / 2, b / 2) + (if a % 2 != b % 2 then 1 else 0)
  }

  function Shl(v: Word, s: nat): Word
    decreases s
  {
    if s == 0 then v else Shl(Wrap(2 * v), s - 1)
  }

  function Shr(v: nat, s: nat): (r: nat)
    ensures r <= v
  {
    if s == 0 then v else Shr(v / 2, s - 1)
  }

  /** Bit i of a number. */
  predicate Bit(v: nat, i: nat) {
    if i == 0 then v % 2 == 1 else Bit(v / 2, i - 1)
  }

  function BitNot(w: Word): Word {
    0xffff_ffff - w
  }

  function And32(a: Word, b: Word): Word {
    BitAnd(a, b)
  }

  function Or32(a: Word, b: Word): Word {
    Pow2Values();
    OrXorBound(a, b, 32);
    BitOr(a, b)
  }

  function Xor32(a: Word, b: Word): Word {
    Pow2Values();
    OrXorBound(a, b, 32);
    BitXor(a, b)
  }

  // ---- Powers of two ----

  lemma {:induction false} Pow2Values()
    ensures Pow2(0) == 1 && Pow2(3) == 8 && Pow2(5) == 32 && Pow2(8) == 256
    ensures Pow2(11) == 0x800 && Pow2(12) == 0x1000 && Pow2(13) == 0x2000 && Pow2(14) == 0x4000
    ensures Pow2(16) == 0x10000 && Pow2(24) == 0x100_0000
    ensures Pow2(31) == 0x8000_0000 && Pow2(32) == 0x1_0000_0000
  {
    assert Pow2(8) == 256;
    assert Pow2(16) == 0x10000;
    assert Pow2(24) == 0x100_0000;
  }

  lemma {:induction false} Pow2Add(a: nat, b: nat)
    ensures Pow2(a + b) == Pow2(a) * Pow2(b)
  {
    hide Pow2;
    Pow2Step(a);
    Pow2Step(a + b);
    if a == 0 {
    } else {
      Pow2Add(a - 1, b);
      TwiceProduct(Pow2(a - 1), Pow2(b));
    }
  }

  lemma {:induction false} TwiceProduct(p: nat, q: nat)
    ensures (2 * p) * q == 2 * (p * q)
  {
  }

  // ---- Bitwise operations ----

  function ParityOf(b: bool): nat { if b then 1 else 0 }

  /** One unfolding of the bitwise operations, for all operands. */
  lemma {:induction false} Halves(a: nat, b: nat)
    ensures BitAnd(a, b) == 2 * BitAnd(a / 2, b / 2) + ParityOf(a % 2 == 1 && b % 2 == 1)
    ensures BitOr(a, b) == 2 * BitOr(a / 2, b / 2) + ParityOf(a % 2 == 1 || b % 2 == 1)
    ensures BitXor(a, b) == 2 * BitXor(a / 2, b / 2) + ParityOf(a % 2 != b % 2)
  {
    if a == 0 {
      ZeroOperand(b);
      ZeroOperand(b / 2);
    } else if b == 0 {
      ZeroOperand(a);
      ZeroOperand(a / 2);
    }
  }

  lemma {:induction false} OrHalves(a: nat, b: nat)
    ensures BitOr(a, b) / 2 == BitOr(a / 2, b / 2)
    ensures (BitOr(a, b) % 2 == 1) == (a % 2 == 1 || b % 2 == 1)
  {
    hide BitOr;
    Halves(a, b);
  }

  lemma {:induction false} ZeroOperand(x: nat)
    ensures BitAnd(0, x) == BitAnd(x, 0) == 0
    ensures BitOr(0, x) == BitOr(x, 0) == x
    ensures BitXor(0, x) == BitXor(x, 0) == x
  {
  }

  lemma {:induction false} OrXorBound(a: nat, b: nat, n: nat)
    requires a < Pow2(n) && b < Pow2(n)
    ensures BitOr(a, b) < Pow2(n) && BitXor(a, b) < Pow2(n)
  {
    hide BitOr, BitXor, Pow2;
    Pow2Step(n);
    if n == 0 {
      ZeroOperand(0);
    } else {
      Halves(a, b);
      OrXorBound(a / 2, b / 2, n - 1);
    }
  }

  /** Or and And together keep the sum: where no bit is shared, Or is addition. */
  lemma {:induction false} OrPlusAnd(a: nat, b: nat)
    ensures BitOr(a, b) + BitAnd(a, b) == a + b
    decreases a
  {
    hide BitOr, BitAnd;
    ZeroOperand(b);
    if a == 0 {
    } else {
      Halves(a, b);
      OrPlusAnd(a / 2, b / 2);
    }
  }

  lemma {:induction false} Pow2Step(k: nat)
    ensures Pow2(k) == if k == 0 then 1 else 2 * Pow2(k - 1)
  {
  }

  lemma {:induction false} DisjointAnd(low: nat, high: nat, k: nat)
    requires low < Pow2(k)
    ensures BitAnd(low, high * Pow2(k)) == 0
    decreases k
  {
    hide BitAnd, Pow2;
    Pow2Step(k);
    if k == 0 {
      ZeroOperand(high * Pow2(k));
    } else {
      var p := Pow2(k - 1);
      var q: nat := high * p;
      DoubleProduct(high, p);
      EvenHalf(q);
      Halves(low, 2 * q);
      DisjointAnd(low / 2, high, k - 1);
    }
  }

  lemma {:induction false} EvenHalf(q: nat)
    ensures 2 * q / 2 == q && 2 * q % 2 == 0
  {
  }

  lemma {:induction false} DoubleProduct(x: nat, p: nat)
    ensures x * (2 * p) == 2 * (x * p) == 2 * x * p
    ensures x * (2 * p) / 2 == x * p && x * (2 * p) % 2 == 0
  {
  }

  lemma {:induction false} OrIsAddition(low: nat, high: nat, k: nat)
    requires low < Pow2(k)
    ensures BitOr(low, high * Pow2(k)) == low + high * Pow2(k)
  {
    DisjointAnd(low, high, k);
    OrPlusAnd(low, high * Pow2(k));
  }

  lemma {:induction false} OrCommutes(a: nat, b: nat)
    ensures BitOr(a, b) == BitOr(b, a)
    decreases a
  {
    hide BitOr;
    ZeroOperand(b);
    if a == 0 {
    } else {
      Halves(a, b);
      Halves(b, a);
      OrCommutes(a / 2, b / 2);
    }
  }

  // ---- Division by powers of two ----

  /** The n low bits of x. */
  function Low(x: nat, n: nat): nat {
    x % Pow2(n)
  }

  lemma {:induction false} LowStep(x: nat, n: nat)
    requires n > 0
    ensures Low(x, n) == 2 * Low(x / 2, n - 1) + x % 2
  {
    HalfMod(x, Pow2(n - 1));
  }

  lemma {:induction false} LowZero(x: nat)
    ensures Low(x, 0) == 0
  {
  }

  lemma {:induction false} HalfMod(x: nat, p: nat)
    requires p > 0
    ensures x % (2 * p) == 2 * (x / 2 % p) + x % 2
    ensures x / (2 * p) == x / 2 / p
  {
    var q, r := x / 2 / p, x / 2 % p;
    assert x / 2 == q * p + r;
    assert x == q * (2 * p) + (2 * r + x % 2);
    DivModUnique(x, 2 * p, q, 2 * r + x % 2);
  }

  lemma {:induction false} DivModUnique(x: int, d: int, q: int, r: int)
    requires d > 0 && x == q * d + r && 0 <= r < d
    ensures x / d == q && x % d == r
  {
    if x / d > q {
      MulGap(x / d, q, d);
    } else if x / d < q {
      MulGap(q, x / d, d);
    }
  }

  /** Quotient and remainder by a product, in two steps. */
  lemma {:induction false} DivModTwice(x: nat, a: nat, b: nat)
    requires a > 0 && b > 0
    ensures a * b > 0
    ensures x / (a * b) == x / a / b
    ensures x % (a * b) == x / a % b * a + x % a
  {
    var q, r, low := x / a / b, x / a % b, x % a;
    assert x / a == q * b + r;
    assert x == (q * b + r) * a + low;
    MulGap(b, r, a);
    assert (q * b + r) * a == q * (a * b) + r * a;
    ProductNonNegative(r, a);
    DivModUnique(x, a * b, q, r * a + low);
  }

  /** The remainder modulo a product, divided or reduced by its first factor. */
  lemma {:induction false} PartOfRemainder(x: nat, a: nat, b: nat)
    requires a > 0 && b > 0
    ensures a * b > 0
    ensures x % (a * b) / a == x / a % b && x % (a * b) % a == x % a
  {
    DivModTwice(x, a, b);
    DivModUnique(x % (a * b), a, x / a % b, x % a);
  }

  lemma {:induction false} MulGap(a: int, b: int, d: int)
    requires a > b && d > 0
    ensures a * d >= b * d + d
  {
    var k: nat := a - b - 1;
    ProductNonNegative(k, d);
    assert a == b + 1 + k;
    assert (b + 1 + k) * d == b * d + d + k * d;
  }

  lemma {:induction false} ProductNonNegative(k: nat, d: nat)
    ensures k * d >= 0
  {
    if k == 0 {
    } else {
      ProductNonNegative(k - 1, d);
      assert k * d == (k - 1) * d + d;
    }
  }

  /** A mask of k low ones keeps the remainder modulo 2^k. */
  lemma {:induction false} AndLowMask(x: nat, k: nat)
    ensures BitAnd(x, Pow2(k) - 1) == Low(x, k)
    decreases k
  {
    hide BitAnd, Low, Pow2;
    Pow2Step(k);
    if k == 0 {
      ZeroOperand(x);
      LowZero(x);
    } else {
      var p := Pow2(k - 1);
      LowStep(x, k);
      OddHalf(p);
      Halves(x, 2 * p - 1);
      AndLowMask(x / 2, k - 1);
    }
  }

  lemma {:induction false} OddHalf(p: nat)
    requires p > 0
    ensures (2 * p - 1) / 2 == p - 1 && (2 * p - 1) % 2 == 1
  {
  }

  /** A single-bit mask tests that bit. */
  lemma {:induction false} AndBit(x: nat, k: nat)
    ensures BitAnd(x, Pow2(k)) == if Bit(x, k) then Pow2(k) else 0
    decreases k
  {
    hide BitAnd, Bit, Pow2;
    Pow2Step(k);
    BitStep(x, k);
    Halves(x, Pow2(k));
    if k == 0 {
      ZeroOperand(x / 2);
    } else {
      EvenHalf(Pow2(k - 1));
      AndBit(x / 2, k - 1);
    }
  }

  // ---- Shifts ----

  lemma {:induction false} ShlIsMultiplication(v: Word, s: nat)
    ensures Shl(v, s) == Wrap(v * Pow2(s))
    decreases s
  {
    hide Wrap;
    if s == 0 {
      WrapWord(v);
    } else {
      ShlIsMultiplication(Wrap(2 * v), s - 1);
      WrapFactor(2 * v, Pow2(s - 1));
      DoubleProduct(v, Pow2(s - 1));
    }
  }

  lemma {:induction false} WrapWord(v: Word)
    ensures Wrap(v) == v
  {
  }

  lemma {:induction false} WrapFactor(x: nat, p: nat)
    ensures Wrap(Wrap(x) * p) == Wrap(x * p)
  {
    var q := x / 0x1_0000_0000;
    assert x * p == Wrap(x) * p + 0x1_0000_0000 * (q * p);
  }

  lemma {:induction false} ShrIsDivision(v: nat, s: nat)
    ensures Shr(v, s) == v / Pow2(s)
    decreases s
  {
    if s == 0 {
    } else {
      ShrIsDivision(v / 2, s - 1);
      HalfMod(v, Pow2(s - 1));
    }
  }

  // ---- Bits ----

  lemma {:induction false} BitStep(v: nat, i: nat)
    ensures Bit(v, i) == if i == 0 then v % 2 == 1 else Bit(v / 2, i - 1)
  {
  }

  lemma {:induction false} BitOfZero(i: nat)
    ensures !Bit(0, i)
  {
    if i == 0 {
    } else {
      BitOfZero(i - 1);
    }
  }

  lemma {:induction false} BitOfOr(a: nat, b: nat, i: nat)
    ensures Bit(BitOr(a, b), i) == (Bit(a, i) || Bit(b, i))
    decreases i
  {
    hide BitOr, Bit;
    OrHalves(a, b);
    BitStep(BitOr(a, b), i);
    BitStep(a, i);
    BitStep(b, i);
    if i == 0 {
    } else {
      BitOfOr(a / 2, b / 2, i - 1);
    }
  }

  lemma {:induction false} AndHalves(a: nat, b: nat)
    ensures BitAnd(a, b) / 2 == BitAnd(a / 2, b / 2)
    ensures (BitAnd(a, b) % 2 == 1) == (a % 2 == 1 && b % 2 == 1)
  {
    hide BitAnd;
    Halves(a, b);
  }

  lemma {:induction false} BitOfAnd(a: nat, b: nat, i: nat)
    ensures Bit(BitAnd(a, b), i) == (Bit(a, i) && Bit(b, i))
    decreases i
  {
    hide BitAnd, Bit;
    AndHalves(a, b);
    BitStep(BitAnd(a, b), i);
    BitStep(a, i);
    BitStep(b, i);
    if i == 0 {
    } else {
      BitOfAnd(a / 2, b / 2, i - 1);
    }
  }

  lemma {:induction false} XorHalves(a: nat, b: nat)
    ensures BitXor(a, b) / 2 == BitXor(a / 2, b / 2)
    ensures (BitXor(a, b) % 2 == 1) == (a % 2 != b % 2)
  {
    hide BitXor;
    Halves(a, b);
  }

  lemma {:induction false} BitOfXor(a: nat, b: nat, i: nat)
    ensures Bit(BitXor(a, b), i) == (Bit(a, i) != Bit(b, i))
    decreases i
  {
    hide BitXor, Bit;
    XorHalves(a, b);
    BitStep(BitXor(a, b), i);
    BitStep(a, i);
    BitStep(b, i);
    if i == 0 {
    } else {
      BitOfXor(a / 2, b / 2, i - 1);
    }
  }

  lemma {:induction false} BitOfShr(v: nat, s: nat, i: nat)
    ensures Bit(Shr(v, s), i) == Bit(v, i + s)
    decreases s
  {
    if s == 0 {
    } else {
      BitOfShr(v / 2, s - 1, i);
    }
  }

  lemma {:induction false} BitIsParity(v: nat, i: nat)
    ensures Bit(v, i) == (v / Pow2(i) % 2 == 1)
  {
    BitOfShr(v, i, 0);
    ShrIsDivision(v, i);
  }

  lemma {:induction false} BitOfLow(v: nat, n: nat, i: nat)
    ensures Bit(Low(v, n), i) == (i < n && Bit(v, i))
    decreases i
  {
    hide Low;
    if n == 0 {
      LowZero(v);
      BitOfZero(i);
    } else {
      LowStep(v, n);
      if i > 0 {
        BitOfLow(v / 2, n - 1, i - 1);
      }
    }
  }

  lemma {:induction false} BitOfDouble(v: Word, i: nat)
    requires i < 32
    ensures Bit(Wrap(2 * v), i) == (i > 0 && Bit(v, i - 1))
  {
    Pow2Values();
    BitOfLow(2 * v, 32, i);
    assert 2 * v / 2 == v;
  }

  lemma {:induction false} BitOfShl(v: Word, s: nat, i: nat)
    requires i < 32
    ensures Bit(Shl(v, s), i) == (i >= s && Bit(v, i - s))
    decreases s
  {
    hide Wrap, Bit;
    if s == 0 {
    } else {
      BitOfShl(Wrap(2 * v), s - 1, i);
      if i >= s - 1 {
        BitOfDouble(v, i - (s - 1));
      }
    }
  }

  lemma {:induction false} BitBeyond(v: nat, n: nat, i: nat)
    requires v < Pow2(n) && i >= n
    ensures !Bit(v, i)
    decreases n
  {
    if n == 0 {
      BitOfZero(i);
    } else {
      BitBeyond(v / 2, n - 1, i - 1);
    }
  }

  lemma {:induction false} SameBits(a: nat, b: nat, n: nat)
    requires a < Pow2(n) && b < Pow2(n)
    requires forall i: nat :: i < n ==> Bit(a, i) == Bit(b, i)
    ensures a == b
  {
    if n == 0 {
    } else {
      assert Bit(a, 0) == Bit(b, 0);
      forall i: nat | i < n - 1
        ensures Bit(a / 2, i) == Bit(b / 2, i)
      {
        assert Bit(a, i + 1) == Bit(b, i + 1);
      }
      SameBits(a / 2, b / 2, n - 1);
    }
  }

  // ---- Masks of one bit ----

  /** And with 2^k tests bit k, Or sets it. */
  lemma {:induction false} OneBitMask(w: nat, k: nat)
    ensures BitAnd(w, Pow2(k)) == if w / Pow2(k) % 2 == 1 then Pow2(k) else 0
    ensures BitOr(w, Pow2(k)) == if w / Pow2(k) % 2 == 1 then w else w + Pow2(k)
  {
    hide BitAnd, BitOr, Bit, Pow2;
    AndBit(w, k);
    BitIsParity(w, k);
    OrPlusAnd(w, Pow2(k));
  }

  lemma {:induction false} AndShares(a: nat, m: nat, m': nat)
    requires m % 2 != m' % 2
    ensures BitAnd(a, m) + BitAnd(a, m') == 2 * (BitAnd(a / 2, m / 2) + BitAnd(a / 2, m' / 2)) + a % 2
  {
    hide BitAnd;
    Halves(a, m);
    Halves(a, m');
  }

  /** A mask and its complement to n ones share out the bits of a. */
  lemma {:induction false} AndComplement(a: nat, m: nat, n: nat)
    requires a < Pow2(n) && m < Pow2(n)
    ensures BitAnd(a, m) + BitAnd(a, Pow2(n) - 1 - m) == a
    decreases n
  {
    hide BitAnd, Pow2;
    Pow2Step(n);
    if n == 0 {
      ZeroOperand(0);
    } else {
      ComplementHalf(m, Pow2(n - 1));
      AndComplement(a / 2, m / 2, n - 1);
      AndShares(a, m, Pow2(n) - 1 - m);
    }
  }

  lemma {:induction false} ComplementHalf(m: nat, p: nat)
    requires m < 2 * p
    ensures m / 2 < p && (2 * p - 1 - m) / 2 == p - 1 - m / 2 && (2 * p - 1 - m) % 2 != m % 2
  {
  }

  /** And with all of n bits but 2^k clears bit k. */
  lemma {:induction false} ClearingMask(w: nat, k: nat, n: nat)
    requires w < Pow2(n) && Pow2(k) < Pow2(n)
    ensures BitAnd(w, Pow2(n) - 1 - Pow2(k)) == if w / Pow2(k) % 2 == 1 then w - Pow2(k) else w
  {
    hide BitAnd, Pow2;
    OneBitMask(w, k);
    AndComplement(w, Pow2(k), n);
  }
}
