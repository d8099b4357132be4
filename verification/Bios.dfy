/** The BIOS routines that turn a number into decimal text, at the level of their mnemonics:
    the variables are the registers the routines use. */
module Bios {
  import opened Words
  import opened Alu
  import opened Text

  // ---- bios_bin_to_bcd ----

  /** The k low decimal digits of n, one to a nibble. */
  function Pack(n: nat, k: nat): nat {
    if k == 0 then 0 else n % 10 + 16 * Pack(n / 10, k - 1)
  }

  function DropDigits(n: nat, k: nat): (r: nat)
    ensures r <= n
  {
    if k == 0 then n else DropDigits(n / 10, k - 1)
  }

  lemma {:induction false} PackBound(n: nat, k: nat)
    ensures Pack(n, k) < Pow2(4 * k)
    decreases k
  {
    if k == 0 {
    } else {
      PackBound(n / 10, k - 1);
      Pow2Nibble(k - 1);
    }
  }

  lemma {:induction false} Pow2Nibble(k: nat)
    ensures Pow2(4 * (k + 1)) == 16 * Pow2(4 * k)
  {
    Pow2Add(4, 4 * k);
    assert Pow2(4) == 16;
  }

  /** The next digit goes above those already packed. */
  lemma {:induction false} PackNext(n: nat, k: nat)
    ensures Pack(n, k + 1) == Pack(n, k) + DropDigits(n, k) % 10 * Pow2(4 * k)
    ensures DropDigits(n, k + 1) == DropDigits(n, k) / 10
    decreases k
  {
    if k == 0 {
    } else {
      PackNext(n / 10, k - 1);
      Pow2Nibble(k - 1);
      SixteenTimes(DropDigits(n / 10, k - 1) % 10, Pow2(4 * (k - 1)));
      hide Pow2;
    }
  }

  lemma {:induction false} SixteenTimes(d: nat, p: nat)
    ensures d * (16 * p) == 16 * (d * p)
  {
  }

  lemma {:induction false} ShiftedDigit(d: Word, k: nat)
    requires d < 16 && k < 8
    ensures Shl(d, 4 * k) == d * Pow2(4 * k)
  {
    hide Shl, Pow2;
    ShlIsMultiplication(d, 4 * k);
    Room(k);
    NoOverflow(d, Pow2(4 * k));
  }

  lemma {:induction false} NoOverflow(d: nat, p: nat)
    requires d < 16 && 16 * p <= 0x1_0000_0000 && p > 0
    ensures 0 <= d * p < 0x1_0000_0000
  {
    assert d * p <= 15 * p;
  }

  lemma {:induction false} Room(k: nat)
    requires k < 8
    ensures 16 * Pow2(4 * k) <= 0x1_0000_0000
  {
    Pow2Nibble(k);
    Pow2Grows(4 * (k + 1), 32);
    Pow2Values();
  }

  lemma {:induction false} Pow2Grows(a: nat, b: nat)
    requires a <= b
    ensures Pow2(a) <= Pow2(b)
    decreases b
  {
    if a >= b {
    } else {
      Pow2Grows(a, b - 1);
    }
  }

  method BinToBcd(a0: Word) returns (bcd: Word)
    ensures bcd == Pack(a0, 8)
  {
    hide Pack, DropDigits, Shl, BitOr, Pow2;
    var x10, x11, x12, x13, x14, x15, x16 := a0, 0, 0, 0, 8, 10, 0;
    assert Pack(a0, 0) == 0 && DropDigits(a0, 0) == a0 by { NothingPacked(a0); }
    while x14 != 0
      invariant 0 <= x14 <= 8 && x15 == 10 && x12 == 4 * (8 - x14)
      invariant 0 <= x10 < 0x1_0000_0000 && x10 == DropDigits(a0, 8 - x14)
      invariant 0 <= x13 < 0x1_0000_0000 && x13 == Pack(a0, 8 - x14)
    {
      ghost var k := 8 - x14;
      PackNext(a0, k);
      PackBound(a0, k);
      x11 := x10 % x15;
      x10 := x10 / x15;
      ShiftedDigit(x11, k);
      OrIsAddition(x13, x11, 4 * k);
      x16 := Shl(x11, x12);
      x13 := Or32(x13, x16);
      x12 := x12 + 4;
      x14 := x14 - 1;
    }
    bcd := x13;
  }

  lemma {:induction false} NothingPacked(n: nat)
    ensures Pack(n, 0) == 0 && DropDigits(n, 0) == n
  {
  }

  /** For any word the result holds the digits of n modulo 10^8. */
  lemma {:induction false} PackIsModular(n: nat, k: nat)
    ensures Pack(n % Power(10, k), k) == Pack(n, k)
    decreases k
  {
    if k == 0 {
    } else {
      var p := Power(10, k - 1);
      TenMod(n, p);
      PackIsModular(n / 10, k - 1);
    }
  }

  lemma {:induction false} TenMod(n: nat, p: nat)
    requires p > 0
    ensures n % (10 * p) / 10 == n / 10 % p && n % (10 * p) % 10 == n % 10
  {
    var q, r := n / 10 / p, n / 10 % p;
    assert n / 10 == q * p + r;
    assert n == q * (10 * p) + (10 * r + n % 10);
    DivModUnique(n, 10 * p, q, 10 * r + n % 10);
  }

  // ---- vga_print_integer ----

  type Digit = d: int | 0 <= d < 16

  /** The hexadecimal digits of v, highest first, without leading zeros. */
  function Nibbles(v: nat): (s: seq<Digit>)
    ensures |s| > 0
  {
    if v < 16 then [v] else Nibbles(v / 16) + [v % 16]
  }

  /** VGA_INTEGER_LUT */
  const LUT: string := "0123456789ABCDEF"

  function Character(d: Digit): char { LUT[d] }

  function Characters(s: seq<Digit>): string {
    seq(|s|, i requires 0 <= i < |s| => Character(s[i]))
  }

  lemma {:induction false} CharactersAppend(s: seq<Digit>, d: Digit)
    ensures Characters(s + [d]) == Characters(s) + [Character(d)]
    ensures Characters([d]) == [Character(d)] && Characters([]) == []
  {
  }

  function Nibble(v: Word, k: nat): Word {
    Shr(v, 4 * k) % 16
  }

  lemma {:induction false} NibbleUp(v: Word, k: nat)
    ensures Nibble(v, 0) == v % 16 && Nibble(v, k + 1) == Nibble(v / 16, k)
  {
    var s := 4 * k;
    assert Shr(v, s + 4) == Shr(v / 2, s + 3);
    assert Shr(v / 2, s + 3) == Shr(v / 2 / 2, s + 2);
    assert Shr(v / 2 / 2, s + 2) == Shr(v / 2 / 2 / 2, s + 1);
    assert Shr(v / 2 / 2 / 2, s + 1) == Shr(v / 2 / 2 / 2 / 2, s);
    assert v / 2 / 2 / 2 / 2 == v / 16;
  }

  lemma {:induction false} NibblesAre(v: Word, j: nat)
    requires j < |Nibbles(v)|
    ensures Nibbles(v)[j] == Nibble(v, |Nibbles(v)| - 1 - j)
    decreases v
  {
    hide Nibble;
    if v < 16 {
      NibbleUp(v, 0);
    } else {
      var s := Nibbles(v / 16);
      if j == |s| {
        NibbleUp(v, 0);
      } else {
        NibbleUp(v, |s| - 1 - j);
        NibblesAre(v / 16, j);
      }
    }
  }

  lemma {:induction false} AtMostEight(v: nat, k: nat)
    requires k > 0 && v < Pow2(4 * k)
    ensures |Nibbles(v)| <= k
    decreases k
  {
    if v < 16 {
    } else {
      if k == 1 {
        assert Pow2(4) == 16;
      }
      Pow2Nibble(k - 1);
      AtMostEight(v / 16, k - 1);
    }
  }

  method GetIntegerLen(v: Word) returns (len: nat)
    ensures len == |Nibbles(v)|
  {
    var a0, x10 := v, 0;
    while a0 != 0
      invariant 0 <= a0 < 0x1_0000_0000
      invariant (if a0 == 0 then x10 else x10 + |Nibbles(a0)|) == if v == 0 then 0 else |Nibbles(v)|
      decreases a0
    {
      FourHalvings(a0);
      a0 := Shr(a0, 4);
      x10 := x10 + 1;
    }
    len := x10;
    if len == 0 {
      len := 1;
    }
  }

  lemma {:induction false} FourHalvings(v: Word)
    ensures Shr(v, 4) == v / 16
  {
    ShrIsDivision(v, 4);
    assert Pow2(4) == 16;
  }

  lemma {:induction false} BitOfFifteen(i: nat)
    ensures Bit(15, i) == (i < 4)
  {
    if i < 4 {
      assert Bit(15, 0) && Bit(15, 1) && Bit(15, 2) && Bit(15, 3);
    } else {
      assert Pow2(4) == 16;
      BitBeyond(15, 4, i);
    }
  }

  /** Masking the shifted number at the top digit and moving it down selects a nibble. */
  lemma {:induction false} SelectedBit(v: Word, top: nat, j: nat, i: nat)
    requires j <= top < 8 && i < 32
    ensures Bit(Shr(And32(Shl(v, 4 * j), Shl(15, 4 * top)), 4 * top), i) == Bit(Nibble(v, top - j), i)
  {
    hide BitAnd, Shl, Shr, Bit, Pow2;
    var at := i + 4 * top;
    BitOfShr(And32(Shl(v, 4 * j), Shl(15, 4 * top)), 4 * top, i);
    BitOfAnd(Shl(v, 4 * j), Shl(15, 4 * top), at);
    BitOfFifteen(i);
    BitOfNibble(v, top - j, i);
    if at < 32 {
      BitOfShl(v, 4 * j, at);
      BitOfShl(15, 4 * top, at);
    } else {
      NoHighBit(And32(Shl(v, 4 * j), Shl(15, 4 * top)), at);
    }
  }

  lemma {:induction false} BitOfNibble(v: Word, k: nat, i: nat)
    ensures Bit(Nibble(v, k), i) == (i < 4 && Bit(v, i + 4 * k))
  {
    hide Shr, Bit;
    assert Pow2(4) == 16;
    BitOfLow(Shr(v, 4 * k), 4, i);
    BitOfShr(v, 4 * k, i);
  }

  lemma {:induction false} Selected(v: Word, top: nat, j: nat)
    requires j <= top < 8
    ensures Shr(And32(Shl(v, 4 * j), Shl(15, 4 * top)), 4 * top) == Nibble(v, top - j)
  {
    hide BitAnd, Shl, Shr, Bit;
    forall i: nat | i < 32
      ensures Bit(Shr(And32(Shl(v, 4 * j), Shl(15, 4 * top)), 4 * top), i) == Bit(Nibble(v, top - j), i)
    {
      SelectedBit(v, top, j, i);
    }
    SameWord(Shr(And32(Shl(v, 4 * j), Shl(15, 4 * top)), 4 * top), Nibble(v, top - j));
  }

  lemma {:induction false} ShlAdd(v: Word, s: nat, t: nat)
    ensures Shl(Shl(v, s), t) == Shl(v, s + t)
    decreases s
  {
    hide Wrap;
    if s == 0 {
    } else {
      ShlAdd(Wrap(2 * v), s - 1, t);
    }
  }

  /** What the loop below selects in its turn j. */
  lemma {:induction false} DigitAt(v: Word, j: nat)
    requires j < |Nibbles(v)| <= 8
    ensures var top := |Nibbles(v)| - 1;
            Shr(And32(Shl(v, 4 * j), Shl(15, 4 * top)), 4 * top) == Nibbles(v)[j]
  {
    hide Shl, Shr, And32, Nibbles, Nibble;
    Selected(v, |Nibbles(v)| - 1, j);
    NibblesAre(v, j);
  }

  lemma {:induction false} CharactersNext(s: seq<Digit>, j: nat)
    requires j < |s|
    ensures Characters(s[..j + 1]) == Characters(s[..j]) + [Character(s[j])]
  {
    hide Characters, Character;
    assert s[..j + 1] == s[..j] + [s[j]];
    CharactersAppend(s[..j], s[j]);
  }

  /** `putchar` appends to the output. */
  method PrintInteger(a0: Word, output: string) returns (out: string)
    ensures out == output + Characters(Nibbles(a0))
  {
    hide Shl, Shr, And32, Nibbles, Characters, Character;
    CharactersAppend([], 0);
    assert Pow2(32) == 0x1_0000_0000 by { Pow2Values(); }
    AtMostEight(a0, 8);
    NoShift(a0);
    var x17 := a0;
    var len := GetIntegerLen(a0);
    ghost var digits := Nibbles(a0);
    var x18 := len;
    var x16 := 4 * (len - 1);
    var x19 := Shl(15, x16);
    out := output;
    while x18 != 0
      invariant 0 <= x18 <= len == |digits| <= 8
      invariant x17 == Shl(a0, 4 * (len - x18))
      invariant out == output + Characters(digits[..len - x18])
    {
      ghost var j := len - x18;
      DigitAt(a0, j);
      CharactersNext(digits, j);
      out := out + [Character(Shr(And32(x17, x19), x16))];
      ShlAdd(a0, 4 * j, 4);
      x17 := Shl(x17, 4);
      x18 := x18 - 1;
    }
    assert digits[..len] == digits;
  }

  lemma {:induction false} NoShift(v: Word)
    ensures Shl(v, 0) == v
  {
  }

  // ---- The two together ----

  lemma {:induction false} PackPositive(n: nat, k: nat)
    requires 0 < n < Power(10, k)
    ensures Pack(n, k) > 0
    decreases k
  {
    if n < 10 {
    } else {
      assert n / 10 < Power(10, k - 1);
      PackPositive(n / 10, k - 1);
    }
  }

  /** The nibbles of the packed number are the decimal digits of n, without leading zeros. */
  lemma {:induction false} PackedDigits(n: nat, k: nat)
    requires k > 0 && n < Power(10, k)
    ensures Characters(Nibbles(Pack(n, k))) == Print(n, 10)
    decreases k
  {
    hide Pack, Characters, Character, Nibbles, Print, DIGITS, Power;
    PackStep(n, k);
    TenfoldPower(n, k);
    PrintStep(n);
    if n < 10 {
      PackOfZero(k - 1);
      OneNibble(n);
      OneCharacter(n);
    } else {
      PackPositive(n / 10, k - 1);
      PackedDigits(n / 10, k - 1);
      NextNibble(Pack(n / 10, k - 1), n % 10);
      OneCharacter(n % 10);
      CharactersAppend(Nibbles(Pack(n / 10, k - 1)), n % 10);
    }
  }

  lemma {:induction false} PackStep(n: nat, k: nat)
    requires k > 0
    ensures Pack(n, k) == n % 10 + 16 * Pack(n / 10, k - 1)
    ensures n < 10 ==> n / 10 == 0 && n % 10 == n
  {
    hide Pack;
    PackUnfolds(n, k);
  }

  lemma {:induction false} PackUnfolds(n: nat, k: nat)
    requires k > 0
    ensures Pack(n, k) == n % 10 + 16 * Pack(n / 10, k - 1)
  {
  }

  lemma {:induction false} TenfoldPower(n: nat, k: nat)
    requires k > 0 && n < Power(10, k)
    ensures n / 10 < Power(10, k - 1)
    ensures n >= 10 ==> k > 1 && n / 10 > 0
  {
    assert Power(10, k) == 10 * Power(10, k - 1);
    if k == 1 {
      assert Power(10, 0) == 1;
    }
  }

  lemma {:induction false} PrintStep(n: nat)
    ensures |DIGITS| == 16
    ensures Print(n, 10) == if n < 10 then [DIGITS[n]] else Print(n / 10, 10) + [DIGITS[n % 10]]
  {
  }

  lemma {:induction false} OneNibble(d: nat)
    requires d < 16
    ensures Nibbles(d) == [d]
  {
  }

  lemma {:induction false} NextNibble(rest: nat, d: nat)
    requires rest > 0 && d < 16
    ensures Nibbles(d + 16 * rest) == Nibbles(rest) + [d]
  {
    DivModUnique(d + 16 * rest, 16, rest, d);
  }

  lemma {:induction false} PackOfZero(k: nat)
    ensures Pack(0, k) == 0
  {
    if k == 0 {
    } else {
      PackOfZero(k - 1);
    }
  }

  lemma {:induction false} OneCharacter(d: nat)
    requires d < 10
    ensures Character(d) == DIGITS[d] && Characters([d]) == [DIGITS[d]]
  {
    CharactersAppend([], d);
  }

  /** Converting and printing any number below 10^8 prints its decimal digits. */
  method PrintDecimal(n: Word) returns (out: string)
    ensures out == Characters(Nibbles(Pack(n % 1_0000_0000, 8)))
    ensures out == Print(n % 1_0000_0000, 10)
  {
    hide Pack, Nibbles, Characters, Print;
    assert Power(10, 8) == 1_0000_0000 by { TenToTheEight(); }
    PackIsModular(n, 8);
    PackedDigits(n % 1_0000_0000, 8);
    var bcd := BinToBcd(n);
    out := PrintInteger(bcd, "");
  }

  lemma {:induction false} TenToTheEight()
    ensures Power(10, 8) == 1_0000_0000
  {
    assert Power(10, 4) == 1_0000;
  }
}
