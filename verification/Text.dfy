/** Printed numbers, columns and tokens: what the disassembler writes and how it can be read. */
module Text {

  // ---- Numbers ----

  const DIGITS: string := "0123456789abcdef"

  type Base = b: int | b == 10 || b == 16 witness 10

  /** %u for base 10, %x for base 16. */
  function Print(n: nat, base: Base): (s: string)
    ensures |s| > 0
  {
    if n < base then [DIGITS[n]] else Print(n / base, base) + [DIGITS[n % base]]
  }

  function PadZero(s: string, width: nat): (r: string)
    ensures |r| >= |s|
    decreases width - |s|
  {
    if |s| >= width then s else PadZero("0" + s, width)
  }

  function DigitValue(c: char): nat {
    if '0' <= c <= '9' then (c - '0') as nat
    else if 'a' <= c <= 'f' then (c - 'a') as nat + 10
    else 0
  }

  function ValueOf(s: string, base: Base): nat {
    if s == [] then 0 else base * ValueOf(s[..|s| - 1], base) + DigitValue(s[|s| - 1])
  }

  lemma {:induction false} DigitRoundTrip(d: nat)
    requires d < 16
    ensures DigitValue(DIGITS[d]) == d && IsWordChar(DIGITS[d])
  {
  }

  /** Reading a printed number gives it back. */
  lemma {:induction false} ValueOfPrint(n: nat, base: Base)
    ensures ValueOf(Print(n, base), base) == n
  {
    assert |DIGITS| == 16;
    hide DigitValue, IsWordChar, DIGITS;
    if n < base {
      ValueOfDigit(n, base);
    } else {
      DigitRoundTrip(n % base);
      ValueOfPrint(n / base, base);
      ValueAppends(Print(n / base, base), DIGITS[n % base], base);
      assert base == 10 || base == 16;
      assert n == n / base * base + n % base;
    }
  }

  lemma {:induction false} ValueOfDigit(n: nat, base: Base)
    requires n < base
    ensures ValueOf([DIGITS[n]], base) == n
  {
    assert |DIGITS| == 16;
    DigitRoundTrip(n);
    hide DigitValue, IsWordChar, DIGITS;
    ValueAppends([], DIGITS[n], base);
    assert [] + [DIGITS[n]] == [DIGITS[n]];
  }

  lemma {:induction false} ValueAppends(s: string, c: char, base: Base)
    ensures ValueOf(s + [c], base) == base * ValueOf(s, base) + DigitValue(c)
  {
    hide DigitValue;
    var t := s + [c];
    assert t[..|t| - 1] == s && t[|t| - 1] == c;
  }

  lemma {:induction false} ValueIgnoresZero(s: string, base: Base)
    ensures ValueOf("0" + s, base) == ValueOf(s, base)
    decreases |s|
  {
    var t := "0" + s;
    if s == [] {
      assert t[..|t| - 1] == [];
    } else {
      assert t[..|t| - 1] == "0" + s[..|s| - 1];
      ValueIgnoresZero(s[..|s| - 1], base);
    }
  }

  lemma {:induction false} ValueOfPadded(s: string, width: nat, base: Base)
    ensures ValueOf(PadZero(s, width), base) == ValueOf(s, base)
    decreases width - |s|
  {
    if |s| >= width {
    } else {
      ValueIgnoresZero(s, base);
      ValueOfPadded("0" + s, width, base);
    }
  }

  predicate IsWordChar(c: char) {
    '0' <= c <= '9' || 'a' <= c <= 'z'
  }

  predicate IsWord(s: string) {
    |s| > 0 && forall i :: 0 <= i < |s| ==> IsWordChar(s[i])
  }

  lemma {:induction false} PrintIsWord(n: nat, base: Base)
    ensures IsWord(Print(n, base))
  {
    DigitRoundTrip(n % base);
    if n < base {
    } else {
      PrintIsWord(n / base, base);
    }
  }

  lemma {:induction false} PadIsWord(s: string, width: nat)
    requires IsWord(s)
    ensures IsWord(PadZero(s, width))
    decreases width - |s|
  {
    if |s| >= width {
    } else {
      PadIsWord("0" + s, width);
    }
  }

  lemma {:induction false} PrintLength(n: nat, base: Base, k: nat)
    requires k > 0 && n < Power(base, k)
    ensures |Print(n, base)| <= k
    decreases k
  {
    if n < base {
    } else {
      assert Power(base, k) == base * Power(base, k - 1);
      assert n / base < Power(base, k - 1);
      PrintLength(n / base, base, k - 1);
    }
  }

  function Power(b: nat, k: nat): (p: nat)
    ensures b > 0 ==> p > 0
  {
    if k == 0 then 1 else b * Power(b, k - 1)
  }

  // ---- Columns ----

  function Spaces(n: nat): (s: string)
    ensures |s| == n
  {
    if n == 0 then "" else " " + Spaces(n - 1)
  }

  /** `set_string_to_size`: pad with blanks, or cut and end in three dots. The length less three
      wraps below three, and then the whole string is kept. */
  function SetSize(s: string, size: nat): string {
    if |s| <= size then s + Spaces(size - |s|)
    else (if size >= 3 then s[..size - 3] else s) + "..."
  }

  /** A column has its size, whatever is put in it, unless it is narrower than the three dots. */
  lemma {:induction false} SetSizeLength(s: string, size: nat)
    ensures |SetSize(s, size)| == size <==> |s| <= size || size >= 3
  {
  }

  /** A text that fits stands at the left with blanks behind it; one that does not keeps its beginning,
      in front of three dots. */
  lemma {:induction false} SetSizeText(s: string, size: nat, i: nat)
    requires i < |SetSize(s, size)|
    ensures SetSize(s, size)[i] == if |s| <= size then if i < |s| then s[i] else ' '
                                   else if i + 3 < |SetSize(s, size)| then s[i] else '.'
  {
    if |s| <= i && |s| <= size {
      SpacesAreBlank(size - |s|, i - |s|);
    }
  }

  lemma {:induction false} SpacesAreBlank(n: nat, i: nat)
    requires i < n
    ensures Spaces(n)[i] == ' '
  {
    if i == 0 {
    } else {
      SpacesAreBlank(n - 1, i - 1);
    }
  }

  // ---- Tokens ----

  predicate IsOperator(c: char) {
    c == '+' || c == '-' || c == '*' || c == ':'
  }

  /** The number of leading word characters. */
  function WordLength(s: string): (n: nat)
    ensures n <= |s|
    ensures forall i :: 0 <= i < n ==> IsWordChar(s[i])
    ensures n < |s| ==> !IsWordChar(s[n])
  {
    if s == [] || !IsWordChar(s[0]) then 0 else 1 + WordLength(s[1..])
  }

  /** Words and operators; everything else separates. */
  function Tokens(s: string): seq<string>
    decreases |s|
  {
    if s == [] then []
    else if IsWordChar(s[0]) then [s[..WordLength(s)]] + Tokens(s[WordLength(s)..])
    else if IsOperator(s[0]) then [[s[0]]] + Tokens(s[1..])
    else Tokens(s[1..])
  }

  lemma {:induction false} WordLengthUnique(s: string, n: nat)
    requires n <= |s| && (forall i :: 0 <= i < n ==> IsWordChar(s[i])) && (n < |s| ==> !IsWordChar(s[n]))
    ensures WordLength(s) == n
  {
  }

  lemma {:induction false} TokensOfWord(w: string)
    requires IsWord(w)
    ensures Tokens(w) == [w]
  {
    WordLengthUnique(w, |w|);
    assert w[..|w|] == w && w[|w|..] == [];
  }

  /** No word runs across the seam. */
  predicate Seam(a: string, b: string) {
    a == [] || b == [] || !IsWordChar(a[|a| - 1]) || !IsWordChar(b[0])
  }

  lemma {:induction false} TokensConcat(a: string, b: string)
    requires Seam(a, b)
    ensures Tokens(a + b) == Tokens(a) + Tokens(b)
    decreases |a|
  {
    hide WordLength, IsOperator;
    if a == [] {
      assert a + b == b;
    } else if IsWordChar(a[0]) {
      var n := WordLength(a);
      assert (a + b)[..n] == a[..n] && (a + b)[n..] == a[n..] + b;
      WordLengthUnique(a + b, n);
      TokensConcat(a[n..], b);
      assert Tokens(a + b) == [a[..n]] + Tokens(a[n..] + b);
    } else {
      assert (a + b)[1..] == a[1..] + b;
      TokensConcat(a[1..], b);
    }
  }

  lemma {:induction false} TokensOfBlank(s: string)
    requires forall i :: 0 <= i < |s| ==> s[i] == ' '
    ensures Tokens(s) == []
    decreases |s|
  {
    if s == [] {
    } else {
      TokensOfBlank(s[1..]);
    }
  }

  lemma {:induction false} TokensOfPadding(s: string, n: nat)
    ensures Tokens(s + Spaces(n)) == Tokens(s)
  {
    forall i | 0 <= i < n
      ensures Spaces(n)[i] == ' '
    {
      SpacesAreBlank(n, i);
    }
    TokensOfBlank(Spaces(n));
    TokensConcat(s, Spaces(n));
  }

  // ---- Tables ----

  function IndexOf(table: seq<string>, s: string, k: nat): (i: nat)
    requires k <= |table|
    ensures k <= i <= |table|
    ensures i < |table| ==> table[i] == s
    ensures forall j :: k <= j < i ==> table[j] != s
    decreases |table| - k
  {
    if k == |table| || table[k] == s then k else IndexOf(table, s, k + 1)
  }

  ghost predicate Distinct(table: seq<string>) {
    forall i, j :: 0 <= i < j < |table| ==> table[i] != table[j]
  }

  lemma {:induction false} IndexOfEntry(table: seq<string>, i: nat)
    requires Distinct(table) && i < |table|
    ensures IndexOf(table, table[i], 0) == i
  {
    var k := IndexOf(table, table[i], 0);
    assert k <= i;
  }
}
