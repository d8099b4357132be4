/** What the disassembler prints, in literal names and columns that read back: a second account of
    its tables and its line, independent of them. */
module Mnemonics {
  import opened Words
  import opened Alu
  import opened Mmu
  import opened Instructions
  import opened Text
  import opened Disassembler

  function AluName(op: AluOp): string {
    match op
    case 0 => "add"
    case 1 => "sub"
    case 2 => "mul"
    case 3 => "mla"
    case 4 => "div"
    case 5 => "mod"
    case 6 => "and"
    case 7 => "or"
    case 8 => "xor"
    case 9 => "lsl"
    case 10 => "lsr"
    case 11 => "asr"
    case 12 => "sx.b"
    case 13 => "sx.s"
    case 14 => "rol"
    case 15 => "ror"
  }

  /** Condition k as the word numbers it; the others have no name. */
  function ConditionName(k: int): string {
    match k
    case 1 => "eq"
    case 2 => "ne"
    case 3 => "gt"
    case 4 => "ge"
    case 5 => "lt"
    case 6 => "le"
    case _ => ""
  }

  function ExchangeName(op: int): string {
    match op
    case 0 => "mtcr"
    case 1 => "mfcr"
    case _ => ""
  }

  function SystemName(op: int): string {
    match op
    case 0 => "syscall"
    case 1 => "tpl0"
    case 2 => "tpl1"
    case 3 => "tpl2"
    case 4 => "tpl3"
    case 5 => "debug"
    case 6 => "excep"
    case _ => ""
  }

  function AccessName(op: int): string {
    match op
    case 0 => "load"
    case 1 => "store"
    case 2 => "lea"
    case _ => ""
  }

  function SizeName(size: Size): string {
    match size
    case 0 => ".b"
    case 1 => ".s"
    case 2 => ".l"
    case 3 => ".x"
  }

  /** The mnemonic of a word by its group and fields. */
  function Name(w: Word): string {
    var g := Group(w);
    if w == 0 then "nop"
    else if g == 0 then AluName(AluOpcode(w)) + (if !AluI(w) then "" else if AluSx(w) then ".s" else ".u")
    else if g in {2, 4, 6, 8, 10, 12, 18, 20, 22, 24, 26, 28} then
      (if BrnL(w) then "bl" else "b") + ConditionName(g % 16 / 2)
    else if g == 11 then "s" + ConditionName(ScrOp(w))
    else if g == 13 then "BRR to-do"
    else if g == 14 then ExchangeName(CpeOp(w))
    else if g == 15 then SystemName(SysOp(w))
    else if g == 16 then AccessName(LslOp(w)) + SizeName(LslSize(w))
    else if g == 17 then "li"
    else if g in {19, 21, 23, 25, 27, 29} then "SCI to-do"
    else ""
  }

  lemma {:induction false} AluNames(op: AluOp)
    ensures STEMS[op] == AluName(op)
  {
  }

  lemma {:induction false} ConditionNames(k: int)
    ensures Entry(CONDS, k - 1) == ConditionName(k)
  {
  }

  lemma {:induction false} ExchangeNames(op: int)
    ensures Entry(COPS, op) == ExchangeName(op)
  {
  }

  lemma {:induction false} SystemNames(op: int)
    ensures Entry(SYSTEMS, op) == SystemName(op)
  {
  }

  lemma {:induction false} AccessNames(op: int)
    ensures Entry(ACCESSES, op) == AccessName(op)
  {
  }

  lemma {:induction false} SizeNames(size: Size)
    ensures SIZES[size] == SizeName(size)
  {
  }

  lemma {:induction false} BranchGroups(g: int)
    requires 0 <= g < 32
    ensures IsBranchImm(g) == (g in {2, 4, 6, 8, 10, 12, 18, 20, 22, 24, 26, 28})
    ensures IsSetCondImm(g) == (g in {19, 21, 23, 25, 27, 29})
    ensures g / 2 % 8 == g % 16 / 2
  {
    if g < 16 {
      DivModUnique(g, 16, 0, g);
    } else {
      DivModUnique(g, 16, 1, g - 16);
    }
    PartOfRemainder(g, 2, 8);
    assert g / 2 % 8 == g % 16 / 2 == if g < 16 then g / 2 else (g - 16) / 2;
  }

  lemma {:induction false} GroupRange(w: Word)
    ensures 0 <= Group(w) < 32
  {
  }

  /** Every word prints its name. */
  lemma {:induction false} MnemonicIs(w: Word)
    ensures Mnemonic(w) == Name(w)
  {
    var g := Group(w);
    GroupRange(w);
    BranchGroups(g);
    AluNames(AluOpcode(w));
    ConditionNames(g % 16 / 2);
    ConditionNames(ScrOp(w));
    ExchangeNames(CpeOp(w));
    SystemNames(SysOp(w));
    AccessNames(LslOp(w));
    SizeNames(LslSize(w));
    hide AluName, ConditionName, ExchangeName, SystemName, AccessName, SizeName, STEMS, CONDS, COPS, SYSTEMS, ACCESSES,
         SIZES, Disassembler.Entry, IsBranchImm, IsSetCondImm, AluOpcode, AluI, AluSx, BrnL, ScrOp, CpeOp, SysOp, LslOp,
         LslSize, Group;
  }

  /** r0, at and a0, then x0 to x24, then fp, sp, lr and pc. */
  lemma {:induction false} RegisterIs(r: Instructions.Reg)
    ensures Disassembler.Reg(r) == match r
                                   case 0 => "r0"
                                   case 1 => "at"
                                   case 2 => "a0"
                                   case 28 => "fp"
                                   case 29 => "sp"
                                   case 30 => "lr"
                                   case 31 => "pc"
                                   case _ => "x" + Print(r - 3, 10)
  {
    if 3 <= r < 28 {
      NumberedRegister(r - 3);
      DecimalIs(r - 3);
      hide REGISTERS, Print;
      assert Disassembler.Reg(r) == "x" + Print(r - 3, 10);
    }
  }

  lemma {:induction false} NumberedRegister(n: nat)
    requires n < 25
    ensures var name := REGISTERS[n + 3];
            name == if n < 10 then ['x', '0' + n as char] else ['x', '0' + (n / 10) as char, '0' + (n % 10) as char]
  {
    assert '0' as int == 48 && 'x' as int == 120;
    assert REGISTERS[n + 3] == if n < 10 then ['x', (48 + n) as char]
                               else ['x', (48 + n / 10) as char, (48 + n % 10) as char];
  }

  lemma {:induction false} DecimalIs(n: nat)
    requires n < 100
    ensures Print(n, 10) == if n < 10 then ['0' + n as char] else ['0' + (n / 10) as char, '0' + (n % 10) as char]
  {
    DigitIs(n % 10);
    DigitIs(n / 10);
    hide DIGITS;
  }

  lemma {:induction false} DigitIs(d: nat)
    requires d < 10
    ensures |DIGITS| == 16 && DIGITS[d] == '0' + d as char
  {
  }

  // ---- Addresses ----

  lemma {:induction false} ModeParts(w: Word)
    ensures 0 <= LslMode(w) < 8
    ensures FixedDisp(w) == LslImm10(w) + if LslMode(w) in {2, 3, 6, 7} then 0x400 else 0
  {
  }

  /** The bracketed address in each of the eight modes. */
  lemma {:induction false} AddressIs(w: Word)
    ensures var s0, s1 := Disassembler.Reg(S0(w)), Disassembler.Reg(S1(w));
            AddressText(w) ==
              match LslMode(w)
              case 0 => "[" + s0 + "+" + s1 + "*" + Hex(S2(w)) + "]"
              case 1 => "[" + s0 + "-" + s1 + "*" + Hex(S2(w)) + "]"
              case 2 => "[" + s0 + "+" + s1 + ":" + Hex(S2(w)) + "]"
              case 3 => "[" + s0 + "-" + s1 + ":" + Hex(S2(w)) + "]"
              case 4 => "[" + s0 + "+" + Hex(LslImm10(w)) + "]"
              case 5 => "[" + s0 + "-" + Hex(LslImm10(w)) + "]"
              case 6 => "[" + s0 + "+" + Hex(LslImm10(w) + 0x400) + "]"
              case _ => "[" + s0 + "-" + Hex(LslImm10(w) + 0x400) + "]"
  {
    ModeParts(w);
    hide Disassembler.Reg, Hex, S0, S1, S2, LslImm10, FixedDisp, LslMode;
  }

  /** ALU immediates are printed with four digits behind 0x, those of li with eight. */
  lemma {:induction false} ImmediateWidths(w: Word)
    requires w != 0 && ((Group(w) == 0 && AluI(w)) || Group(w) == 17)
    ensures |Operands(w)| == |Disassembler.Reg(D(w))| + (if Group(w) == 0 then 8 else 12)
  {
    hide Group, AluI, D, AluImm16, LiValue, Print, PadZero, Disassembler.Reg;
    ImmediateBelow(w);
    PowerValues();
    assert Power(16, 4) == 0x1_0000 by { FourthPower(); }
    PrintLength(AluImm16(w), 16, 4);
    PadLength(Print(AluImm16(w), 16), 4);
    PrintLength(LiValue(w), 16, 8);
    PadLength(Print(LiValue(w), 16), 8);
  }

  lemma {:induction false} ImmediateBelow(w: Word)
    ensures AluImm16(w) < 0x1_0000
  {
  }

  lemma {:induction false} FourthPower()
    ensures Power(16, 4) == 0x1_0000
  {
    assert Power(16, 2) == 256;
  }

  // ---- Lines ----

  /** Byte k of a word, highest first. */
  function ByteOf(w: Word, k: nat): nat
    requires k < 4
  {
    match k
    case 0 => w / 0x100_0000
    case 1 => w / 0x1_0000 % 0x100
    case 2 => w / 0x100 % 0x100
    case 3 => w % 0x100
  }

  lemma {:induction false} ByteIs(w: Word, k: nat)
    requires k < 4
    ensures Shr(w, 24 - 8 * k) % 256 == ByteOf(w, k)
  {
    hide Shr, Pow2;
    MaskPowers();
    Pow2Step(0);
    ShrIsDivision(w, 24 - 8 * k);
  }

  lemma {:induction false} ByteTextIs(w: Word, k: nat)
    requires k < 4
    ensures var t := ByteText(w, 24 - 8 * k);
            |t| == 3 && ValueOf(t[..2], 16) == ByteOf(w, k) && t[2] == ' '
  {
    hide Print, PadZero, ValueOf, Shr, ByteOf;
    var n := 24 - 8 * k;
    ByteColumn(w, n);
    ByteIs(w, k);
    var b := Shr(w, n) % 256;
    ValueOfPrint(b, 16);
    ValueOfPadded(Print(b, 16), 2, 16);
    assert ByteText(w, n)[..2] == PadZero(Print(b, 16), 2);
  }

  lemma {:induction false} BytesTextIs(w: Word, k: nat)
    requires k < 4
    ensures |BytesText(w, 4)| == 12 && BytesText(w, 4)[3 * k..3 * k + 3] == ByteText(w, 24 - 8 * k)
  {
    hide ByteText;
    ByteColumn(w, 24);
    ByteColumn(w, 16);
    ByteColumn(w, 8);
    ByteColumn(w, 0);
    assert BytesText(w, 1) == "" + ByteText(w, 24);
    assert BytesText(w, 2) == BytesText(w, 1) + ByteText(w, 16);
    assert BytesText(w, 3) == BytesText(w, 2) + ByteText(w, 8);
    assert BytesText(w, 4) == BytesText(w, 3) + ByteText(w, 0);
  }

  lemma {:induction false} AddressReads(vaddr: Word)
    ensures |AddressColumn(vaddr)| == 8 && ValueOf(AddressColumn(vaddr), 16) == vaddr
  {
    hide Print, PadZero, ValueOf;
    AddressWidth(vaddr);
    ValueOfPrint(vaddr, 16);
    ValueOfPadded(Print(vaddr, 16), 8, 16);
  }

  /** The columns of a default line read back: the address in 4 to 11, a colon behind it, and byte k of
      the word in 20 + 3k and 21 + 3k. */
  lemma {:induction false} LineColumns(vaddr: Word, w: Word, k: nat)
    requires k < 4
    ensures var line := DefaultLine(vaddr, w);
            |line| == 80 && ValueOf(line[4..12], 16) == vaddr && line[12] == ':'
            && ValueOf(line[20 + 3 * k..22 + 3 * k], 16) == ByteOf(w, k)
  {
    hide DefaultLine, Mnemonic, Operands, BytesText, AddressColumn, ByteText, Spaces, ValueOf, ByteOf, FrontColumns;
    DefaultColumns(vaddr, w);
    BytesTextIs(w, k);
    ByteTextIs(w, k);
    AddressReads(vaddr);
    FrontIs(vaddr, w, k);
    var line, front := DefaultLine(vaddr, w), FrontColumns(vaddr, w);
    assert line[4..12] == front[4..12] && line[12] == front[12];
    assert line[20 + 3 * k..22 + 3 * k] == front[20 + 3 * k..22 + 3 * k];
  }

  lemma {:induction false} FrontIs(vaddr: Word, w: Word, k: nat)
    requires k < 4 && |AddressColumn(vaddr)| == 8 && |BytesText(w, 4)| == 12
    ensures var front := FrontColumns(vaddr, w);
            |front| == 36 && front[4..12] == AddressColumn(vaddr) && front[12] == ':'
            && front[20 + 3 * k..22 + 3 * k] == BytesText(w, 4)[3 * k..3 * k + 3][..2]
  {
    hide BytesText, AddressColumn, Spaces;
    var address := SetSize(AddressColumn(vaddr) + ":", 16);
    var bytes := SetSize(BytesText(w, 4), 16);
    assert address == AddressColumn(vaddr) + ":" + Spaces(7);
    assert bytes == BytesText(w, 4) + Spaces(4);
    var front := FrontColumns(vaddr, w);
    assert front == Spaces(4) + address + bytes;
    assert front[4..20] == address && front[20..36] == bytes;
    assert front[4..12] == address[..8] && front[12] == address[8];
    assert front[20 + 3 * k..22 + 3 * k] == bytes[3 * k..3 * k + 2];
  }

  predicate Column(max: nat) {
    max == 0 || max >= 3
  }

  /** In every style a line is as wide as its columns: those of size 0 are left out. */
  lemma {:induction false} BodyWidth(indent: nat, addrMax: nat, opcodeMax: nat, mnemonicMax: nat, vaddr: Word, w: Word)
    requires Column(addrMax) && Column(opcodeMax) && mnemonicMax >= 3
    ensures |Body(indent, addrMax, opcodeMax, mnemonicMax, vaddr, w)|
              == indent + addrMax + opcodeMax + mnemonicMax + 1 + |Operands(w)|
  {
    hide SetSize, Mnemonic, Operands, BytesText, AddressColumn;
    SetSizeLength(BytesText(w, 4), opcodeMax);
    SetSizeLength(Mnemonic(w), mnemonicMax);
    SetSizeLength(AddressColumn(vaddr) + ":", addrMax);
  }

  /** A symbol heading is a line of its own: the address, then the name in angle brackets. */
  lemma {:induction false} HeadingReads(vaddr: Word, name: string)
    ensures var s := SymbolLine(vaddr, name);
            |s| == |name| + 14 && s[0] == '\n' && ValueOf(s[1..9], 16) == vaddr && s[9..11] == " <"
            && s[11..11 + |name|] == name && s[11 + |name|..] == ">:\n"
  {
    hide AddressColumn, ValueOf;
    AddressReads(vaddr);
    var s := SymbolLine(vaddr, name);
    assert s[1..9] == AddressColumn(vaddr);
  }
}
