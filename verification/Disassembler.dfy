/** The disassembler in its default style, and a reader that recovers from each printed line
    the instruction the executor decodes. */
module Disassembler {
  import opened Words
  import opened Alu
  import opened Core
  import opened Mmu
  import opened Instructions
  import opened Execute
  import opened Text
  import DelayedIsa

  const REGISTERS: seq<string> := [
    "r0", "at", "a0", "x0", "x1", "x2", "x3", "x4", "x5", "x6", "x7", "x8", "x9", "x10", "x11", "x12",
    "x13", "x14", "x15", "x16", "x17", "x18", "x19", "x20", "x21", "x22", "x23", "x24", "fp", "sp", "lr", "pc"]

  const STEMS: seq<string> := [
    "add", "sub", "mul", "mla", "div", "mod", "and", "or",
    "xor", "lsl", "lsr", "asr", "sx.b", "sx.s", "rol", "ror"]

  const CONDS: seq<string> := ["eq", "ne", "gt", "ge", "lt", "le"]
  const COPS: seq<string> := ["mtcr", "mfcr"]
  /** sysret has no mnemonic. */
  const SYSTEMS: seq<string> := ["syscall", "tpl0", "tpl1", "tpl2", "tpl3", "debug", "excep", ""]
  /** The reserved fourth operation has none either. */
  const ACCESSES: seq<string> := ["load", "store", "lea", ""]
  const SIZES: seq<string> := [".b", ".s", ".l", ".x"]

  /** A table lookup; a missing key yields the empty string. */
  function Entry(table: seq<string>, i: int): string {
    if 0 <= i < |table| then table[i] else ""
  }

  function Reg(r: Instructions.Reg): string { REGISTERS[r] }
  function Hex(n: Word): string { "0x" + Print(n, 16) }
  function HexPadded(n: Word, width: nat): string { "0x" + PadZero(Print(n, 16), width) }
  function Dec(n: nat): string { Print(n, 10) }

  // ---- Printing ----

  /** `dis->mnemonic` before it is cut to its column. */
  function Mnemonic(w: Word): string {
    var g := Group(w);
    if w == 0 then "nop"
    else if g == 0 then
      if AluI(w) then STEMS[AluOpcode(w)] + (if AluSx(w) then ".s" else ".u") else STEMS[AluOpcode(w)]
    else if IsBranchImm(g) then (if BrnL(w) then "bl" else "b") + Entry(CONDS, g / 2 % 8 - 1)
    else if g == 13 then "BRR to-do"
    else if g == 14 then Entry(COPS, CpeOp(w))
    else if g == 15 then Entry(SYSTEMS, SysOp(w))
    else if g == 16 then Entry(ACCESSES, LslOp(w)) + SIZES[LslSize(w)]
    else if g == 17 then "li"
    else if IsSetCondImm(g) then "SCI to-do"
    else if g == 11 then "s" + Entry(CONDS, ScrOp(w) - 1)
    else ""
  }

  /** The bracketed address of a load, store or lea. */
  function AddressText(w: Word): string {
    var mode := LslMode(w);
    var sign, scale := if mode % 2 == 0 then "+" else "-", if mode < 2 then "*" else ":";
    if mode < 4 then "[" + Reg(S0(w)) + sign + Reg(S1(w)) + scale + Hex(S2(w)) + "]"
    else "[" + Reg(S0(w)) + sign + Hex(FixedDisp(w)) + "]"
  }

  /** `dis->operands`. The plus flag of the formats has no effect on an unsigned conversion. */
  function Operands(w: Word): string {
    var g := Group(w);
    var d := Reg(D(w));
    if w == 0 then ""
    else if g == 0 then
      if AluI(w) then d + ", " + HexPadded(AluImm16(w), 4)
      else d + ", " + Reg(S0(w)) + ", " + Reg(S1(w))
    else if IsBranchImm(g) then d + ", " + Reg(S0(w)) + ", " + Hex(BranchDisp(w))
    else if g == 13 || IsSetCondImm(g) then "to-do"
    else if g == 14 then
      if CpeOp(w) == 1 then d + ", $" + Dec(CpeCopn(w)) + ", $" + Dec(CpeCopr(w))
      else "$" + Dec(CpeCopn(w)) + ", $" + Dec(CpeCopr(w)) + ", " + d
    else if g == 15 then Hex(SysImm24(w))
    else if g == 16 then
      if LslOp(w) == 1 then AddressText(w) + ", " + d else d + ", " + AddressText(w)
    else if g == 17 then d + ", " + HexPadded(LiValue(w), 8)
    else if g == 11 then d + ", " + Reg(S0(w)) + ", " + Reg(S1(w))
    else ""
  }

  /** The words whose text is not a placeholder: ALU, immediate branch, mtcr and mfcr, system,
      load/store/lea, load immediate, and set-if-cond-register with a defined condition. */
  predicate Covered(w: Word) {
    var g := Group(w);
    g == 0 || IsBranchImm(g) || (g == 14 && CpeOp(w) <= 1) || g == 15 || g == 16 || g == 17
    || (g == 11 && 1 <= ScrOp(w) <= 6)
  }

  // ---- Reading mnemonics ----

  datatype Kind =
    | KNop | KLi
    | KCop(op: int)
    | KSystem(op: int)
    | KAlu(alu: AluOp)
    | KAluImm(alu: AluOp, sx: bool)
    | KBranch(cond: CondIndex, link: bool)
    | KSet(cond: CondIndex)
    | KAccess(op: int, size: Size)
    | KUnknown

  const FIXED: seq<string> := ["nop", "li"] + COPS + SYSTEMS + STEMS

  function ReadMnemonic(s: string): Kind {
    var i := IndexOf(FIXED, s, 0);
    if i == 0 then KNop
    else if i == 1 then KLi
    else if i < 4 then KCop(i - 2)
    else if i < 12 then KSystem(i - 4)
    else if i < 28 then KAlu(i - 12)
    else ReadSuffixed(s)
  }

  function ReadSuffixed(s: string): Kind {
    var stem, suffix := s[..if |s| >= 2 then |s| - 2 else 0], s[if |s| >= 2 then |s| - 2 else 0..];
    var size := IndexOf(SIZES, suffix, 0);
    var op, alu := IndexOf(ACCESSES, stem, 0), IndexOf(STEMS, stem, 0);
    if size < 4 && op < 4 then KAccess(op, size)
    else if alu < 16 && (suffix == ".s" || suffix == ".u") then KAluImm(alu, suffix == ".s")
    else ReadConditional(s)
  }

  function ReadConditional(s: string): Kind {
    if |s| == 0 then KUnknown
    else
      var linked := IndexOf(CONDS, s[if |s| >= 2 then 2 else 1..], 0);
      var plain := IndexOf(CONDS, s[1..], 0);
      if |s| >= 2 && s[..2] == "bl" && linked < 6 then KBranch(linked, true)
      else if s[0] == 'b' && plain < 6 then KBranch(plain, false)
      else if s[0] == 's' && plain < 6 then KSet(plain)
      else KUnknown
  }

  /** What kind of instruction a covered word is. */
  function KindOf(w: Word): Kind {
    var g := Group(w);
    if w == 0 then KNop
    else if g == 0 then if AluI(w) then KAluImm(AluOpcode(w), AluSx(w)) else KAlu(AluOpcode(w))
    else if IsBranchImm(g) then KBranch(g / 2 % 8 - 1, BrnL(w))
    else if g == 14 then KCop(CpeOp(w))
    else if g == 15 then KSystem(SysOp(w))
    else if g == 16 then KAccess(LslOp(w), LslSize(w))
    else if g == 17 then KLi
    else if g == 11 && 1 <= ScrOp(w) <= 6 then KSet(ScrOp(w) - 1)
    else KUnknown
  }

  lemma {:induction false} FixedDistinct()
    ensures Distinct(FIXED) && |FIXED| == 28
  {
    forall i, j | 0 <= i < j < |FIXED|
      ensures FIXED[i] != FIXED[j]
    {
      FixedDiffer(i, j);
    }
  }

  lemma {:induction false} FixedDiffer(i: nat, j: nat)
    requires i < j < |FIXED|
    ensures FIXED[i] != FIXED[j]
  {
    if j < 12 {
      NamesDiffer(i, j);
    } else if i < 12 {
      NamesAreNoStems(i, j - 12);
    } else {
      StemsDiffer(i - 12, j - 12);
    }
  }

  lemma {:induction false} NamesDiffer(i: nat, j: nat)
    requires i < j < 12
    ensures FIXED[i] != FIXED[j]
  {
  }

  lemma {:induction false} NamesAreNoStems(i: nat, j: nat)
    requires i < 12 && j < 16
    ensures FIXED[i] != STEMS[j]
  {
  }

  lemma {:induction false} AccessesDistinct()
    ensures Distinct(ACCESSES) && Distinct(SIZES) && Distinct(STEMS) && Distinct(CONDS)
  {
    forall i, j | 0 <= i < j < |STEMS|
      ensures STEMS[i] != STEMS[j]
    {
      StemsDiffer(i, j);
    }
    hide STEMS;
    SmallTablesDistinct();
  }

  lemma {:induction false} StemsDiffer(i: nat, j: nat)
    requires i < j < |STEMS|
    ensures STEMS[i] != STEMS[j]
  {
  }

  lemma {:induction false} SmallTablesDistinct()
    ensures Distinct(ACCESSES) && Distinct(SIZES) && Distinct(CONDS)
  {
  }

  lemma {:induction false} FixedMnemonic(i: nat)
    requires i < 28
    ensures ReadMnemonic(FIXED[i]) == if i == 0 then KNop
                                      else if i == 1 then KLi
                                      else if i < 4 then KCop(i - 2)
                                      else if i < 12 then KSystem(i - 4)
                                      else KAlu(i - 12)
  {
    hide IndexOf;
    FixedDistinct();
    IndexOfEntry(FIXED, i);
  }

  lemma {:induction false} NotFixed(s: string)
    requires s !in FIXED
    ensures ReadMnemonic(s) == ReadSuffixed(s)
  {
    hide ReadSuffixed;
    FixedDistinct();
    var i := IndexOf(FIXED, s, 0);
  }

  lemma {:induction false} IndexOfAbsent(table: seq<string>, s: string)
    requires s !in table
    ensures IndexOf(table, s, 0) == |table|
  {
    var i := IndexOf(table, s, 0);
  }

  lemma {:induction false} AccessMnemonic(op: nat, size: Size)
    requires op < 4
    ensures ReadMnemonic(ACCESSES[op] + SIZES[size]) == KAccess(op, size)
  {
    hide IndexOf, ReadMnemonic;
    var s := ACCESSES[op] + SIZES[size];
    NoAccessIsFixed(op, size);
    NotFixed(s);
    assert |SIZES[size]| == 2;
    assert s[..|s| - 2] == ACCESSES[op] && s[|s| - 2..] == SIZES[size];
    AccessesDistinct();
    IndexOfEntry(ACCESSES, op);
    IndexOfEntry(SIZES, size);
  }

  lemma {:induction false} NoAccessIsFixed(op: nat, size: Size)
    requires op < 4
    ensures ACCESSES[op] + SIZES[size] !in FIXED
  {
    hide FIXED;
    var s := ACCESSES[op] + SIZES[size];
    assert |ACCESSES[op]| != 2 && |SIZES[size]| == 2;
    assert |s| == |ACCESSES[op]| + 2 && s[|s| - 2] == SIZES[size][0] == '.';
    DottedFixed();
  }

  /** The only fixed mnemonics with a dot before the last letter are sx.b and sx.s. */
  lemma {:induction false} DottedFixed()
    ensures forall t :: t in FIXED && |t| >= 2 && t[|t| - 2] == '.' ==> |t| == 4 && t[0] == 's'
  {
    forall i | 0 <= i < |FIXED|
      ensures var t := FIXED[i]; |t| >= 2 && t[|t| - 2] == '.' ==> |t| == 4 && t[0] == 's'
    {
    }
  }

  lemma {:induction false} AluImmMnemonic(alu: AluOp, sx: bool)
    ensures ReadMnemonic(STEMS[alu] + (if sx then ".s" else ".u")) == KAluImm(alu, sx)
  {
    hide IndexOf, ReadMnemonic;
    var suffix := if sx then ".s" else ".u";
    var s := STEMS[alu] + suffix;
    NoImmediateIsFixed(alu, sx);
    NotFixed(s);
    assert s[..|s| - 2] == STEMS[alu] && s[|s| - 2..] == suffix;
    AccessesDistinct();
    NoStemIsAccess(alu);
    IndexOfAbsent(ACCESSES, STEMS[alu]);
    IndexOfEntry(STEMS, alu);
  }

  lemma {:induction false} NoImmediateIsFixed(alu: AluOp, sx: bool)
    ensures STEMS[alu] + (if sx then ".s" else ".u") !in FIXED
  {
    hide FIXED;
    var s := STEMS[alu] + (if sx then ".s" else ".u");
    assert |s| == |STEMS[alu]| + 2 && s[|s| - 2] == '.' && s[0] == STEMS[alu][0];
    assert |STEMS[alu]| == 2 ==> STEMS[alu][0] == 'o';
    DottedFixed();
  }

  lemma {:induction false} NoStemIsAccess(alu: AluOp)
    ensures STEMS[alu] !in ACCESSES
  {
  }

  /** Mnemonics made of a prefix and a condition. */
  lemma {:induction false} ConditionalShape(prefix: string, cond: CondIndex)
    requires prefix == "b" || prefix == "bl" || prefix == "s"
    ensures var s := prefix + CONDS[cond];
            s !in FIXED && s[..|s| - 2] == prefix && s[|s| - 2..] == CONDS[cond]
            && CONDS[cond] !in SIZES && CONDS[cond] != ".s" && CONDS[cond] != ".u"
  {
    var s := prefix + CONDS[cond];
    assert |CONDS[cond]| == 2;
    assert s[..|s| - 2] == prefix && s[|s| - 2..] == CONDS[cond];
    NoConditionalIsFixed(prefix, cond);
  }

  lemma {:induction false} NoConditionalIsFixed(prefix: string, cond: CondIndex)
    requires prefix == "b" || prefix == "bl" || prefix == "s"
    ensures prefix + CONDS[cond] !in FIXED
  {
    hide FIXED;
    var s, c := prefix + CONDS[cond], CONDS[cond];
    assert |c| == 2 && c[0] != 'u';
    assert s[0] == prefix[0] && |s| == |prefix| + 2 && s[|prefix|] == c[0];
    FixedInitials();
  }

  /** No fixed mnemonic starts with b, and of the three-letter ones with s only sub does. */
  lemma {:induction false} FixedInitials()
    ensures forall t :: t in FIXED && |t| > 0 ==> t[0] != 'b' && (t[0] == 's' && |t| == 3 ==> t[1] == 'u')
  {
    forall i | 0 <= i < |FIXED|
      ensures var t := FIXED[i]; |t| > 0 ==> t[0] != 'b' && (t[0] == 's' && |t| == 3 ==> t[1] == 'u')
    {
    }
  }

  lemma {:induction false} ConditionalFallsThrough(prefix: string, cond: CondIndex)
    requires prefix == "b" || prefix == "bl" || prefix == "s"
    ensures ReadMnemonic(prefix + CONDS[cond]) == ReadConditional(prefix + CONDS[cond])
  {
    hide IndexOf, ReadMnemonic, ReadConditional;
    ConditionalShape(prefix, cond);
    NotFixed(prefix + CONDS[cond]);
    IndexOfAbsent(SIZES, CONDS[cond]);
  }

  lemma {:induction false} ConditionalMnemonic(cond: CondIndex)
    ensures ReadMnemonic("b" + CONDS[cond]) == KBranch(cond, false)
    ensures ReadMnemonic("bl" + CONDS[cond]) == KBranch(cond, true)
    ensures ReadMnemonic("s" + CONDS[cond]) == KSet(cond)
  {
    hide IndexOf, ReadMnemonic;
    AccessesDistinct();
    IndexOfEntry(CONDS, cond);
    ConditionalFallsThrough("b", cond);
    ConditionalFallsThrough("bl", cond);
    ConditionalFallsThrough("s", cond);
    var c := CONDS[cond];
    assert |c| == 2;
    assert ("bl" + c)[2..] == c && ("bl" + c)[..2] == "bl";
    assert ("b" + c)[1..] == c && ("s" + c)[1..] == c;
    OneLetterIsNoCondition(("b" + c)[2..]);
  }

  lemma {:induction false} OneLetterIsNoCondition(s: string)
    requires |s| == 1
    ensures IndexOf(CONDS, s, 0) == 6
  {
    IndexOfAbsent(CONDS, s);
  }

  /** The mnemonic of a covered word says what kind of instruction it is. */
  lemma {:induction false} MnemonicRoundTrip(w: Word)
    requires Covered(w)
    ensures ReadMnemonic(Mnemonic(w)) == KindOf(w)
  {
    hide IndexOf, ReadMnemonic, FIXED;
    var g := Group(w);
    if w == 0 {
      FixedAt(0);
    } else if g == 0 {
      if AluI(w) {
        AluImmMnemonic(AluOpcode(w), AluSx(w));
      } else {
        FixedAt(12 + AluOpcode(w));
      }
    } else if IsBranchImm(g) {
      ConditionalMnemonic(g / 2 % 8 - 1);
    } else if g == 14 {
      FixedAt(2 + CpeOp(w));
    } else if g == 15 {
      FixedAt(4 + SysOp(w));
    } else if g == 16 {
      AccessMnemonic(LslOp(w), LslSize(w));
    } else if g == 17 {
      FixedAt(1);
    } else {
      ConditionalMnemonic(ScrOp(w) - 1);
    }
  }

  lemma {:induction false} FixedAt(i: nat)
    requires i < 28
    ensures var s := if i == 0 then "nop" else if i == 1 then "li"
                     else if i < 4 then COPS[i - 2] else if i < 12 then SYSTEMS[i - 4] else STEMS[i - 12];
            FIXED[i] == s && ReadMnemonic(s) == if i == 0 then KNop
                                      else if i == 1 then KLi
                                      else if i < 4 then KCop(i - 2)
                                      else if i < 12 then KSystem(i - 4)
                                      else KAlu(i - 12)
  {
    hide ReadMnemonic;
    FixedMnemonic(i);
  }

  // ---- Reading operands ----

  function ReadRegister(t: string): Instructions.Reg {
    var i := IndexOf(REGISTERS, t, 0);
    if i < 32 then i else 0
  }

  function ReadHex(t: string): Word {
    if |t| >= 2 then Wrap(ValueOf(t[2..], 16)) else 0
  }

  function ReadMode(ts: seq<string>): Option<Mode> {
    if |ts| == 3 then Some(Fixed(ts[1] == "-", ReadHex(ts[2])))
    else if |ts| == 5 && ts[3] == "*" then Some(Scaled(ts[1] == "-", ReadRegister(ts[2]), ReadHex(ts[4]) % 32))
    else if |ts| == 5 then Some(Shifted(ts[1] == "-", ReadRegister(ts[2]), ReadHex(ts[4]) % 32))
    else None
  }

  function ReadAccess(op: int, size: Size, d: string, address: seq<string>): Option<Instr> {
    if address == [] then None
    else
      match ReadMode(address)
      case None => None
      case Some(mode) => Some(LoadStore(op, size, ReadRegister(d), ReadRegister(address[0]), mode))
  }

  function ReadOperands(kind: Kind, ts: seq<string>): Option<Instr> {
    match kind
    case KNop => Some(AluReg(0, 0, 0, 0))
    case KAlu(alu) =>
      if |ts| != 3 then None
      else Some(AluReg(alu, ReadRegister(ts[0]), ReadRegister(ts[1]), ReadRegister(ts[2])))
    case KAluImm(alu, sx) =>
      if |ts| != 2 then None
      else Some(AluImm(alu, ReadRegister(ts[0]), SignExtend16If(ReadHex(ts[1]), sx)))
    case KBranch(cond, link) =>
      if |ts| != 3 then None
      else Some(BranchImm(cond, ReadRegister(ts[0]), ReadRegister(ts[1]), link, ReadHex(ts[2])))
    case KCop(op) =>
      if |ts| != 3 then None
      else if op == 1 then
        Some(CopExchange(op, ValueOf(ts[1], 10), ReadRegister(ts[0]), ValueOf(ts[2], 10)))
      else Some(CopExchange(op, ValueOf(ts[0], 10), ReadRegister(ts[2]), ValueOf(ts[1], 10)))
    case KSystem(op) => if |ts| != 1 then None else Some(System(op, ReadHex(ts[0])))
    case KLi => if |ts| != 2 then None else Some(LoadImm(ReadRegister(ts[0]), ReadHex(ts[1])))
    case KSet(cond) =>
      if |ts| != 3 then None
      else Some(SetCondReg(cond, ReadRegister(ts[0]), ReadRegister(ts[1]), ReadRegister(ts[2])))
    case KAccess(op, size) =>
      if ts == [] then None
      else if op == 1 then ReadAccess(op, size, ts[|ts| - 1], ts[..|ts| - 1])
      else ReadAccess(op, size, ts[0], ts[1..])
    case KUnknown => None
  }

  /** Read a mnemonic and operands back. */
  function ReadText(mnemonic: string, operands: string): Option<Instr> {
    ReadOperands(ReadMnemonic(mnemonic), Tokens(operands))
  }

  /** A number that tells the register names apart. */
  function NameCode(s: string): int {
    if |s| == 2 then 1000 * s[0] as int + s[1] as int
    else if |s| == 3 then 1000_000 + 1000 * s[1] as int + s[2] as int
    else 0
  }

  function RegisterCode(r: Instructions.Reg): int {
    match r
    case 0 => 114_048
    case 1 => 97_116
    case 2 => 97_048
    case 28 => 102_112
    case 29 => 115_112
    case 30 => 108_114
    case 31 => 112_099
    case _ =>
      if r < 13 then 120_048 + (r - 3)
      else if r < 23 then 1049_048 + (r - 13)
      else 1050_048 + (r - 23)
  }

  lemma {:induction false} RegisterCodes(r: Instructions.Reg)
    ensures NameCode(REGISTERS[r]) == RegisterCode(r)
  {
  }

  lemma {:induction false} RegistersDistinct(i: nat, j: nat)
    requires i < j < 32
    ensures REGISTERS[i] != REGISTERS[j]
  {
    RegisterCodes(i);
    RegisterCodes(j);
    hide NameCode, REGISTERS;
  }

  lemma {:induction false} RegisterRoundTrip(r: Instructions.Reg)
    ensures ReadRegister(Reg(r)) == r
  {
    hide REGISTERS;
    assert |REGISTERS| == 32 by { RegisterWords(r); }
    forall i, j | 0 <= i < j < 32
      ensures REGISTERS[i] != REGISTERS[j]
    {
      RegistersDistinct(i, j);
    }
    IndexOfEntry(REGISTERS, r);
  }

  lemma {:induction false} RegisterWords(r: Instructions.Reg)
    ensures |REGISTERS| == 32 && IsWord(Reg(r)) && |Reg(r)| <= 3
  {
  }

  lemma {:induction false} HexRoundTrip(n: Word)
    ensures ReadHex(Hex(n)) == n && IsWord(Hex(n))
    ensures ReadHex(HexPadded(n, 4)) == n && IsWord(HexPadded(n, 4))
    ensures ReadHex(HexPadded(n, 8)) == n && IsWord(HexPadded(n, 8))
  {
    hide ValueOf, Print, PadZero;
    var s := Print(n, 16);
    ValueOfPrint(n, 16);
    PrintIsWord(n, 16);
    PrefixedHex(s, n);
    ValueOfPadded(s, 4, 16);
    PadIsWord(s, 4);
    PrefixedHex(PadZero(s, 4), n);
    ValueOfPadded(s, 8, 16);
    PadIsWord(s, 8);
    PrefixedHex(PadZero(s, 8), n);
  }

  lemma {:induction false} PrefixedHex(s: string, n: Word)
    requires IsWord(s) && ValueOf(s, 16) == n
    ensures ReadHex("0x" + s) == n && IsWord("0x" + s)
  {
    assert ("0x" + s)[2..] == s;
  }

  lemma {:induction false} DecRoundTrip(n: nat)
    ensures ValueOf(Dec(n), 10) == n && IsWord(Dec(n))
  {
    hide ValueOf, Print;
    ValueOfPrint(n, 10);
    PrintIsWord(n, 10);
  }

  // ---- Tokens of the operand formats ----

  lemma {:induction false} Comma(p: string, x: string)
    ensures Tokens(p + ", " + x) == Tokens(p) + Tokens(x)
  {
    TokensConcat(p + ", ", x);
    TokensConcat(p, ", ");
    assert Tokens(", ") == Tokens(" ") == [];
  }

  lemma {:induction false} CommaDollar(p: string, x: string)
    ensures Tokens(p + ", $" + x) == Tokens(p) + Tokens(x)
  {
    TokensConcat(p + ", $", x);
    TokensConcat(p, ", $");
    assert ", $"[1..] == " $" && " $"[1..] == "$";
    assert Tokens(", $") == Tokens(" $") == Tokens("$") == [];
  }

  lemma {:induction false} Dollar(x: string)
    ensures Tokens("$" + x) == Tokens(x)
  {
    TokensConcat("$", x);
    assert Tokens("$") == [];
  }

  predicate IsOp(o: string) {
    |o| == 1 && IsOperator(o[0])
  }

  lemma {:induction false} Operator(p: string, o: string, x: string)
    requires IsOp(o)
    ensures Tokens(p + o + x) == Tokens(p) + [o] + Tokens(x)
  {
    TokensConcat(p + o, x);
    TokensConcat(p, o);
    assert Tokens(o) == [[o[0]]] + Tokens(o[1..]);
    assert [o[0]] == o && o[1..] == [];
  }

  lemma {:induction false} Brackets(p: string)
    ensures Tokens("[" + p) == Tokens(p) && Tokens(p + "]") == Tokens(p)
  {
    TokensConcat("[", p);
    TokensConcat(p, "]");
    assert Tokens("[") == [] && Tokens("]") == [];
  }

  lemma {:induction false} ThreeOperands(a: string, b: string, c: string)
    requires IsWord(a) && IsWord(b) && IsWord(c)
    ensures Tokens(a + ", " + b + ", " + c) == [a, b, c]
    ensures Tokens(a + ", $" + b + ", $" + c) == [a, b, c]
    ensures Tokens("$" + a + ", $" + b + ", " + c) == [a, b, c]
  {
    hide Tokens, IsWord;
    TokensOfWord(a);
    TokensOfWord(b);
    TokensOfWord(c);
    Comma(a, b);
    Comma(a + ", " + b, c);
    CommaDollar(a, b);
    CommaDollar(a + ", $" + b, c);
    Dollar(a);
    CommaDollar("$" + a, b);
    Comma("$" + a + ", $" + b, c);
  }

  lemma {:induction false} TwoOperands(a: string, b: string)
    requires IsWord(a) && IsWord(b)
    ensures Tokens(a + ", " + b) == [a, b]
  {
    hide Tokens, IsWord;
    TokensOfWord(a);
    TokensOfWord(b);
    Comma(a, b);
  }

  lemma {:induction false} IndexedTokens(s0: string, c: string, s1: string, e: string, s2: string)
    requires IsWord(s0) && IsWord(s1) && IsWord(s2) && IsOp(c) && IsOp(e)
    ensures Tokens("[" + s0 + c + s1 + e + s2 + "]") == [s0, c, s1, e, s2]
  {
    hide Tokens, IsWord, IsOp;
    TokensOfWord(s0);
    TokensOfWord(s1);
    TokensOfWord(s2);
    Brackets(s0);
    Operator("[" + s0, c, s1);
    Operator("[" + s0 + c + s1, e, s2);
    Brackets("[" + s0 + c + s1 + e + s2);
  }

  lemma {:induction false} DisplacedTokens(s0: string, c: string, s1: string)
    requires IsWord(s0) && IsWord(s1) && IsOp(c)
    ensures Tokens("[" + s0 + c + s1 + "]") == [s0, c, s1]
  {
    hide Tokens, IsWord, IsOp;
    TokensOfWord(s0);
    TokensOfWord(s1);
    Brackets(s0);
    Operator("[" + s0, c, s1);
    Brackets("[" + s0 + c + s1);
  }

  function AddressTokens(w: Word): seq<string> {
    var m := LslMode(w);
    var sign := if m % 2 == 0 then "+" else "-";
    if m < 4 then [Reg(S0(w)), sign, Reg(S1(w)), if m < 2 then "*" else ":", Hex(S2(w))]
    else [Reg(S0(w)), sign, Hex(FixedDisp(w))]
  }

  lemma {:induction false} TokensOfIndexed(w: Word)
    requires LslMode(w) < 4
    ensures Tokens(AddressText(w)) == AddressTokens(w)
  {
    hide Tokens, Reg, Hex, IsWord, S0, S1, S2;
    var m := LslMode(w);
    var s0, s1, s2 := Reg(S0(w)), Reg(S1(w)), Hex(S2(w));
    RegisterWords(S0(w));
    RegisterWords(S1(w));
    HexRoundTrip(S2(w));
    IndexedTokens(s0, if m % 2 == 0 then "+" else "-", s1, if m < 2 then "*" else ":", s2);
  }

  lemma {:induction false} TokensOfDisplaced(w: Word)
    requires LslMode(w) >= 4
    ensures Tokens(AddressText(w)) == AddressTokens(w)
  {
    hide Tokens, Reg, Hex, IsWord, S0, FixedDisp;
    var s0, disp := Reg(S0(w)), Hex(FixedDisp(w));
    RegisterWords(S0(w));
    HexRoundTrip(FixedDisp(w));
    DisplacedTokens(s0, if LslMode(w) % 2 == 0 then "+" else "-", disp);
  }

  lemma {:induction false} TokensOfAddress(w: Word)
    ensures Tokens(AddressText(w)) == AddressTokens(w)
  {
    hide Tokens, AddressText, AddressTokens;
    if LslMode(w) < 4 {
      TokensOfIndexed(w);
    } else {
      TokensOfDisplaced(w);
    }
  }

  /** The address of a load, store or lea reads back as its base and mode. */
  lemma {:induction false} ModeBelowEight(w: Word)
    ensures 0 <= LslMode(w) < 8
  {
  }

  lemma {:induction false} AddressRoundTrip(w: Word)
    ensures var ts := AddressTokens(w);
            ReadRegister(ts[0]) == S0(w) && ReadMode(ts) == Some(DecodeMode(w))
  {
    ModeBelowEight(w);
    hide Reg, Hex, ReadRegister, ReadHex, S0, S1, S2, FixedDisp, LslMode;
    RegisterRoundTrip(S0(w));
    RegisterRoundTrip(S1(w));
    HexRoundTrip(S2(w));
    HexRoundTrip(FixedDisp(w));
  }

  lemma {:induction false} AccessText(w: Word)
    requires w != 0 && Group(w) == 16
    ensures Operands(w) == if LslOp(w) == 1 then AddressText(w) + ", " + Reg(D(w))
                           else Reg(D(w)) + ", " + AddressText(w)
  {
    hide Reg, AddressText, D, Group, LslOp;
  }

  lemma {:induction false} AccessOperands(w: Word)
    requires w != 0 && Group(w) == 16
    ensures Tokens(Operands(w)) == if LslOp(w) == 1 then AddressTokens(w) + [Reg(D(w))]
                                   else [Reg(D(w))] + AddressTokens(w)
  {
    hide Tokens, Reg, IsWord, AddressText, AddressTokens, D, Operands, Group, LslOp;
    AccessText(w);
    RegisterWords(D(w));
    TokensOfWord(Reg(D(w)));
    TokensOfAddress(w);
    Comma(AddressText(w), Reg(D(w)));
    Comma(Reg(D(w)), AddressText(w));
  }

  lemma {:induction false} AccessRoundTrip(w: Word)
    requires w != 0 && Group(w) == 16
    ensures ReadOperands(KindOf(w), Tokens(Operands(w))) == Some(Decode(w))
  {
    hide Tokens, Reg, Operands, AddressTokens, ReadMode, ReadRegister, D, S0, DecodeMode;
    AccessOperands(w);
    AddressRoundTrip(w);
    RegisterRoundTrip(D(w));
    var at := AddressTokens(w);
    assert at != [] by { SomeTokens(w); }
    if LslOp(w) == 1 {
      var ts := at + [Reg(D(w))];
      assert ts[..|ts| - 1] == at;
    } else {
      var ts := [Reg(D(w))] + at;
      assert ts[1..] == at;
    }
  }

  lemma {:induction false} SomeTokens(w: Word)
    ensures AddressTokens(w) != []
  {
  }

  /** What the operands of the other forms read as. */
  lemma {:induction false} OperandRoundTrip(w: Word)
    requires Covered(w)
    ensures ReadOperands(KindOf(w), Tokens(Operands(w))) == Some(Decode(w))
  {
    hide Tokens, Reg, Hex, HexPadded, Dec, IsWord, ReadRegister, ReadHex, ValueOf, D, S0, S1, FixedDisp,
         BranchDisp, LiValue, AddressText, SignExtend16, AluImm16, CpeCopn, CpeCopr, SysImm24;
    var g := Group(w);
    var d, s0, s1 := Reg(D(w)), Reg(S0(w)), Reg(S1(w));
    RegisterWords(D(w));
    RegisterWords(S0(w));
    RegisterWords(S1(w));
    RegisterRoundTrip(D(w));
    RegisterRoundTrip(S0(w));
    RegisterRoundTrip(S1(w));
    if w == 0 {
      DelayedIsa.ZeroDecodes();
    } else if g == 0 {
      if AluI(w) {
        HexRoundTrip(AluImm16(w));
        TwoOperands(d, HexPadded(AluImm16(w), 4));
      } else {
        ThreeOperands(d, s0, s1);
      }
    } else if IsBranchImm(g) {
      HexRoundTrip(BranchDisp(w));
      ThreeOperands(d, s0, Hex(BranchDisp(w)));
    } else if g == 14 {
      DecRoundTrip(CpeCopn(w));
      DecRoundTrip(CpeCopr(w));
      ThreeOperands(d, Dec(CpeCopn(w)), Dec(CpeCopr(w)));
      ThreeOperands(Dec(CpeCopn(w)), Dec(CpeCopr(w)), d);
    } else if g == 15 {
      HexRoundTrip(SysImm24(w));
      TokensOfWord(Hex(SysImm24(w)));
    } else if g == 16 {
      AccessRoundTrip(w);
    } else if g == 17 {
      HexRoundTrip(LiValue(w));
      TwoOperands(d, HexPadded(LiValue(w), 8));
    } else {
      ThreeOperands(d, s0, s1);
    }
  }

  /** The text of every covered word reads back as the instruction the executor decodes. */
  lemma {:induction false} TextRoundTrip(w: Word)
    requires Covered(w)
    ensures ReadText(Mnemonic(w), Operands(w)) == Some(Decode(w))
  {
    hide Covered, Tokens, Operands, Mnemonic, ReadMnemonic, ReadOperands, Decode, KindOf;
    MnemonicRoundTrip(w);
    OperandRoundTrip(w);
  }

  /** Two covered words with the same mnemonic and operands have the same effect on every state. */
  lemma {:induction false} SameTextSameEffect(v: Word, w: Word, c: Core, bus: Bus)
    requires Covered(v) && Covered(w)
    requires Mnemonic(v) == Mnemonic(w) && Operands(v) == Operands(w)
    ensures Perform(c, bus, v) == Perform(c, bus, w)
  {
    hide Covered, Operands, Mnemonic, ReadText, Decode, Dispatch;
    TextRoundTrip(v);
    TextRoundTrip(w);
  }

  /** Words that are not covered may differ though they print alike: here nothing at all, for a
      coprocessor instruction, which does nothing, and a reserved one, which traps. */
  lemma {:induction false} UncoveredMayDiffer(c: Core, bus: Bus)
    ensures var v: Word, w: Word := 0xf000_0000, 0x800_0000;
            && !Covered(v) && !Covered(w) && Mnemonic(v) == Mnemonic(w) == "" && Operands(v) == Operands(w) == ""
            && Perform(c, bus, v) == Next(SetReg(c, 0, 0), bus, false)
            && Perform(c, bus, w) == Next(SetReg(Raise(c, CAUSE_ILLEGAL_INSTR), 0, 0), bus, FlushOnTransfer(c.cr0))
            && (c.xcause != CAUSE_ILLEGAL_INSTR ==> Perform(c, bus, v) != Perform(c, bus, w))
  {
    var v: Word, w: Word := 0xf000_0000, 0x800_0000;
    assert Group(v) == 30 && Group(w) == 1;
    DecodeNothing(v);
    DecodeIllegal(w);
    hide Decode, FlushOnTransfer, EnableOnTpl1, DisableOnTpl0, RemapOnPlt;
  }

  // ---- Lines ----

  function ByteText(w: Word, shift: nat): string {
    PadZero(Print(Shr(w, shift) % 256, 16), 2) + " "
  }

  /** The first k bytes of the word, highest first. */
  function BytesText(w: Word, k: nat): string
    requires k <= 4
  {
    if k == 0 then "" else BytesText(w, k - 1) + ByteText(w, 32 - 8 * k)
  }

  function AddressColumn(vaddr: Word): string {
    PadZero(Print(vaddr, 16), 8)
  }

  /** Indent, address, opcode bytes, mnemonic and operands; a column of size 0 is left out. */
  function Body(indent: nat, addrMax: nat, opcodeMax: nat, mnemonicMax: nat, vaddr: Word, w: Word): string {
    var opcode := if opcodeMax != 0 then SetSize(BytesText(w, 4), opcodeMax) else "";
    var line := opcode + SetSize(Mnemonic(w), mnemonicMax) + " " + Operands(w);
    Spaces(indent) + (if addrMax != 0 then SetSize(AddressColumn(vaddr) + ":", addrMax) + line else line)
  }

  function SymbolLine(vaddr: Word, name: string): string {
    "\n" + AddressColumn(vaddr) + " " + ("<" + name + ">") + ":\n"
  }

  class Printer {
    var printSymbols: bool
    var mnemonicMax: nat
    var opcodeMax: nat
    var addrMax: nat
    var lineMax: nat
    var lineIndent: nat
    var vaddr: Word
    var mnemonic: string
    var operands: string
    var symbols: map<Word, string>

    /** The default style. */
    constructor ()
      ensures printSymbols && symbols == map[] && vaddr == 0
      ensures mnemonicMax == 8 && opcodeMax == 16 && addrMax == 16 && lineMax == 80 && lineIndent == 4
    {
      printSymbols := true;
      mnemonicMax, opcodeMax, addrMax, lineMax, lineIndent := 8, 16, 16, 80, 4;
      vaddr, mnemonic, operands, symbols := 0, "", "", map[];
    }

    /** The opcode column: the four bytes, highest first. */
    method OpcodeBytes(opcode: Word) returns (text: string)
      ensures text == BytesText(opcode, 4)
    {
      hide PadZero, Print, Shr;
      text := "";
      var shift := 32;
      while shift != 0
        invariant 0 <= shift <= 32 && shift % 8 == 0
        invariant text == BytesText(opcode, (32 - shift) / 8)
      {
        shift := shift - 8;
        var b := Shr(opcode, shift) % 256;
        text := text + (PadZero(Print(b, 16), 2) + " ");
      }
    }

    /** The line of a symbol that is printed widens every later line too. */
    method Disassemble(opcode: Word) returns (line: string)
      modifies this
      ensures mnemonic == SetSize(Mnemonic(opcode), mnemonicMax) && operands == Operands(opcode)
      ensures vaddr == Plus(old(vaddr), 4)
      ensures var heading := if printSymbols && old(vaddr) in symbols
                             then SymbolLine(old(vaddr), symbols[old(vaddr)]) else "";
              lineMax == old(lineMax) + |heading|
              && line == SetSize(heading + Body(lineIndent, addrMax, opcodeMax, mnemonicMax, old(vaddr), opcode),
                                 lineMax)
      ensures unchanged(`printSymbols, `mnemonicMax, `opcodeMax, `addrMax, `lineIndent, `symbols)
    {
      hide Mnemonic, Operands, SetSize, AddressColumn, SymbolLine, BytesText, Spaces, Plus;
      mnemonic := Mnemonic(opcode);
      operands := Operands(opcode);
      var opcodeText := "";
      if opcodeMax != 0 {
        opcodeText := OpcodeBytes(opcode);
        opcodeText := SetSize(opcodeText, opcodeMax);
      }
      mnemonic := SetSize(mnemonic, mnemonicMax);
      line := opcodeText + mnemonic + " " + operands;
      if addrMax != 0 {
        line := SetSize(AddressColumn(vaddr) + ":", addrMax) + line;
      }
      line := Spaces(lineIndent) + line;
      assert line == Body(lineIndent, addrMax, opcodeMax, mnemonicMax, vaddr, opcode);
      if printSymbols && vaddr in symbols {
        var heading := SymbolLine(vaddr, symbols[vaddr]);
        lineMax := lineMax + |heading|;
        line := heading + line;
      } else {
        assert "" + line == line;
      }
      line := SetSize(line, lineMax);
      vaddr := Plus(vaddr, 4);
    }
  }

  // ---- Reading whole lines ----

  function BeforeBlank(s: string): string {
    if s == [] || s[0] == ' ' then "" else [s[0]] + BeforeBlank(s[1..])
  }

  /** Read a line of the default style: mnemonic in columns 36 to 43, operands from 45 on. */
  function ReadLine(line: string): Option<Instr>
    requires |line| == 80
  {
    ReadText(BeforeBlank(line[36..44]), line[45..])
  }

  predicate NoBlank(s: string) {
    forall i :: 0 <= i < |s| ==> s[i] != ' '
  }

  lemma {:induction false} BeforeBlankOf(s: string, n: nat)
    requires NoBlank(s)
    ensures BeforeBlank(s + Spaces(n)) == s
    decreases |s|
  {
    if s == [] {
      assert s + Spaces(n) == Spaces(n);
      if n > 0 {
        SpacesAreBlank(n, 0);
      }
    } else {
      assert (s + Spaces(n))[1..] == s[1..] + Spaces(n);
      BeforeBlankOf(s[1..], n);
    }
  }

  predicate Fits(s: string, n: nat) {
    |s| <= n && NoBlank(s)
  }

  lemma {:induction false} StemsFit(i: nat)
    requires i < 16
    ensures |STEMS| == 16 && Fits(STEMS[i], 4)
  {
  }

  lemma {:induction false} SmallTablesFit(i: nat)
    ensures |CONDS| == 6 && |COPS| == 2 && |SYSTEMS| == 8 && |ACCESSES| == 4 && |SIZES| == 4
    ensures i < 6 ==> Fits(CONDS[i], 2)
    ensures i < 2 ==> Fits(COPS[i], 4)
    ensures i < 8 ==> Fits(SYSTEMS[i], 7)
    ensures i < 4 ==> Fits(ACCESSES[i], 5) && Fits(SIZES[i], 2)
  {
  }

  lemma {:induction false} FitsConcat(s: string, m: nat, t: string, n: nat)
    requires Fits(s, m) && Fits(t, n)
    ensures Fits(s + t, m + n)
  {
  }

  /** Covered mnemonics fit their column and contain no blank. */
  lemma {:induction false} MnemonicFits(w: Word)
    requires Covered(w)
    ensures Fits(Mnemonic(w), 8)
  {
    hide STEMS, CONDS, COPS, SYSTEMS, ACCESSES, SIZES;
    var g := Group(w);
    if w == 0 {
    } else if g == 0 {
      StemsFit(AluOpcode(w));
      FitsConcat(STEMS[AluOpcode(w)], 4, ".s", 2);
      FitsConcat(STEMS[AluOpcode(w)], 4, ".u", 2);
    } else if IsBranchImm(g) {
      SmallTablesFit(g / 2 % 8 - 1);
      FitsConcat("b", 1, CONDS[g / 2 % 8 - 1], 2);
      FitsConcat("bl", 2, CONDS[g / 2 % 8 - 1], 2);
    } else if g == 14 {
      SmallTablesFit(CpeOp(w));
    } else if g == 15 {
      SmallTablesFit(SysOp(w));
    } else if g == 16 {
      SmallTablesFit(LslOp(w));
      SmallTablesFit(LslSize(w));
      FitsConcat(ACCESSES[LslOp(w)], 5, SIZES[LslSize(w)], 2);
    } else if g == 11 {
      SmallTablesFit(ScrOp(w) - 1);
      FitsConcat("s", 1, CONDS[ScrOp(w) - 1], 2);
    }
  }

  lemma {:induction false} RegisterFits(r: Instructions.Reg)
    ensures |Reg(r)| <= 3
  {
  }

  lemma {:induction false} NumberFits(n: Word)
    ensures |Hex(n)| <= 10 && |HexPadded(n, 4)| <= 10 && |HexPadded(n, 8)| <= 10
    ensures |Dec(n)| <= 10 && |PadZero(Print(n, 16), 8)| == 8
  {
    hide Print, PadZero;
    assert Power(16, 8) == 0x1_0000_0000 && Power(10, 10) >= 0x1_0000_0000 by { PowerValues(); }
    PrintLength(n, 16, 8);
    PrintLength(n, 10, 10);
    PadLength(Print(n, 16), 4);
    PadLength(Print(n, 16), 8);
  }

  lemma {:induction false} PowerValues()
    ensures Power(16, 8) == 0x1_0000_0000 && Power(10, 10) == 100_0000_0000 && Power(16, 2) == 256
  {
    assert Power(16, 4) == 0x1_0000;
    assert Power(10, 5) == 10_0000;
  }

  lemma {:induction false} PadLength(s: string, width: nat)
    ensures |PadZero(s, width)| == if |s| >= width then |s| else width
    decreases width - |s|
  {
    if |s| >= width {
    } else {
      PadLength("0" + s, width);
    }
  }

  lemma {:induction false} AddressFits(w: Word)
    ensures |AddressText(w)| <= 20
  {
    hide Hex, Reg, S0, S1, S2, FixedDisp;
    RegisterFits(S0(w));
    RegisterFits(S1(w));
    NumberFits(S2(w));
    NumberFits(FixedDisp(w));
  }

  /** Operands leave room in a line of 80. */
  lemma {:induction false} OperandsFit(w: Word)
    ensures |Operands(w)| <= 35
  {
    hide Hex, HexPadded, Dec, Reg, D, S0, S1, FixedDisp, BranchDisp, LiValue, AddressText, AluImm16, SysImm24,
         CpeCopn, CpeCopr;
    RegisterFits(D(w));
    RegisterFits(S0(w));
    RegisterFits(S1(w));
    AddressFits(w);
    NumberFits(AluImm16(w));
    NumberFits(BranchDisp(w));
    NumberFits(LiValue(w));
    NumberFits(SysImm24(w));
    NumberFits(CpeCopn(w) % 0x400);
    NumberFits(CpeCopr(w) % 0x400);
    CopFields(w);
  }

  lemma {:induction false} CopFields(w: Word)
    ensures CpeCopn(w) % 0x400 == CpeCopn(w) && CpeCopr(w) % 0x400 == CpeCopr(w)
  {
  }

  lemma {:induction false} OpcodeColumn(w: Word)
    ensures |BytesText(w, 4)| == 12
  {
    hide Print, PadZero, Shr;
    ByteColumn(w, 24);
    ByteColumn(w, 16);
    ByteColumn(w, 8);
    ByteColumn(w, 0);
    assert BytesText(w, 1) == "" + ByteText(w, 24);
    assert BytesText(w, 2) == BytesText(w, 1) + ByteText(w, 16);
    assert BytesText(w, 3) == BytesText(w, 2) + ByteText(w, 8);
  }

  lemma {:induction false} ByteColumn(w: Word, shift: nat)
    ensures |ByteText(w, shift)| == 3
  {
    hide Print, PadZero, Shr;
    var b := Shr(w, shift) % 256;
    assert Power(16, 2) == 256 by { PowerValues(); }
    PrintLength(b, 16, 2);
    PadLength(Print(b, 16), 2);
  }

  /** A line of the default style without a symbol. */
  function DefaultLine(vaddr: Word, w: Word): string {
    SetSize("" + Body(4, 16, 16, 8, vaddr, w), 80)
  }

  function FrontColumns(vaddr: Word, w: Word): string {
    Spaces(4) + SetSize(AddressColumn(vaddr) + ":", 16) + SetSize(BytesText(w, 4), 16)
  }

  function OperandColumn(w: Word): (s: string)
    ensures |s| == 35
  {
    OperandsFit(w);
    Operands(w) + Spaces(35 - |Operands(w)|)
  }

  lemma {:induction false} DefaultColumns(vaddr: Word, w: Word)
    ensures |FrontColumns(vaddr, w)| == 36 && |SetSize(Mnemonic(w), 8)| == 8
    ensures DefaultLine(vaddr, w) == FrontColumns(vaddr, w) + SetSize(Mnemonic(w), 8) + " " + OperandColumn(w)
  {
    hide Mnemonic, Operands, BytesText, AddressColumn, Spaces;
    SetSizeLength(Mnemonic(w), 8);
    OpcodeColumn(w);
    AddressWidth(vaddr);
    var front, m := FrontColumns(vaddr, w), SetSize(Mnemonic(w), 8);
    BodyColumns(vaddr, w);
    hide FrontColumns, Body, SetSize;
    OperandsFit(w);
    FilledLine(front, m, Operands(w));
  }

  lemma {:induction false} BodyColumns(vaddr: Word, w: Word)
    ensures Body(4, 16, 16, 8, vaddr, w) == FrontColumns(vaddr, w) + SetSize(Mnemonic(w), 8) + " " + Operands(w)
  {
    hide Mnemonic, Operands, BytesText, AddressColumn, Spaces, SetSize;
  }

  lemma {:induction false} FilledLine(front: string, m: string, operands: string)
    requires |front| == 36 && |m| == 8 && |operands| <= 35
    ensures SetSize("" + (front + m + " " + operands), 80) == front + m + " " + (operands + Spaces(35 - |operands|))
  {
    hide Spaces;
    var b := front + m + " " + operands;
    assert "" + b == b && |b| == 45 + |operands|;
  }

  lemma {:induction false} Slices(front: string, m: string, rest: string)
    requires |front| == 36 && |m| == 8 && |rest| == 35
    ensures var line := front + m + " " + rest;
            |line| == 80 && line[36..44] == m && line[45..] == rest
  {
  }

  lemma {:induction false} AddressWidth(vaddr: Word)
    ensures |AddressColumn(vaddr)| == 8
  {
    NumberFits(vaddr);
  }

  /** Reading a printed line of a covered word gives the instruction the executor decodes. */
  lemma {:induction false} LineRoundTrip(vaddr: Word, w: Word)
    requires Covered(w)
    ensures |DefaultLine(vaddr, w)| == 80 && ReadLine(DefaultLine(vaddr, w)) == Some(Decode(w))
  {
    hide DefaultLine, Covered, Mnemonic, Operands, Decode, Tokens, ReadMnemonic, ReadOperands, BeforeBlank,
         FrontColumns;
    DefaultColumns(vaddr, w);
    Slices(FrontColumns(vaddr, w), SetSize(Mnemonic(w), 8), OperandColumn(w));
    MnemonicFits(w);
    OperandsFit(w);
    BeforeBlankOf(Mnemonic(w), 8 - |Mnemonic(w)|);
    TokensOfPadding(Operands(w), 35 - |Operands(w)|);
    TextRoundTrip(w);
  }

  /** Covered words whose printed lines agree, at whatever addresses their text is compared, have
      the same effect on every state. */
  lemma {:induction false} SameLineSameEffect(a: Word, v: Word, b: Word, w: Word, c: Core, bus: Bus)
    requires Covered(v) && Covered(w)
    requires DefaultLine(a, v)[36..] == DefaultLine(b, w)[36..]
    ensures Perform(c, bus, v) == Perform(c, bus, w)
  {
    hide DefaultLine, Covered, Decode, Dispatch, ReadText;
    LineRoundTrip(a, v);
    LineRoundTrip(b, w);
    var x, y := DefaultLine(a, v), DefaultLine(b, w);
    assert x[36..44] == x[36..][..8] && y[36..44] == y[36..][..8];
    assert x[45..] == x[36..][9..] && y[45..] == y[36..][9..];
  }
}
