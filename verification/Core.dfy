/** The architectural state of the processor without its pipeline, the four privilege
    levels, and exceptions. */
module Core {
  import opened Words

  type Level = l: int | 0 <= l <= 3

  datatype Entry = Entry(paddr: Word, vaddr: Word, size: Word, attr: Word)

  type Registers = s: seq<Word> | |s| == 32 witness seq(32, _ => 0)

  /** Four maps of 32 entries each, in memory order. */
  type Maps = s: seq<Entry> | |s| == 128 witness seq(128, _ => Entry(0, 0, 0, 0))

  datatype Core = Core(
    r: Registers,
    pl: Level,
    cr0: Word,
    cr1: Word,
    xpc: Word,
    xcause: Word,
    xhaddr: Word,
    ctrl: Word,
    msel: Word,
    cmap: Level,
    maps: Maps
  )

  const PC := 31
  const LR := 30

  const CAUSE_SYSCALL: Word := 0x40_0000
  const CAUSE_DEBUG: Word := 0x40_0001
  const CAUSE_SEXCEPT: Word := 0x40_0002
  const CAUSE_TPL0: Word := 0x40_0003
  const CAUSE_ILLEGAL_INSTR: Word := 0x40_0007
  const CAUSE_INVALID_COPX: Word := 0x40_0008
  const CAUSE_MMU_NOMAP: Word := 0x80_0000
  const CAUSE_MMU_PROT_READ: Word := 0x80_0001
  const CAUSE_MMU_PROT_EXEC: Word := 0x80_0003
  const CAUSE_MMU_XALIGN: Word := 0x80_0004
  const CAUSE_MMU_RWALIGN: Word := 0x80_0005
  const CAUSE_RESET: Word := 0xff48_5632

  // ---- Control bits ----

  /** COP0 CR0 bit 3: flush the pipeline on a flow transfer. */
  predicate FlushOnTransfer(cr0: Word) { cr0 / 8 % 2 == 1 }

  predicate Enabled(ctrl: Word) { ctrl % 2 == 1 }
  predicate AlignChecked(ctrl: Word) { ctrl / 0x800 % 2 == 1 }
  predicate EnableOnTpl1(ctrl: Word) { ctrl / 0x1000 % 2 == 1 }
  predicate DisableOnTpl0(ctrl: Word) { ctrl / 0x2000 % 2 == 1 }
  predicate RemapOnPlt(ctrl: Word) { ctrl / 0x4000 % 2 == 1 }

  function SetEnable(ctrl: Word): Word { ctrl - ctrl % 2 + 1 }
  function ClearEnable(ctrl: Word): Word { ctrl - ctrl % 2 }

  /** The arithmetic above is what the masks of the source compute. */
  lemma {:induction false} ControlBitsAreMasks(w: Word)
    ensures FlushOnTransfer(w) <==> BitAnd(w, 0x8) != 0
    ensures Enabled(w) <==> BitAnd(w, 0x1) != 0
    ensures AlignChecked(w) <==> BitAnd(w, 0x800) != 0
    ensures EnableOnTpl1(w) <==> BitAnd(w, 0x1000) != 0
    ensures DisableOnTpl0(w) <==> BitAnd(w, 0x2000) != 0
    ensures RemapOnPlt(w) <==> BitAnd(w, 0x4000) != 0
    ensures SetEnable(w) == BitOr(w, 0x1)
    ensures ClearEnable(w) == BitAnd(w, BitNot(0x1))
  {
    hide BitAnd, BitOr, Pow2;
    Pow2Values();
    OneBitMask(w, 0);
    OneBitMask(w, 3);
    OneBitMask(w, 11);
    OneBitMask(w, 12);
    OneBitMask(w, 13);
    OneBitMask(w, 14);
    ClearingMask(w, 0, 32);
  }

  // ---- Privilege ----

  /** What entering level `pl` does to the level, the MMU enable bit and the current map. */
  function Transition(c: Core, pl: Level): Core {
    var c1 := c.(pl := pl);
    var c2 := if pl == 0 && DisableOnTpl0(c1.ctrl) then c1.(ctrl := ClearEnable(c1.ctrl)) else c1;
    var c3 := if pl == 1 && EnableOnTpl1(c2.ctrl) then c2.(ctrl := SetEnable(c2.ctrl)) else c2;
    if RemapOnPlt(c3.ctrl) then c3.(cmap := pl) else c3
  }

  function PrivilegeUp(c: Core): Core {
    if c.pl == 0 then c else Transition(c, c.pl - 1)
  }

  function PrivilegeDown(c: Core): Core {
    if c.pl == 3 then c else Transition(c, c.pl + 1)
  }

  // ---- Exceptions ----

  function SetPc(c: Core, pc: Word): Core {
    c.(r := c.r[PC := pc])
  }

  /** Everything an exception does except flushing the pipeline. */
  function Raise(c: Core, cause: Word): Core {
    var u := PrivilegeUp(c);
    SetPc(u.(xcause := cause, xpc := u.r[PC]), u.xhaddr)
  }

  function RaiseAll(c: Core, causes: seq<Word>): Core
    decreases |causes|
  {
    if causes == [] then c else RaiseAll(Raise(c, causes[0]), causes[1..])
  }

  /** The state `hv2_reset` leaves. */
  function Reset(): Core {
    Core(seq(32, _ => 0), 0, 0, 0, 0, CAUSE_RESET, 0, 0, 0, 0, seq(128, _ => Entry(0, 0, 0, 0)))
  }
}
