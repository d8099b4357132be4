/** What one instruction does to the architectural state, and the cycle of the
    three-word prefetch pipeline around it. */
module Execute {
  import opened Words
  import opened Alu
  import opened Core
  import opened Mmu
  import opened Instructions

  /** `flush` says whether the pipeline was zeroed. `Undefined` marks what C++ leaves
      undefined, `Halt` the debug exit with its status. */
  datatype Effect =
    | Next(core: Core, bus: Bus, flush: bool)
    | Halt(status: Word)
    | Undefined

  function SetReg(c: Core, d: Reg, v: Word): Core {
    c.(r := c.r[d := v])
  }

  /** Write a register; writing the program counter flushes. */
  function WriteBack(c: Core, bus: Bus, d: Reg, v: Word): Effect {
    Next(SetReg(c, d, v), bus, d == PC && FlushOnTransfer(c.cr0))
  }

  function Jump(c: Core, bus: Bus, target: Word): Effect {
    Next(SetPc(c, target), bus, FlushOnTransfer(c.cr0))
  }

  function Trap(c: Core, bus: Bus, cause: Word): Effect {
    Next(Raise(c, cause), bus, FlushOnTransfer(c.cr0))
  }

  // ---- Coprocessor registers ----

  datatype CopReg = Cr0 | Cr1 | XCause | XHAddr | Xpc | Ctrl | Msel
                  | MapWord(index: nat) | NoCopReg

  /** Register copr of coprocessor copn. The map window holds 512 words from the selected map. */
  function CopRegister(msel: Word, copn: int, copr: int): CopReg {
    if copn == 0 then
      match copr
      case 0 => Cr0
      case 1 => Cr1
      case 2 => XCause
      case 3 => XHAddr
      case 4 => Xpc
      case _ => NoCopReg
    else if copn == 4 then
      if copr == 0 then Ctrl
      else if copr == 1 then Msel
      else if 0x10 <= copr < 0x10 + 512 then MapWord(128 * msel + (copr - 0x10))
      else NoCopReg
    else NoCopReg
  }

  function EntryWord(e: Entry, f: int): Word {
    match f
    case 0 => e.paddr
    case 1 => e.vaddr
    case 2 => e.size
    case _ => e.attr
  }

  function SetEntryWord(e: Entry, f: int, v: Word): Entry {
    match f
    case 0 => e.(paddr := v)
    case 1 => e.(vaddr := v)
    case 2 => e.(size := v)
    case _ => e.(attr := v)
  }

  function ReadCop(c: Core, reg: CopReg): Option<Word> {
    match reg
    case Cr0 => Some(c.cr0)
    case Cr1 => Some(c.cr1)
    case XCause => Some(c.xcause)
    case XHAddr => Some(c.xhaddr)
    case Xpc => Some(c.xpc)
    case Ctrl => Some(c.ctrl)
    case Msel => Some(c.msel)
    case MapWord(i) => if i < 512 then Some(EntryWord(c.maps[i / 4], i % 4)) else None
    case NoCopReg => None
  }

  function WriteCop(c: Core, reg: CopReg, v: Word): Option<Core> {
    match reg
    case Cr0 => Some(c.(cr0 := v))
    case Cr1 => Some(c.(cr1 := v))
    case XCause => Some(c.(xcause := v))
    case XHAddr => Some(c.(xhaddr := v))
    case Xpc => Some(c.(xpc := v))
    case Ctrl => Some(c.(ctrl := v))
    case Msel => Some(c.(msel := v))
    case MapWord(i) =>
      if i < 512 then Some(c.(maps := c.maps[i / 4 := SetEntryWord(c.maps[i / 4], i % 4, v)]))
      else None
    case NoCopReg => None
  }

  // ---- Instructions ----

  function Exchange(c: Core, bus: Bus, op: int, copn: int, d: Reg, copr: int): Effect {
    var reg := CopRegister(c.msel, copn, copr);
    if op != 0 && op != 1 then Undefined
    else if reg == NoCopReg then Trap(c, bus, CAUSE_INVALID_COPX)
    else if op == 0 then
      match WriteCop(c, reg, c.r[d])
      case None => Undefined
      case Some(c') => Next(c', bus, d == PC && FlushOnTransfer(c'.cr0))
    else
      match ReadCop(c, reg)
      case None => Undefined
      case Some(v) => WriteBack(c, bus, d, v)
  }

  const DEBUG_EXIT: Word := 0xad_c0de

  function DoSystem(c: Core, bus: Bus, op: int, imm: Word): Effect {
    match op
    case 0 => Trap(c, bus, Or32(CAUSE_SYSCALL, Wrap(imm * 0x100)))
    case 1 => Trap(c, bus, CAUSE_TPL0)
    case 2 => Trap(c, bus, CAUSE_TPL0 + 1)
    case 3 => Trap(c, bus, CAUSE_TPL0 + 2)
    case 4 => Trap(c, bus, CAUSE_TPL0 + 3)
    case 5 =>
      if imm == DEBUG_EXIT then Halt(c.r[2])
      else Trap(c, bus, Or32(CAUSE_DEBUG, Wrap(imm * 0x100)))
    case 6 => Trap(c, bus, Or32(CAUSE_SEXCEPT, Wrap(imm * 0x100)))
    case _ => Next(SysReturn(c), bus, false)
  }

  /** sysret sets the program counter without flushing. */
  function SysReturn(c: Core): Core {
    var u := PrivilegeDown(c);
    SetPc(u, u.xpc)
  }

  function Offset(base: Word, sub: bool, x: int): Word {
    if sub then Plus(base, -x) else Plus(base, x)
  }

  function Address(c: Core, s0: Reg, mode: Mode): Word {
    match mode
    case Scaled(sub, s1, s2) => Offset(c.r[s0], sub, Times(c.r[s1], s2))
    case Shifted(sub, s1, s2) => Offset(c.r[s0], sub, Shl(c.r[s1], s2))
    case Fixed(sub, disp) => Offset(c.r[s0], sub, disp)
  }

  /** A faulting load still writes its destination. */
  function DoLoad(c: Core, bus: Bus, d: Reg, addr: Word, size: Size): Effect {
    var a := Read(c, bus, addr, size);
    match a.value
    case None => Undefined
    case Some(v) =>
      Next(SetReg(RaiseAll(c, a.causes), d, v), bus,
           (a.causes != [] || d == PC) && FlushOnTransfer(c.cr0))
  }

  function DoStore(c: Core, bus: Bus, d: Reg, addr: Word, size: Size): Effect {
    var a := Write(c, bus, addr, c.r[d], size);
    match a.bus
    case None => Undefined
    case Some(bus') =>
      Next(RaiseAll(c, a.causes), bus', a.causes != [] && FlushOnTransfer(c.cr0))
  }

  function DoLoadStore(c: Core, bus: Bus, op: int, size: Size, d: Reg, s0: Reg, mode: Mode): Effect {
    var addr := Address(c, s0, mode);
    match op
    case 0 => DoLoad(c, bus, d, addr, size)
    case 1 => DoStore(c, bus, d, addr, size)
    case 2 => WriteBack(c, bus, d, addr)
    case _ => Next(c, bus, false)
  }

  function DoBranch(c: Core, bus: Bus, taken: bool, link: bool, target: Word): Effect {
    if !taken then Next(c, bus, false)
    else Jump(if link then SetReg(c, LR, c.r[PC]) else c, bus, target)
  }

  function Bool(b: bool): Word { if b then 1 else 0 }

  /** The switch of `hv2_execute`. Set-if-cond-immediate compares the register number. */
  function Dispatch(c: Core, bus: Bus, i: Instr): Effect
  {
    match i
    case AluReg(op, d, s0, s1) =>
      (match Operate(op, c.r[d], c.r[s0], c.r[s1])
       case None => Undefined
       case Some(v) => WriteBack(c, bus, d, v))
    case AluImm(op, d, imm) =>
      (match Operate(op, c.r[d], c.r[d], imm)
       case None => Undefined
       case Some(v) => WriteBack(c, bus, d, v))
    case BranchImm(cond, d, s0, link, disp) =>
      DoBranch(c, bus, Holds(cond, c.r[d], c.r[s0]), link, Plus(c.r[PC], disp))
    case BranchReg(entry, d, s0, s1, relative) =>
      if entry < 0 || entry >= 6 then Undefined
      else DoBranch(c, bus, Holds(entry, c.r[d], c.r[s0]), false,
                    if relative then Plus(c.r[PC], c.r[s1]) else c.r[s1])
    case CopExchange(op, copn, d, copr) => Exchange(c, bus, op, copn, d, copr)
    case CopInstr => Next(c, bus, false)
    case System(op, imm) => DoSystem(c, bus, op, imm)
    case LoadStore(op, size, d, s0, mode) => DoLoadStore(c, bus, op, size, d, s0, mode)
    case LoadImm(d, value) => WriteBack(c, bus, d, value)
    case SetCondImm(cond, d, s0, imm) => WriteBack(c, bus, d, Bool(Holds(cond, s0, imm)))
    case SetCondReg(entry, d, s0, s1) =>
      if entry < 0 || entry >= 6 then Undefined
      else WriteBack(c, bus, d, Bool(Holds(entry, c.r[s0], c.r[s1])))
    case Illegal => Trap(c, bus, CAUSE_ILLEGAL_INSTR)
  }

  /** `hv2_execute` on the word in the last pipeline slot. */
  function Perform(c: Core, bus: Bus, w: Word): Effect {
    match Dispatch(c, bus, Decode(w))
    case Next(c', bus', flush) => Next(SetReg(c', 0, 0), bus', flush)
    case Halt(status) => Halt(status)
    case Undefined => Undefined
  }

  // ---- The pipelined machine ----

  datatype Machine = Machine(core: Core, bus: Bus, p0: Word, p1: Word, p2: Word)

  datatype Outcome = Running(m: Machine) | Halted(status: Word) | Broken

  function Advance(c: Core): Core {
    SetPc(c, Plus(c.r[PC], 4))
  }

  /** The processor half of `hv2_cycle` after the fetch: p0 and p1 are the prefetched words,
      w the word to execute. */
  function Retire(c: Core, bus: Bus, p0: Word, p1: Word, w: Word): Outcome {
    match Perform(c, bus, w)
    case Next(c', bus', true) => Running(Machine(c', bus', 0, 0, 0))
    case Next(c', bus', false) => Running(Machine(c', bus', p0, p1, w))
    case Halt(status) => Halted(status)
    case Undefined => Broken
  }

  /** `hv2_cycle`: shift the pipeline, fetch at r31, add four, execute. A fetch that faults
      flushes before the fetched value is stored. */
  function Cycle(m: Machine): Outcome {
    var f := Read(m.core, m.bus, m.core.r[PC], EXEC);
    match f.value
    case None => Broken
    case Some(v) =>
      var c := Advance(RaiseAll(m.core, f.causes));
      if f.causes != [] && FlushOnTransfer(m.core.cr0) then Retire(c, m.bus, v, 0, 0)
      else Retire(c, m.bus, v, m.p0, m.p1)
  }

  function Cycles(m: Machine, n: nat): Outcome
    decreases n
  {
    if n == 0 then Running(m)
    else
      match Cycle(m)
      case Running(m') => Cycles(m', n - 1)
      case other => other
  }
}
