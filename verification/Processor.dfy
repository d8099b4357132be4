/** The emulator as it runs: a processor object whose methods update registers, pipeline,
    control registers and device buffers in place. Every method is proved against the
    functions of the other modules, up to `Cycle` against `Execute.Cycle`. */
module Processor {
  import opened Words
  import opened Alu
  import opened Core
  import C = Core
  import opened Mmu
  import opened Instructions
  import opened Execute
  import X = Execute

  function Join(b0: int, b1: int, b2: int, b3: int): int {
    b0 + 0x100 * b1 + 0x1_0000 * b2 + 0x100_0000 * b3
  }

  /** RAM, BIOS RAM and video RAM are writable; the BIOS ROM ignores writes. */
  class MmioDevice {
    const base: Word
    const writable: bool
    const buf: array<Byte>

    constructor (base: Word, buf: array<Byte>, writable: bool)
      ensures this.base == base && this.buf == buf && this.writable == writable
    {
      this.base, this.buf, this.writable := base, buf, writable;
    }

    ghost predicate Valid() {
      buf.Length < 0x1_0000_0000
    }

    ghost function Value(): Device
      reads buf
      requires Valid()
    {
      Device(base, buf[..], writable)
    }

    predicate Covers(addr: Word) {
      base <= addr < Wrap(base + buf.Length)
    }

    method Read(addr: Word, size: Size) returns (v: Option<Word>)
      requires Valid() && Value().Covers(addr)
      ensures v == DeviceRead(Value(), addr, size)
    {
      hide Little, Wrap;
      var i := addr - base;
      if i + 4 > buf.Length {
        return None;
      }
      LittleIsFour(buf[..], i);
      var w := Join(buf[i], buf[i + 1], buf[i + 2], buf[i + 3]);
      return Some(if size == BYTE then w % 0x100 else if size == SHORT then w % 0x1_0000 else w);
    }

    /** Answers false where C++ would write past the end. */
    method Write(addr: Word, value: Word, size: Size) returns (ok: bool)
      requires Valid() && Value().Covers(addr)
      modifies buf
      ensures ok == DeviceWrite(old(Value()), addr, value, size).Some?
      ensures Value() == if ok then DeviceWrite(old(Value()), addr, value, size).value else old(Value())
    {
      hide Wrap;
      if !writable {
        return true;
      }
      var i := addr - base;
      if i + Width(size) > buf.Length {
        return false;
      }
      ok := true;
      StoreSteps(buf[..], i, value, Width(size));
      if size == BYTE {
        buf[i] := value % 0x100;
      } else if size == SHORT {
        buf[i], buf[i + 1] := value % 0x100, value / 0x100 % 0x100;
      } else {
        buf[i], buf[i + 1] := value % 0x100, value / 0x100 % 0x100;
        buf[i + 2], buf[i + 3] := value / 0x1_0000 % 0x100, value / 0x100_0000;
      }
    }
  }

  lemma {:induction false} LittleIsFour(b: seq<Byte>, i: nat)
    requires i + 4 <= |b|
    ensures LittleWord(b, i) == Join(b[i], b[i + 1], b[i + 2], b[i + 3])
  {
    assert Little(b, i, 4) == b[i] + 256 * Little(b, i + 1, 3);
    assert Little(b, i + 1, 3) == b[i + 1] + 256 * Little(b, i + 2, 2);
    assert Little(b, i + 2, 2) == b[i + 2] + 256 * Little(b, i + 3, 1);
    assert Little(b, i + 3, 1) == b[i + 3] + 256 * Little(b, i + 4, 0);
  }

  /** Storing one, two or four bytes as single assignments. */
  lemma {:induction false} StoreSteps(b: seq<Byte>, i: nat, v: Word, n: nat)
    requires i + n <= |b| && (n == 1 || n == 2 || n == 4)
    ensures Store(b, i, v, n) ==
              if n == 1 then b[i := v % 256]
              else if n == 2 then b[i := v % 256][i + 1 := v / 256 % 256]
              else b[i := v % 256][i + 1 := v / 256 % 256][i + 2 := v / 0x1_0000 % 256][i + 3 := v / 0x100_0000]
  {
    var b1 := b[i := v % 256];
    assert Store(b, i, v, n) == Store(b1, i + 1, v / 256, n - 1);
    if n >= 2 {
      var b2 := b1[i + 1 := v / 256 % 256];
      assert Store(b1, i + 1, v / 256, n - 1) == Store(b2, i + 2, v / 256 / 256, n - 2);
      if n == 4 {
        var x := v / 256 / 256;
        assert x == v / 0x1_0000;
        var b3 := b2[i + 2 := x % 256];
        assert Store(b2, i + 2, x, 2) == Store(b3, i + 3, x / 256, 1);
        assert Store(b3, i + 3, x / 256, 1) == Store(b3[i + 3 := x / 256 % 256], i + 4, x / 256 / 256, 0);
        assert x / 256 == v / 0x100_0000;
      }
    }
  }

  datatype Status = Fine | Exited(code: Word) | Undef

  lemma {:induction false} RaiseAllSteps(c: Core, causes: seq<Word>, cause: Word)
    ensures RaiseAll(c, []) == c && RaiseAll(c, [cause]) == Raise(c, cause)
    ensures RaiseAll(c, causes + [cause]) == Raise(RaiseAll(c, causes), cause)
    decreases |causes|
  {
    hide Raise;
    assert [cause][1..] == [];
    if causes == [] {
      assert causes + [cause] == [cause];
    } else {
      assert (causes + [cause])[1..] == causes[1..] + [cause];
      RaiseAllSteps(Raise(c, causes[0]), causes[1..], cause);
    }
  }

  lemma {:induction false} RaiseAllKeepsCr0(c: Core, causes: seq<Word>)
    ensures RaiseAll(c, causes).cr0 == c.cr0
    decreases |causes|
  {
    if causes == [] {
    } else {
      RaiseAllKeepsCr0(Raise(c, causes[0]), causes[1..]);
    }
  }

  lemma {:induction false} RaiseKeepsCr0(c: Core, cause: Word)
    ensures Raise(c, cause).cr0 == c.cr0
  {
  }

  /** At most one alignment exception is raised. */
  lemma {:induction false} AlignOnce(c: Core, phys: Word, size: Size)
    ensures AlignCauses(c, phys, size) ==
              if size == EXEC && phys % 4 != 0 then [CAUSE_MMU_XALIGN]
              else if size == LONG && AlignChecked(c.ctrl) && phys % 4 != 0 then [CAUSE_MMU_RWALIGN]
              else if size == SHORT && AlignChecked(c.ctrl) && phys % 2 != 0 then [CAUSE_MMU_RWALIGN]
              else []
    ensures [] + AlignCauses(c, phys, size) == AlignCauses(c, phys, size)
  {
    hide AlignChecked;
    var x: seq<Word> := [CAUSE_MMU_RWALIGN];
    assert [] + x == x && x + [] == x;
  }

  type Pipeline = s: seq<Word> | |s| == 3 witness [0, 0, 0]

  const EMPTY: Pipeline := [0, 0, 0]

  /** What `hv2_flush(cpu, d)` leaves in the pipeline. */
  function Flushed(p: Pipeline, transfer: bool, cr0: Word): Pipeline {
    if transfer && FlushOnTransfer(cr0) then EMPTY else p
  }

  /** What clearing r0 makes of the effect of an instruction. */
  function Cleared(e: Effect): Effect {
    match e
    case Next(c, bus, flush) => Next(SetReg(c, 0, 0), bus, flush)
    case other => other
  }

  lemma {:induction false} PerformClears(c: Core, bus: Bus, w: Word)
    ensures Perform(c, bus, w) == Cleared(Dispatch(c, bus, Decode(w)))
  {
    hide Dispatch, Decode;
  }

  class Hv2 {
    const r: array<Word>
    const pipeline: array<Word>
    const maps: array<Entry>
    var pl: Level
    var cr0: Word
    var cr1: Word
    var xpc: Word
    var xcause: Word
    var xhaddr: Word
    var ctrl: Word
    var msel: Word
    var cmap: Level
    var devices: seq<MmioDevice>

    /** `hv2_reset`: everything zero but the cause, and no devices. */
    constructor ()
      ensures Valid() && State() == Reset() && Slots() == EMPTY && devices == []
      ensures fresh(r) && fresh(pipeline) && fresh(maps)
      ensures xcause == 0xff48_5632 && cr0 == cr1 == xpc == xhaddr == ctrl == msel == 0 && pl == cmap == 0
      ensures (forall i :: 0 <= i < 32 ==> r[i] == 0) && forall i :: 0 <= i < 128 ==> maps[i] == Entry(0, 0, 0, 0)
    {
      r := new Word[32](_ => 0);
      pipeline := new Word[3](_ => 0);
      maps := new Entry[128](_ => Entry(0, 0, 0, 0));
      pl, cr0, cr1, xpc, xcause, xhaddr := 0, 0, 0, 0, CAUSE_RESET, 0;
      ctrl, msel, cmap, devices := 0, 0, 0, [];
      new;
      assert r[..] == seq(32, _ => 0);
      assert maps[..] == seq(128, _ => Entry(0, 0, 0, 0));
    }

    /** The arrays have their sizes, and no two devices share a buffer. */
    ghost predicate Valid()
      reads this`devices
    {
      && r.Length == 32 && pipeline.Length == 3 && maps.Length == 128
      && r != pipeline
      && (forall d :: d in devices ==> d.Valid() && Apart(d))
      && (forall i, j :: 0 <= i < j < |devices| ==> devices[i].buf != devices[j].buf)
    }

    ghost predicate Apart(d: MmioDevice) {
      var b: object := d.buf;
      b != r && b != pipeline && b != maps && b != this
    }

    ghost function Buffers(): set<object>
      reads this`devices
    {
      set d | d in devices :: d.buf
    }

    /** Everything but the pipeline. */
    ghost function State(): Core
      reads this, r, maps
      requires Valid()
    {
      Core(r[..], pl, cr0, cr1, xpc, xcause, xhaddr, ctrl, msel, cmap, maps[..])
    }

    lemma {:induction false} StateFields()
      requires Valid()
      ensures State().r == r[..] && State().cr0 == cr0 && State().msel == msel && State().xpc == xpc
    {
    }

    ghost function Slots(): Pipeline
      reads this`devices, pipeline
      requires Valid()
    {
      pipeline[..]
    }

    ghost function Memory(): (b: Bus)
      reads this`devices, Buffers()
      requires Valid()
      ensures |b| == |devices| && forall i :: 0 <= i < |b| ==> b[i] == devices[i].Value()
    {
      var ds := devices;
      seq(|ds|, i requires 0 <= i < |ds| && ds[i].Valid() reads set d | d in ds :: d.buf => ds[i].Value())
    }

    // ---- Flushing, privilege, exceptions ----

    method Flush(d: Reg)
      requires Valid()
      modifies pipeline
      ensures Valid() && Slots() == Flushed(old(Slots()), d == PC, cr0)
    {
      if d == PC && FlushOnTransfer(cr0) {
        pipeline[0] := 0;
        pipeline[1] := 0;
        pipeline[2] := 0;
      }
    }

    method PrivilegeUp()
      requires Valid()
      modifies this`pl, this`ctrl, this`cmap
      ensures Valid() && State() == C.PrivilegeUp(old(State()))
    {
      hide DisableOnTpl0, EnableOnTpl1, RemapOnPlt, ClearEnable, SetEnable;
      if pl == 0 {
        return;
      }
      pl := pl - 1;
      if pl == 0 {
        if DisableOnTpl0(ctrl) {
          ctrl := ClearEnable(ctrl);
        }
      }
      if pl == 1 {
        if EnableOnTpl1(ctrl) {
          ctrl := SetEnable(ctrl);
        }
      }
      if RemapOnPlt(ctrl) {
        cmap := pl;
      }
    }

    method PrivilegeDown()
      requires Valid()
      modifies this`pl, this`ctrl, this`cmap
      ensures Valid() && State() == C.PrivilegeDown(old(State()))
    {
      hide DisableOnTpl0, EnableOnTpl1, RemapOnPlt, ClearEnable, SetEnable;
      if pl == 3 {
        return;
      }
      // The source also tests for level 0 here, which the increment has just left.
      pl := pl + 1;
      if pl == 1 {
        if EnableOnTpl1(ctrl) {
          ctrl := SetEnable(ctrl);
        }
      }
      if RemapOnPlt(ctrl) {
        cmap := pl;
      }
    }

    method Exception(cause: Word)
      requires Valid()
      modifies this`pl, this`ctrl, this`cmap, this`xcause, this`xpc, r, pipeline
      ensures Valid() && State() == Raise(old(State()), cause)
      ensures Slots() == Flushed(old(Slots()), true, cr0)
    {
      hide Transition, FlushOnTransfer;
      PrivilegeUp();
      xcause := cause;
      xpc := r[PC];
      r[PC] := xhaddr;
      Flush(PC);
    }

    // ---- Memory ----

    method SearchMap(vaddr: Word) returns (e: Option<Entry>)
      requires Valid()
      ensures e == Mmu.SearchMap(State(), vaddr)
    {
      hide Hits;
      for i := 0 to 32
        invariant SearchFrom(CurrentMap(State()), vaddr, 0) == SearchFrom(CurrentMap(State()), vaddr, i)
      {
        if Hits(maps[32 * cmap + i], vaddr) {
          return Some(maps[32 * cmap + i]);
        }
      }
      return None;
    }

    method GetDeviceAtPhys(paddr: Word) returns (i: nat)
      requires Valid()
      ensures i == FindDevice(Memory(), paddr, 0)
    {
      i := 0;
      while i < |devices|
        invariant i <= |devices|
        invariant FindDevice(Memory(), paddr, 0) == FindDevice(Memory(), paddr, i)
      {
        if devices[i].Covers(paddr) {
          return;
        }
        i := i + 1;
      }
    }

    /** Each exception is raised where the source raises it; together they are the causes of
        `Translate`, in order. */
    method GetPhys(addr: Word, size: Size) returns (phys: Word)
      requires Valid()
      modifies this`pl, this`ctrl, this`cmap, this`xcause, this`xpc, r, pipeline
      ensures Valid() && phys == Translate(old(State()), addr, size).phys
      ensures State() == RaiseAll(old(State()), Translate(old(State()), addr, size).causes)
      ensures Slots() == Flushed(old(Slots()), Translate(old(State()), addr, size).causes != [], cr0)
    {
      hide Mmu.SearchMap, Raise, RaiseAll, V2P, Executable, Readable, FlushOnTransfer, AlignChecked, Enabled;
      ghost var c, t := State(), Translate(State(), addr, size);
      RaiseAllSteps(c, [], CAUSE_MMU_NOMAP);
      if Enabled(ctrl) {
        var me := SearchMap(addr);
        if me == None {
          Exception(CAUSE_MMU_NOMAP);
          return 0;
        }
        ghost var exec := if size == EXEC && !Executable(me.value) then [CAUSE_MMU_PROT_EXEC] else [];
        RaiseAllSteps(c, [], CAUSE_MMU_PROT_EXEC);
        if size == EXEC && !Executable(me.value) {
          Exception(CAUSE_MMU_PROT_EXEC);
        }
        RaiseAllSteps(c, exec, CAUSE_MMU_PROT_READ);
        if !Readable(me.value) {
          Exception(CAUSE_MMU_PROT_READ);
          return 0;
        }
        phys := V2P(me.value, addr);
        assert t == Translation(phys, exec + AlignCauses(c, phys, size));
        RaiseAllSteps(c, exec, CAUSE_MMU_XALIGN);
        RaiseAllSteps(c, exec, CAUSE_MMU_RWALIGN);
        assert exec + [] == exec;
      } else {
        phys := addr;
        RaiseAllSteps(c, [], CAUSE_MMU_XALIGN);
        RaiseAllSteps(c, [], CAUSE_MMU_RWALIGN);
      }
      AlignOnce(c, phys, size);
      if size == EXEC {
        if phys % 4 != 0 {
          Exception(CAUSE_MMU_XALIGN);
        }
      } else if AlignChecked(ctrl) {
        if size == LONG && phys % 4 != 0 {
          Exception(CAUSE_MMU_RWALIGN);
        }
        if size == SHORT && phys % 2 != 0 {
          Exception(CAUSE_MMU_RWALIGN);
        }
      }
    }

    method MmuRead(addr: Word, size: Size) returns (v: Option<Word>)
      requires Valid()
      modifies this`pl, this`ctrl, this`cmap, this`xcause, this`xpc, r, pipeline
      ensures Valid() && v == Mmu.Read(old(State()), old(Memory()), addr, size).value
      ensures State() == RaiseAll(old(State()), Mmu.Read(old(State()), old(Memory()), addr, size).causes)
      ensures Slots() == Flushed(old(Slots()), Mmu.Read(old(State()), old(Memory()), addr, size).causes != [], cr0)
      ensures Memory() == old(Memory())
    {
      hide Translate, Raise, RaiseAll, FlushOnTransfer, DeviceRead, FindDevice;
      ghost var c := State();
      var phys := GetPhys(addr, size);
      RaiseAllSteps(c, Translate(c, addr, size).causes, CAUSE_MMU_NOMAP);
      var i := GetDeviceAtPhys(phys);
      if i == |devices| {
        Exception(CAUSE_MMU_NOMAP);
        return Some(0);
      }
      v := devices[i].Read(phys, size);
    }

    /** One device is written; answers false where C++ would write past its buffer. */
    method WriteDevice(i: nat, paddr: Word, value: Word, size: Size) returns (ok: bool)
      requires Valid() && i < |devices| && Memory()[i].Covers(paddr)
      modifies Buffers()
      ensures Valid() && State() == old(State()) && Slots() == old(Slots())
      ensures var d := DeviceWrite(old(Memory())[i], paddr, value, size);
              ok == d.Some? && (ok ==> Memory() == old(Memory())[i := d.value])
    {
      hide DeviceWrite, Wrap;
      ok := devices[i].Write(paddr, value, size);
    }

    /** Answers false where C++ would write past a buffer. */
    method MmuWrite(addr: Word, value: Word, size: Size) returns (ok: bool)
      requires Valid()
      modifies this`pl, this`ctrl, this`cmap, this`xcause, this`xpc, r, pipeline, Buffers()
      ensures Valid() && ok == Mmu.Write(old(State()), old(Memory()), addr, value, size).bus.Some?
      ensures State() == RaiseAll(old(State()), Mmu.Write(old(State()), old(Memory()), addr, value, size).causes)
      ensures var causes := Mmu.Write(old(State()), old(Memory()), addr, value, size).causes;
              Slots() == Flushed(old(Slots()), causes != [], cr0)
      ensures ok ==> Memory() == Mmu.Write(old(State()), old(Memory()), addr, value, size).bus.value
    {
      hide Translate, Raise, RaiseAll, FlushOnTransfer, DeviceWrite, FindDevice;
      ghost var c := State();
      var phys := GetPhys(addr, size);
      RaiseAllSteps(c, Translate(c, addr, size).causes, CAUSE_MMU_NOMAP);
      var i := GetDeviceAtPhys(phys);
      if i == |devices| {
        Exception(CAUSE_MMU_NOMAP);
        return true;
      }
      ok := WriteDevice(i, phys, value, size);
    }

    /** `hv2_mmu_attach_device` */
    method AttachDevice(d: MmioDevice)
      requires Valid() && d.Valid() && Apart(d) && forall e :: e in devices ==> e.buf != d.buf
      modifies this`devices
      ensures Valid() && devices == old(devices) + [d]
      ensures State() == old(State()) && Slots() == old(Slots())
    {
      devices := devices + [d];
    }

    /** `hv2_mmu_create_mapping` */
    method CreateMapping(idx: nat, e: Entry)
      requires Valid() && idx < 32
      modifies maps
      ensures Valid() && State() == Mmu.CreateMapping(old(State()), idx, e)
    {
      maps[32 * cmap + idx] := e;
    }

    // ---- Instructions ----

    /** The state is what the effect says, starting from these pipeline slots. */
    ghost predicate Did(e: Effect, st: Status, slots: Pipeline)
      reads this, r, maps, pipeline, Buffers()
      requires Valid()
    {
      match e
      case Next(c, bus, flush) =>
        st == Fine && State() == c && Memory() == bus && Slots() == (if flush then EMPTY else slots)
      case Halt(status) => st == Exited(status)
      case Undefined => st == Undef
    }

    lemma {:induction false} NothingDone()
      requires Valid()
      ensures Did(Next(State(), Memory(), false), Fine, Slots())
    {
    }

    method SetRegister(d: Reg, v: Word)
      requires Valid()
      modifies r, pipeline
      ensures Valid() && Did(WriteBack(old(State()), old(Memory()), d, v), Fine, old(Slots()))
    {
      hide FlushOnTransfer;
      r[d] := v;
      Flush(d);
    }

    method Transfer(target: Word, link: bool)
      requires Valid()
      modifies r, pipeline
      ensures Valid() && Did(DoBranch(old(State()), old(Memory()), true, link, target), Fine, old(Slots()))
    {
      hide FlushOnTransfer;
      if link {
        r[LR] := r[PC];
      }
      r[PC] := target;
      Flush(PC);
    }

    method ThrowIn(cause: Word)
      requires Valid()
      modifies this`pl, this`ctrl, this`cmap, this`xcause, this`xpc, r, pipeline
      ensures Valid() && Did(Trap(old(State()), old(Memory()), cause), Fine, old(Slots()))
    {
      hide FlushOnTransfer, Raise;
      Exception(cause);
    }

    method ExecuteAlu(opcode: Word) returns (st: Status)
      requires Valid() && Group(opcode) == 0
      modifies r, pipeline
      ensures Valid() && Did(Dispatch(old(State()), old(Memory()), Decode(opcode)), st, old(Slots()))
    {
      AluDispatched(State(), Memory(), opcode);
      StateFields();
      hide State, Memory, Slots, WriteBack, Operate, FlushOnTransfer, Dispatch, Decode, Group, D, S0, S1,
           AluOpcode, AluI, AluSx, AluImm16, SignExtend16If;
      var op, d := AluOpcode(opcode), D(opcode);
      var s0, s1;
      if AluI(opcode) {
        s0 := r[d];
        s1 := SignExtend16If(AluImm16(opcode), AluSx(opcode));
      } else {
        s0 := r[S0(opcode)];
        s1 := r[S1(opcode)];
      }
      var v := Operate(op, r[d], s0, s1);
      if v == None {
        return Undef;
      }
      st := Fine;
      SetRegister(d, v.value);
    }

    method ExecuteBranch(opcode: Word) returns (st: Status)
      requires Valid() && (IsBranchImm(Group(opcode)) || Group(opcode) == 13)
      modifies r, pipeline
      ensures Valid() && Did(Dispatch(old(State()), old(Memory()), Decode(opcode)), st, old(Slots()))
    {
      BranchDispatched(State(), Memory(), opcode);
      StateFields();
      hide State, Memory, Slots, Holds, FlushOnTransfer, BranchDisp, Plus, Dispatch, Decode, Group,
           IsBranchImm, D, S0, S1, BrnC, BrnI, BrnL;
      var d, s0 := D(opcode), S0(opcode);
      st := Fine;
      if Group(opcode) == 13 {
        var entry := BrnC(opcode) - 1;
        if entry < 0 {
          return Undef;
        }
        if Holds(entry, r[d], r[s0]) {
          var s1 := S1(opcode);
          Transfer(if BrnI(opcode) then Plus(r[PC], r[s1]) else r[s1], false);
        }
      } else {
        var cond := Group(opcode) / 2 % 8;
        if Holds(cond - 1, r[d], r[s0]) {
          Transfer(Plus(r[PC], BranchDisp(opcode)), BrnL(opcode));
        }
      }
    }

    /** The read half of `hv2_get_cop_register`. */
    method ReadCopRegister(reg: CopReg) returns (v: Option<Word>)
      requires Valid()
      ensures v == ReadCop(State(), reg)
    {
      match reg {
        case Cr0 => v := Some(cr0);
        case Cr1 => v := Some(cr1);
        case XCause => v := Some(xcause);
        case XHAddr => v := Some(xhaddr);
        case Xpc => v := Some(xpc);
        case Ctrl => v := Some(ctrl);
        case Msel => v := Some(msel);
        case MapWord(i) => v := if i < 512 then Some(EntryWord(maps[i / 4], i % 4)) else None;
        case NoCopReg => v := None;
      }
    }

    method WriteCopRegister(reg: CopReg, v: Word) returns (ok: bool)
      requires Valid()
      modifies this`cr0, this`cr1, this`xpc, this`xcause, this`xhaddr, this`ctrl, this`msel, maps
      ensures Valid() && ok == WriteCop(old(State()), reg, v).Some?
      ensures ok ==> State() == WriteCop(old(State()), reg, v).value
      ensures Slots() == old(Slots()) && Memory() == old(Memory())
    {
      ok := true;
      match reg {
        case Cr0 => cr0 := v;
        case Cr1 => cr1 := v;
        case XCause => xcause := v;
        case XHAddr => xhaddr := v;
        case Xpc => xpc := v;
        case Ctrl => ctrl := v;
        case Msel => msel := v;
        case MapWord(i) =>
          if i < 512 {
            maps[i / 4] := SetEntryWord(maps[i / 4], i % 4, v);
          } else {
            ok := false;
          }
        case NoCopReg => ok := false;
      }
    }

    /** `cpe_mtcr` */
    method Mtcr(reg: CopReg, d: Reg) returns (ok: bool)
      requires Valid()
      modifies this`pl, this`cr0, this`cr1, this`xpc, this`xcause, this`xhaddr, this`ctrl, this`msel, this`cmap,
               r, pipeline, maps
      ensures Valid() && Memory() == old(Memory())
      ensures ok == (reg == NoCopReg || WriteCop(old(State()), reg, old(r[d])).Some?)
      ensures reg == NoCopReg ==> State() == Raise(old(State()), CAUSE_INVALID_COPX)
      ensures reg != NoCopReg && ok ==> State() == WriteCop(old(State()), reg, old(r[d])).value
      ensures Slots() == Flushed(old(Slots()), reg == NoCopReg, old(cr0))
    {
      hide FlushOnTransfer, WriteCop, Raise;
      ok := true;
      if reg == NoCopReg {
        Exception(CAUSE_INVALID_COPX);
      } else {
        ok := WriteCopRegister(reg, r[d]);
      }
    }

    /** `cpe_mfcr` */
    method Mfcr(reg: CopReg, d: Reg) returns (ok: bool)
      requires Valid()
      modifies this`pl, this`ctrl, this`cmap, this`xcause, this`xpc, r, pipeline
      ensures Valid() && Memory() == old(Memory())
      ensures ok == (reg == NoCopReg || ReadCop(old(State()), reg).Some?)
      ensures reg == NoCopReg ==> State() == Raise(old(State()), CAUSE_INVALID_COPX)
      ensures reg != NoCopReg && ok ==> State() == SetReg(old(State()), d, ReadCop(old(State()), reg).value)
      ensures Slots() == Flushed(old(Slots()), reg == NoCopReg, cr0)
    {
      hide FlushOnTransfer, ReadCop, Raise;
      ok := true;
      if reg == NoCopReg {
        Exception(CAUSE_INVALID_COPX);
      } else {
        var v := ReadCopRegister(reg);
        if v == None {
          return false;
        }
        r[d] := v.value;
      }
    }

    method ExecuteExchange(opcode: Word) returns (st: Status)
      requires Valid() && Group(opcode) == 14
      modifies this`pl, this`cr0, this`cr1, this`xpc, this`xcause, this`xhaddr, this`ctrl, this`msel, this`cmap,
               r, pipeline, maps
      ensures Valid() && Did(Dispatch(old(State()), old(Memory()), Decode(opcode)), st, old(Slots()))
    {
      ExchangeDispatched(State(), Memory(), opcode);
      RaiseKeepsCr0(State(), CAUSE_INVALID_COPX);
      hide FlushOnTransfer, CopRegister, ReadCop, WriteCop, Raise, Dispatch, Decode, D, CpeOp, CpeCopn,
           CpeCopr, Group, State, Memory, Slots;
      StateFields();
      var op, d := CpeOp(opcode), D(opcode);
      var reg := CopRegister(msel, CpeCopn(opcode), CpeCopr(opcode));
      if op != 0 && op != 1 {
        return Undef;
      }
      var ok;
      if op == 0 {
        ok := Mtcr(reg, d);
      } else {
        ok := Mfcr(reg, d);
      }
      if !ok {
        return Undef;
      }
      StateFields();
      Flush(d);
      st := Fine;
    }

    method ExecuteSystem(opcode: Word) returns (st: Status)
      requires Valid() && Group(opcode) == 15
      modifies this`pl, this`ctrl, this`cmap, this`xcause, this`xpc, r, pipeline
      ensures Valid() && Did(Dispatch(old(State()), old(Memory()), Decode(opcode)), st, old(Slots()))
    {
      SystemDispatched(State(), Memory(), opcode);
      StateFields();
      hide FlushOnTransfer, Raise, Or32, Wrap, Trap, SysReturn, Dispatch, Decode, Group, SysImm24, State,
           Memory, Slots;
      var c, op := SysImm24(opcode), SysOp(opcode);
      st := Fine;
      if op == 0 {
        ThrowIn(Or32(CAUSE_SYSCALL, Wrap(c * 0x100)));
      } else if 1 <= op <= 4 {
        ThrowIn(CAUSE_TPL0 + (op - 1));
      } else if op == 5 {
        if c == DEBUG_EXIT {
          return Exited(r[2]);
        }
        ThrowIn(Or32(CAUSE_DEBUG, Wrap(c * 0x100)));
      } else if op == 6 {
        ThrowIn(Or32(CAUSE_SEXCEPT, Wrap(c * 0x100)));
      } else {
        Sysret();
      }
    }

    /** The sysret case: no flush. */
    method Sysret()
      requires Valid()
      modifies this`pl, this`ctrl, this`cmap, r
      ensures Valid() && Did(Next(SysReturn(old(State())), old(Memory()), false), Fine, old(Slots()))
    {
      hide C.PrivilegeDown;
      PrivilegeDown();
      r[PC] := xpc;
    }

    /** The address switch of a load, store or lea. */
    method EffectiveAddress(opcode: Word) returns (addr: Word)
      requires Valid()
      ensures addr == Address(State(), S0(opcode), DecodeMode(opcode))
    {
      hide Shl, Times, Offset, S0, S1, S2, FixedDisp;
      var base, mode := r[S0(opcode)], LslMode(opcode);
      if mode == 0 {
        addr := Offset(base, false, Times(r[S1(opcode)], S2(opcode)));
      } else if mode == 1 {
        addr := Offset(base, true, Times(r[S1(opcode)], S2(opcode)));
      } else if mode == 2 {
        addr := Offset(base, false, Shl(r[S1(opcode)], S2(opcode)));
      } else if mode == 3 {
        addr := Offset(base, true, Shl(r[S1(opcode)], S2(opcode)));
      } else if mode == 4 || mode == 6 {
        addr := Offset(base, false, FixedDisp(opcode));
      } else {
        addr := Offset(base, true, FixedDisp(opcode));
      }
    }

    method Load(d: Reg, addr: Word, size: Size) returns (st: Status)
      requires Valid()
      modifies this`pl, this`ctrl, this`cmap, this`xcause, this`xpc, r, pipeline
      ensures Valid() && Did(DoLoad(old(State()), old(Memory()), d, addr, size), st, old(Slots()))
    {
      hide FlushOnTransfer, Mmu.Read, RaiseAll;
      RaiseAllKeepsCr0(State(), Mmu.Read(State(), Memory(), addr, size).causes);
      var v := MmuRead(addr, size);
      if v == None {
        return Undef;
      }
      st := Fine;
      r[d] := v.value;
      Flush(d);
    }

    method Save(d: Reg, addr: Word, size: Size) returns (st: Status)
      requires Valid()
      modifies this`pl, this`ctrl, this`cmap, this`xcause, this`xpc, r, pipeline, Buffers()
      ensures Valid() && Did(DoStore(old(State()), old(Memory()), d, addr, size), st, old(Slots()))
    {
      hide FlushOnTransfer, Mmu.Write, RaiseAll;
      var ok := MmuWrite(addr, r[d], size);
      st := if ok then Fine else Undef;
    }

    /** What a load, store or lea does at an address. */
    ghost function AccessEffect(c: Core, bus: Bus, op: int, size: Size, d: Reg, addr: Word): Effect {
      match op
      case 0 => DoLoad(c, bus, d, addr, size)
      case 1 => DoStore(c, bus, d, addr, size)
      case 2 => WriteBack(c, bus, d, addr)
      case _ => Next(c, bus, false)
    }

    /** The operation switch of a load, store or lea. */
    method AccessAt(op: int, size: Size, d: Reg, addr: Word) returns (st: Status)
      requires Valid()
      modifies this`pl, this`ctrl, this`cmap, this`xcause, this`xpc, r, pipeline, Buffers()
      ensures Valid() && Did(AccessEffect(old(State()), old(Memory()), op, size, d, addr), st, old(Slots()))
    {
      hide DoLoad, DoStore, WriteBack, State, Memory, Slots;
      if op == 0 {
        st := Load(d, addr, size);
      } else if op == 1 {
        st := Save(d, addr, size);
      } else if op == 2 {
        SetRegister(d, addr);
        st := Fine;
      } else {
        st := Fine;
      }
    }

    method ExecuteLoadStore(opcode: Word) returns (st: Status)
      requires Valid() && Group(opcode) == 16
      modifies this`pl, this`ctrl, this`cmap, this`xcause, this`xpc, r, pipeline, Buffers()
      ensures Valid() && Did(Dispatch(old(State()), old(Memory()), Decode(opcode)), st, old(Slots()))
    {
      hide FlushOnTransfer, Address, DoLoad, DoStore, WriteBack, DecodeMode, Dispatch, Decode, D, S0, Group,
           LslOp, LslSize, State, Memory, Slots, Did;
      AccessDispatched(State(), Memory(), opcode);
      var addr := EffectiveAddress(opcode);
      st := AccessAt(LslOp(opcode), LslSize(opcode), D(opcode), addr);
    }

    method ExecuteSet(opcode: Word) returns (st: Status)
      requires Valid() && (Group(opcode) == 17 || IsSetCondImm(Group(opcode)) || Group(opcode) == 11)
      modifies r, pipeline
      ensures Valid() && Did(Dispatch(old(State()), old(Memory()), Decode(opcode)), st, old(Slots()))
    {
      SetDispatched(State(), Memory(), opcode);
      StateFields();
      hide State, Memory, Slots, WriteBack, FlushOnTransfer, Holds, LiValue, SignExtend16If, Dispatch, Decode,
           Group, D, S0, S1, ScrOp, SciImm16, SciSx;
      var g, d := Group(opcode), D(opcode);
      st := Fine;
      if g == 17 {
        SetRegister(d, LiValue(opcode));
      } else if g == 11 {
        var entry := ScrOp(opcode) - 1;
        if entry < 0 || entry >= 6 {
          return Undef;
        }
        SetRegister(d, Bool(Holds(entry, r[S0(opcode)], r[S1(opcode)])));
      } else {
        var imm := SignExtend16If(SciImm16(opcode), SciSx(opcode));
        SetRegister(d, Bool(Holds(g / 2 % 8 - 1, S0(opcode), imm)));
      }
    }

    /** The end of `hv2_execute`: r0 is cleared. */
    method ClearR0(ghost e: Effect, st: Status, ghost slots: Pipeline)
      requires Valid() && Did(e, st, slots)
      modifies r
      ensures Valid() && Did(Cleared(e), st, slots)
    {
      if st == Fine {
        r[0] := 0;
      }
    }

    /** `hv2_execute`: the word in the last slot. */
    method Execute() returns (st: Status)
      requires Valid()
      modifies this`pl, this`cr0, this`cr1, this`xpc, this`xcause, this`xhaddr, this`ctrl, this`msel, this`cmap,
               r, pipeline, maps, Buffers()
      ensures Valid() && Did(Perform(old(State()), old(Memory()), old(Slots()[2])), st, old(Slots()))
    {
      hide Dispatch, Decode, Group, IsBranchImm, IsSetCondImm, FlushOnTransfer, Did, Cleared, Trap, Perform;
      PerformClears(State(), Memory(), pipeline[2]);
      ghost var e, slots := Dispatch(State(), Memory(), Decode(pipeline[2])), Slots();
      var opcode := pipeline[2];
      var g := Group(opcode);
      if g == 0 {
        st := ExecuteAlu(opcode);
      } else if IsBranchImm(g) || g == 13 {
        st := ExecuteBranch(opcode);
      } else if g == 14 {
        st := ExecuteExchange(opcode);
      } else if g == 30 || g == 31 {
        st := Fine;
        NothingDispatched(State(), Memory(), opcode);
        NothingDone();
      } else if g == 15 {
        st := ExecuteSystem(opcode);
      } else if g == 16 {
        st := ExecuteLoadStore(opcode);
      } else if g == 17 || IsSetCondImm(g) || g == 11 {
        st := ExecuteSet(opcode);
      } else {
        IllegalDispatched(State(), Memory(), opcode);
        ThrowIn(CAUSE_ILLEGAL_INSTR);
        st := Fine;
      }
      ClearR0(e, st, slots);
    }

    /** `hv2_cycle`, without the trace. */
    method Cycle() returns (st: Status)
      requires Valid()
      modifies this`pl, this`cr0, this`cr1, this`xpc, this`xcause, this`xhaddr, this`ctrl, this`msel, this`cmap,
               r, pipeline, maps, Buffers()
      ensures Valid()
      ensures match X.Cycle(Machine(old(State()), old(Memory()), old(Slots()[0]), old(Slots()[1]), old(Slots()[2])))
              case Running(m) => st == Fine && State() == m.core && Memory() == m.bus && Slots() == [m.p0, m.p1, m.p2]
              case Halted(status) => st == Exited(status)
              case Broken => st == Undef
    {
      hide FlushOnTransfer, Mmu.Read, RaiseAll, Perform, Plus, X.Cycle;
      ghost var m := Machine(State(), Memory(), pipeline[0], pipeline[1], pipeline[2]);
      ghost var f := Mmu.Read(m.core, m.bus, m.core.r[PC], EXEC);
      CycleFetches(m);
      pipeline[2] := pipeline[1];
      pipeline[1] := pipeline[0];
      var v := MmuRead(r[PC], EXEC);
      if v == None {
        return Undef;
      }
      pipeline[0] := v.value;
      r[PC] := Plus(r[PC], 4);
      ghost var flushed := f.causes != [] && FlushOnTransfer(m.core.cr0);
      ghost var c, p1, p2 := State(), if flushed then 0 else m.p0, if flushed then 0 else m.p1;
      assert c == Advance(RaiseAll(m.core, f.causes));
      assert Slots() == [v.value, p1, p2];
      assert Memory() == m.bus;
      st := Execute();
      assert X.Cycle(m) == Retire(c, m.bus, v.value, p1, p2);
      assert Did(Perform(c, m.bus, p2), st, [v.value, p1, p2]);
    }
  }

  /** The two halves of a cycle. */
  lemma {:induction false} CycleFetches(m: Machine)
    ensures var f := Mmu.Read(m.core, m.bus, m.core.r[PC], EXEC);
            X.Cycle(m) == match f.value
                          case None => Broken
                          case Some(v) =>
                            var flushed := f.causes != [] && FlushOnTransfer(m.core.cr0);
                            Retire(Advance(RaiseAll(m.core, f.causes)), m.bus, v,
                                   if flushed then 0 else m.p0, if flushed then 0 else m.p1)
  {
    hide Mmu.Read, RaiseAll, Perform, Retire, FlushOnTransfer, Plus;
  }

  lemma {:induction false} AccessDispatched(c: Core, bus: Bus, w: Word)
    requires Group(w) == 16
    ensures Dispatch(c, bus, Decode(w)) == DoLoadStore(c, bus, LslOp(w), LslSize(w), D(w), S0(w), DecodeMode(w))
  {
    DecodeAccess(w);
    hide Decode, Group, DoLoadStore, DecodeMode, LslOp, LslSize, D, S0;
  }

  lemma {:induction false} AluDispatched(c: Core, bus: Bus, w: Word)
    requires Group(w) == 0
    ensures var d := D(w);
            var s0 := if AluI(w) then c.r[d] else c.r[S0(w)];
            var s1 := if AluI(w) then SignExtend16If(AluImm16(w), AluSx(w)) else c.r[S1(w)];
            var v := Operate(AluOpcode(w), c.r[d], s0, s1);
            Dispatch(c, bus, Decode(w)) == if v == None then Effect.Undefined else WriteBack(c, bus, d, v.value)
  {
    DecodeAlu(w);
    hide Decode, Group, Operate, SignExtend16If, WriteBack, D, S0, S1, AluOpcode, AluI, AluSx, AluImm16;
  }

  lemma {:induction false} BranchDispatched(c: Core, bus: Bus, w: Word)
    requires IsBranchImm(Group(w)) || Group(w) == 13
    ensures var d, s0 := D(w), S0(w);
            Dispatch(c, bus, Decode(w)) ==
              if Group(w) == 13 then
                (if BrnC(w) - 1 < 0 then Effect.Undefined
                 else DoBranch(c, bus, Holds(BrnC(w) - 1, c.r[d], c.r[s0]), false,
                               if BrnI(w) then Plus(c.r[PC], c.r[S1(w)]) else c.r[S1(w)]))
              else DoBranch(c, bus, Holds(Group(w) / 2 % 8 - 1, c.r[d], c.r[s0]), BrnL(w), Plus(c.r[PC], BranchDisp(w)))
  {
    if Group(w) == 13 {
      DecodeBranchReg(w);
    } else {
      DecodeBranchImm(w);
    }
    hide Decode, Group, Holds, DoBranch, D, S0, S1, BrnI, BrnL, BranchDisp, Plus;
  }

  lemma {:induction false} SystemDispatched(c: Core, bus: Bus, w: Word)
    requires Group(w) == 15
    ensures Dispatch(c, bus, Decode(w)) == DoSystem(c, bus, SysOp(w), SysImm24(w))
  {
    DecodeSystem(w);
    hide Decode, Group, DoSystem, SysOp, SysImm24;
  }

  lemma {:induction false} SetDispatched(c: Core, bus: Bus, w: Word)
    requires Group(w) == 17 || IsSetCondImm(Group(w)) || Group(w) == 11
    ensures Dispatch(c, bus, Decode(w)) ==
              if Group(w) == 17 then WriteBack(c, bus, D(w), LiValue(w))
              else if Group(w) == 11 then
                (if 1 <= ScrOp(w) <= 6
                 then WriteBack(c, bus, D(w), Bool(Holds(ScrOp(w) - 1, c.r[S0(w)], c.r[S1(w)])))
                 else Effect.Undefined)
              else
                var imm := SignExtend16If(SciImm16(w), SciSx(w));
                WriteBack(c, bus, D(w), Bool(Holds(Group(w) / 2 % 8 - 1, S0(w), imm)))
  {
    DecodeSet(w);
    hide Decode, Group, LiValue, Holds, SignExtend16If, WriteBack, D, S0, S1, ScrOp, SciImm16, SciSx;
  }

  lemma {:induction false} ExchangeDispatched(c: Core, bus: Bus, w: Word)
    requires Group(w) == 14
    ensures Dispatch(c, bus, Decode(w)) == Exchange(c, bus, CpeOp(w), CpeCopn(w), D(w), CpeCopr(w))
  {
    DecodeExchange(w);
    hide Decode, Group, Exchange, CpeOp, CpeCopn, CpeCopr, D;
  }

  lemma {:induction false} NothingDispatched(c: Core, bus: Bus, w: Word)
    requires Group(w) == 30 || Group(w) == 31
    ensures Dispatch(c, bus, Decode(w)) == Next(c, bus, false)
  {
    DecodeNothing(w);
    hide Decode, Group;
  }

  lemma {:induction false} IllegalDispatched(c: Core, bus: Bus, w: Word)
    requires var g := Group(w);
             g !in {0, 11, 13, 14, 15, 16, 17, 30, 31} && !IsBranchImm(g) && !IsSetCondImm(g)
    ensures Dispatch(c, bus, Decode(w)) == Trap(c, bus, CAUSE_ILLEGAL_INSTR)
  {
    DecodeIllegal(w);
    hide Decode, Group, Trap;
  }
}
