/** What every run from reset keeps. COPN and COPR share bit 12 of the word, so only even
    coprocessor registers resolve: msel, cr1 and xhaddr cannot be written, and of the map
    entries only the physical base and the size can. */
module Invariants {
  import opened Words
  import opened Alu
  import opened Core
  import opened Mmu
  import opened Instructions
  import opened Execute

  /** Coprocessors 0 and 4 leave bit 12 clear, and with it the low bit of the register number. */
  lemma {:induction false} OnlyEvenRegisters(w: Word)
    requires CpeCopn(w) == 0 || CpeCopn(w) == 4
    ensures CpeCopr(w) % 2 == 0
  {
    DivModTwice(w, 0x100, 16);
    PartOfRemainder(w / 0x100, 16, 2);
    PartOfRemainder(w / 0x1000, 2, 0x200);
  }

  /** Word 128m + 4e + f of the map window is the physical base, the virtual base, the size or the
      attributes of entry e of map m, for f = 0, 1, 2 and 3. */
  lemma {:induction false} WindowLayout(c: Core, m: nat, e: nat, f: nat)
    requires c.msel == 0 && m < 4 && e < 32 && f < 4
    ensures var reg := CopRegister(c.msel, 4, 0x10 + 128 * m + 4 * e + f);
            var entry := c.maps[32 * m + e];
            ReadCop(c, reg) == match f
                               case 0 => Some(entry.paddr)
                               case 1 => Some(entry.vaddr)
                               case 2 => Some(entry.size)
                               case _ => Some(entry.attr)
  {
    DivModUnique(128 * m + 4 * e + f, 4, 32 * m + e, f);
  }

  lemma {:induction false} WindowWrite(c: Core, m: nat, e: nat, f: nat, v: Word)
    requires c.msel == 0 && m < 4 && e < 32 && f < 4
    ensures var reg := CopRegister(c.msel, 4, 0x10 + 128 * m + 4 * e + f);
            var was := c.maps[32 * m + e];
            var entry := match f
                         case 0 => was.(paddr := v)
                         case 1 => was.(vaddr := v)
                         case 2 => was.(size := v)
                         case _ => was.(attr := v);
            WriteCop(c, reg, v) == Some(c.(maps := c.maps[32 * m + e := entry]))
  {
    DivModUnique(128 * m + 4 * e + f, 4, 32 * m + e, f);
  }

  /** With map 0 selected every window access lies inside the 512 words of the maps. */
  lemma {:induction false} WindowInside(c: Core, copn: int, copr: int)
    requires c.msel == 0
    ensures var reg := CopRegister(c.msel, copn, copr);
            reg != NoCopReg ==> ReadCop(c, reg).Some? && forall v: Word :: WriteCop(c, reg, v).Some?
  {
  }

  /** r0 is 0, map 0 is selected, the handler address is the one the host set, and so are the
      virtual address and the attributes of every map entry. Levels and the current map are
      in 0..3 by their type. */
  predicate Kept(c: Core, host: Core) {
    && c.r[0] == 0 && c.msel == 0 && c.xhaddr == host.xhaddr && c.cr1 == host.cr1
    && forall i :: 0 <= i < 128 ==> SameRange(c.maps[i], host.maps[i])
  }

  predicate SameRange(a: Entry, b: Entry) {
    a.vaddr == b.vaddr && a.attr == b.attr
  }

  /** The part of `Kept` that holds in the middle of an instruction too. */
  predicate KeptInside(c: Core, host: Core) {
    && c.msel == 0 && c.xhaddr == host.xhaddr && c.cr1 == host.cr1
    && forall i :: 0 <= i < 128 ==> SameRange(c.maps[i], host.maps[i])
  }

  lemma {:induction false} RaiseKeeps(c: Core, cause: Word, host: Core)
    requires KeptInside(c, host)
    ensures KeptInside(Raise(c, cause), host) && KeptInside(SysReturn(c), host)
  {
    hide EnableOnTpl1, DisableOnTpl0, RemapOnPlt, SetEnable, ClearEnable, SameRange;
  }

  lemma {:induction false} RaiseAllKeeps(c: Core, causes: seq<Word>, host: Core)
    requires KeptInside(c, host)
    ensures KeptInside(RaiseAll(c, causes), host)
    decreases |causes|
  {
    hide Raise, KeptInside;
    if causes == [] {
    } else {
      RaiseKeeps(c, causes[0], host);
      RaiseAllKeeps(Raise(c, causes[0]), causes[1..], host);
    }
  }

  lemma {:induction false} RegistersKeep(c: Core, r: Registers, host: Core)
    requires KeptInside(c, host)
    ensures KeptInside(c.(r := r), host)
  {
  }

  lemma {:induction false} EvenWriteKeeps(c: Core, copn: int, copr: int, v: Word, host: Core)
    requires KeptInside(c, host) && copr % 2 == 0
    ensures var reg := CopRegister(c.msel, copn, copr);
            WriteCop(c, reg, v).Some? ==> KeptInside(WriteCop(c, reg, v).value, host)
  {
  }

  lemma {:induction false} ExchangeKeeps(c: Core, bus: Bus, op: int, copn: int, d: Reg, copr: int, host: Core)
    requires KeptInside(c, host)
    requires copn == 0 || copn == 4 ==> copr % 2 == 0
    ensures Exchange(c, bus, op, copn, d, copr).Next? ==> KeptInside(Exchange(c, bus, op, copn, d, copr).core, host)
  {
    hide KeptInside, FlushOnTransfer, Raise, WriteCop, ReadCop;
    RaiseKeeps(c, CAUSE_INVALID_COPX, host);
    if copn == 0 || copn == 4 {
      EvenWriteKeeps(c, copn, copr, c.r[d], host);
    }
    forall v: Word
      ensures KeptInside(SetReg(c, d, v), host)
    {
      RegistersKeep(c, c.r[d := v], host);
    }
  }

  lemma {:induction false} SystemKeeps(c: Core, bus: Bus, op: int, imm: Word, host: Core)
    requires KeptInside(c, host)
    ensures DoSystem(c, bus, op, imm).Next? ==> KeptInside(DoSystem(c, bus, op, imm).core, host)
  {
    hide KeptInside, FlushOnTransfer, Raise, SysReturn, Or32;
    forall cause: Word
      ensures KeptInside(Raise(c, cause), host) && KeptInside(SysReturn(c), host)
    {
      RaiseKeeps(c, cause, host);
    }
    RaiseKeeps(c, 0, host);
  }

  lemma {:induction false} LoadStoreKeeps(c: Core, bus: Bus, op: int, size: Size, d: Reg, s0: Reg, mode: Mode,
                                          host: Core)
    requires KeptInside(c, host)
    ensures var e := DoLoadStore(c, bus, op, size, d, s0, mode);
            e.Next? ==> KeptInside(e.core, host)
  {
    hide KeptInside, FlushOnTransfer, RaiseAll, Read, Write, Address;
    var addr := Address(c, s0, mode);
    var load := RaiseAll(c, Read(c, bus, addr, size).causes);
    RaiseAllKeeps(c, Read(c, bus, addr, size).causes, host);
    RaiseAllKeeps(c, Write(c, bus, addr, c.r[d], size).causes, host);
    forall v: Word
      ensures KeptInside(SetReg(c, d, v), host) && KeptInside(SetReg(load, d, v), host)
    {
      RegistersKeep(c, c.r[d := v], host);
      RegistersKeep(load, load.r[d := v], host);
    }
  }

  lemma {:induction false} DispatchKeeps(c: Core, bus: Bus, i: Instr, host: Core)
    requires KeptInside(c, host)
    requires i.CopExchange? && (i.copn == 0 || i.copn == 4) ==> i.copr % 2 == 0
    ensures Dispatch(c, bus, i).Next? ==> KeptInside(Dispatch(c, bus, i).core, host)
  {
    hide KeptInside, FlushOnTransfer, Raise, Exchange, DoSystem, DoLoadStore, Operate, Holds;
    forall r: Registers
      ensures KeptInside(c.(r := r), host)
    {
      RegistersKeep(c, r, host);
    }
    match i
    case CopExchange(op, copn, d, copr) => ExchangeKeeps(c, bus, op, copn, d, copr, host);
    case System(op, imm) => SystemKeeps(c, bus, op, imm, host);
    case LoadStore(op, size, d, s0, mode) => LoadStoreKeeps(c, bus, op, size, d, s0, mode, host);
    case Illegal => RaiseKeeps(c, CAUSE_ILLEGAL_INSTR, host);
    case _ =>
  }

  lemma {:induction false} PerformKeeps(c: Core, bus: Bus, w: Word, host: Core)
    requires KeptInside(c, host)
    ensures Perform(c, bus, w).Next? ==> Kept(Perform(c, bus, w).core, host)
  {
    DecodedCopr(w);
    hide Decode, Dispatch;
    DispatchKeeps(c, bus, Decode(w), host);
  }

  lemma {:induction false} DecodedCopr(w: Word)
    ensures var i := Decode(w);
            i.CopExchange? && (i.copn == 0 || i.copn == 4) ==> i.copr % 2 == 0
  {
    hide CpeCopn, CpeCopr;
    if CpeCopn(w) == 0 || CpeCopn(w) == 4 {
      OnlyEvenRegisters(w);
    }
  }

  lemma {:induction false} CycleKeeps(m: Machine, host: Core)
    requires Kept(m.core, host)
    ensures Cycle(m).Running? ==> Kept(Cycle(m).m.core, host)
  {
    var f := Read(m.core, m.bus, m.core.r[PC], EXEC);
    var c := RaiseAll(m.core, f.causes);
    assert KeptInside(m.core, host);
    hide Kept, KeptInside, Perform, Read, FlushOnTransfer, RaiseAll, Plus;
    RaiseAllKeeps(m.core, f.causes, host);
    RegistersKeep(c, Advance(c).r, host);
    var w := if f.causes != [] && FlushOnTransfer(m.core.cr0) then 0 else m.p1;
    PerformKeeps(Advance(c), m.bus, w, host);
  }

  /** Every run keeps it, whatever is in memory and whatever the pipeline held. */
  lemma {:induction false} RunKeeps(m: Machine, host: Core, n: nat)
    requires Kept(m.core, host)
    ensures Cycles(m, n).Running? ==> Kept(Cycles(m, n).m.core, host)
    decreases n
  {
    hide Kept, Cycle;
    if n == 0 {
    } else {
      CycleKeeps(m, host);
      if Cycle(m).Running? {
        RunKeeps(Cycle(m).m, host, n - 1);
      }
    }
  }

  /** The state the front end starts from: reset, with its mappings and entry point installed
      and any control flags. Its runs keep the handler at address 0. */
  lemma {:induction false} FromReset(maps: Maps, entry: Word, cr0: Word, bus: Bus, n: nat)
    ensures var host := SetPc(Reset().(maps := maps, cr0 := cr0), entry);
            var last := Cycles(Machine(host, bus, 0, 0, 0), n);
            last.Running? ==> Kept(last.m.core, host) && last.m.core.xhaddr == 0
  {
    var host := SetPc(Reset().(maps := maps, cr0 := cr0), entry);
    assert Kept(host, host);
    hide Cycles;
    RunKeeps(Machine(host, bus, 0, 0, 0), host, n);
  }
}
