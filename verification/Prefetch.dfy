/** When the words in flight behave, in both modes: conditions on the next instruction before it
    runs, instead of on its result, under which the pipelined machine refines the sequential
    instruction set and the one with delay slots. */
module Prefetch {
  import opened Words
  import opened Alu
  import opened Core
  import opened Mmu
  import opened Instructions
  import opened Execute
  import opened DelayedIsa
  import opened FlatMemory
  import S = SequentialIsa
  import D = DelaySlots

  // ---- What a fetch depends on ----

  predicate SameTranslation(c: Core, c': Core) {
    c'.ctrl == c.ctrl && c'.cmap == c.cmap && c'.maps == c.maps
  }

  lemma {:induction false} FetchNeedsTranslation(c: Core, c': Core, bus: Bus, addr: Word)
    requires SameTranslation(c, c')
    ensures InstrAt(c', bus, addr) == InstrAt(c, bus, addr)
  {
    hide SearchFrom, Hits, V2P, Executable, Readable, AlignCauses, Enabled, DeviceRead, FindDevice;
    assert CurrentMap(c') == CurrentMap(c);
    hide CurrentMap;
    var e := SearchMap(c, addr);
    AlignNeedsControl(c, c', if Enabled(c.ctrl) && e.Some? then V2P(e.value, addr) else addr);
  }

  lemma {:induction false} AlignNeedsControl(c: Core, c': Core, phys: Word)
    requires c'.ctrl == c.ctrl
    ensures AlignCauses(c', phys, EXEC) == AlignCauses(c, phys, EXEC)
  {
  }

  /** A store whose physical bytes miss the four of a word leaves the word as it was. */
  lemma {:induction false} FetchSurvivesStore(c: Core, bus: Bus, addr: Word, v: Word, size: Size, pc: Word)
    requires RangesApart(Translate(c, addr, size).phys, Width(size), Translate(c, pc, EXEC).phys, 4)
    requires Write(c, bus, addr, v, size).bus.Some?
    ensures InstrAt(c, Write(c, bus, addr, v, size).bus.value, pc) == InstrAt(c, bus, pc)
  {
    hide Translate, FindDevice, DeviceRead, Write, Store;
    WrittenBus(c, bus, addr, v, size);
    var w := Write(c, bus, addr, v, size).bus.value;
    var q := Translate(c, pc, EXEC).phys;
    var k := FindDevice(bus, q, 0);
    if k < |bus| {
      DeviceSurvivesStore(c, bus, addr, v, size, q, k);
    }
  }

  lemma {:induction false} DeviceSurvivesStore(c: Core, bus: Bus, addr: Word, v: Word, size: Size, q: Word, k: nat)
    requires Write(c, bus, addr, v, size).bus.Some? && |Write(c, bus, addr, v, size).bus.value| == |bus|
    requires RangesApart(Translate(c, addr, size).phys, Width(size), q, 4)
    requires k < |bus| && bus[k].Covers(q) && Write(c, bus, addr, v, size).bus.value[k].Covers(q)
    ensures DeviceRead(Write(c, bus, addr, v, size).bus.value[k], q, EXEC) == DeviceRead(bus[k], q, EXEC)
  {
    hide Translate, FindDevice, Store, LittleWord, Wrap;
    var p := Translate(c, addr, size).phys;
    var i := FindDevice(bus, p, 0);
    if i == k && bus[k].writable && q - bus[k].base + 4 <= |bus[k].bytes| {
      WordSurvivesStore(bus[k].bytes, p - bus[k].base, v, Width(size), q - bus[k].base);
    }
  }

  lemma {:induction false} WordSurvivesStore(b: seq<Byte>, i: nat, v: Word, n: nat, j: nat)
    requires i + n <= |b| && j + 4 <= |b| && RangesApart(i, n, j, 4)
    ensures LittleWord(Store(b, i, v, n), j) == LittleWord(b, j)
  {
    hide Store, Little;
    forall k | j <= k < j + 4
      ensures Store(b, i, v, n)[k] == b[k]
    {
      StoredByte(b, i, v, n, k);
    }
    SameLittle(b, Store(b, i, v, n), j, 4);
  }

  lemma {:induction false} SameLittle(b: seq<Byte>, b': seq<Byte>, j: nat, n: nat)
    requires |b| == |b'| && j + n <= |b| && forall k :: j <= k < j + n ==> b'[k] == b[k]
    ensures Little(b', j, n) == Little(b, j, n)
    decreases n
  {
    if n == 0 {
    } else {
      SameLittle(b, b', j + 1, n - 1);
    }
  }

  // ---- What one instruction leaves alone ----

  predicate WritesMmu(i: Instr) {
    i.CopExchange? && i.op == 0 && i.copn == 4
  }

  predicate IsStore(i: Instr) {
    i.LoadStore? && i.op == 1
  }

  /** No transition bit is set: exceptions and sysret leave the MMU and its map alone. */
  predicate Steady(c: Core) {
    !EnableOnTpl1(c.ctrl) && !DisableOnTpl0(c.ctrl) && !RemapOnPlt(c.ctrl)
  }

  /** The instruction cannot change the translation behind the words in flight: it does not write
      the MMU's registers, and either level changes do not touch the MMU, or they flush. */
  predicate Undisturbed(c: Core, i: Instr) {
    !WritesMmu(i) && (Steady(c) || (FlushOnTransfer(c.cr0) && !(i.System? && i.op == 7)))
  }

  lemma {:induction false} SteadyTransition(c: Core, cause: Word)
    requires Steady(c)
    ensures SameTranslation(c, Raise(c, cause)) && Steady(Raise(c, cause))
    ensures SameTranslation(c, SysReturn(c))
  {
    hide EnableOnTpl1, DisableOnTpl0, RemapOnPlt;
  }

  lemma {:induction false} SteadyFaults(c: Core, causes: seq<Word>)
    requires Steady(c)
    ensures SameTranslation(c, RaiseAll(c, causes))
    decreases |causes|
  {
    hide Raise, Steady;
    if causes == [] {
    } else {
      SteadyTransition(c, causes[0]);
      SteadyFaults(Raise(c, causes[0]), causes[1..]);
    }
  }

  /** An undisturbed instruction that does not flush keeps the translation; only a store changes
      memory. */
  lemma {:induction false} KeepsTranslation(c: Core, bus: Bus, i: Instr)
    requires Undisturbed(c, i) && (i.System? ==> 0 <= i.op < 8)
    ensures match Dispatch(c, bus, i)
            case Next(c', bus', false) =>
              SameTranslation(c, c')
              && (if IsStore(i)
                  then Write(c, bus, Address(c, i.s0, i.mode), c.r[i.d], i.size).bus == Some(bus')
                  else bus' == bus)
            case _ => true
  {
    hide Operate, FlushOnTransfer, Address, Raise, Holds, Steady, DoSystem, DoLoadStore, Exchange, CopRegister;
    match i
    case CopExchange(op, copn, d, copr) => ExchangeKeeps(c, bus, op, copn, d, copr);
    case System(op, imm) => SystemKeeps(c, bus, op, imm);
    case LoadStore(op, size, d, s0, mode) => AccessKeeps(c, bus, op, size, d, s0, mode);
    case Illegal => if Steady(c) { SteadyTransition(c, CAUSE_ILLEGAL_INSTR); }
    case _ =>
  }

  lemma {:induction false} ExchangeKeeps(c: Core, bus: Bus, op: int, copn: int, d: Reg, copr: int)
    requires Undisturbed(c, CopExchange(op, copn, d, copr))
    ensures match Exchange(c, bus, op, copn, d, copr)
            case Next(c', bus', false) => SameTranslation(c, c') && bus' == bus
            case _ => true
  {
    hide FlushOnTransfer, Raise, Steady, SetEntryWord, EntryWord;
    if Steady(c) {
      SteadyTransition(c, CAUSE_INVALID_COPX);
    }
  }

  lemma {:induction false} SystemKeeps(c: Core, bus: Bus, op: int, imm: Word)
    requires Undisturbed(c, System(op, imm)) && 0 <= op < 8
    ensures match DoSystem(c, bus, op, imm)
            case Next(c', bus', false) => SameTranslation(c, c') && bus' == bus
            case _ => true
  {
    hide FlushOnTransfer, Raise, Steady, SysReturn, Or32, SameTranslation, Wrap;
    if Steady(c) {
      SteadyTransition(c, 0);
      forall cause: Word
        ensures SameTranslation(c, Raise(c, cause))
      {
        SteadyTransition(c, cause);
      }
    }
  }

  lemma {:induction false} AccessKeeps(c: Core, bus: Bus, op: int, size: Size, d: Reg, s0: Reg, mode: Mode)
    requires Steady(c) || FlushOnTransfer(c.cr0)
    ensures var addr := Address(c, s0, mode);
            match DoLoadStore(c, bus, op, size, d, s0, mode)
            case Next(c', bus', false) =>
              SameTranslation(c, c')
              && (if op == 1 then Write(c, bus, addr, c.r[d], size).bus == Some(bus') else bus' == bus)
            case _ => true
  {
    hide FlushOnTransfer, Read, Write, Address, Steady, Raise, RaiseAll;
    var addr := Address(c, s0, mode);
    RaisesNothing(c);
    if Steady(c) {
      SteadyFaults(c, Read(c, bus, addr, size).causes);
      SteadyFaults(c, Write(c, bus, addr, c.r[d], size).causes);
    }
  }

  lemma {:induction false} RaisesNothing(c: Core)
    ensures RaiseAll(c, []) == c
  {
  }

  // ---- Plain instructions ----

  /** If the instruction stores, its bytes miss the word at addr. */
  predicate StoreMisses(c: Core, i: Instr, addr: Word) {
    IsStore(i) ==> RangesApart(Translate(c, Address(c, i.s0, i.mode), i.size).phys, Width(i.size),
                               Translate(c, addr, EXEC).phys, 4)
  }

  /** What can be checked before an instruction runs: it is undisturbed, and not a store into the
      two words already fetched. */
  predicate Plain(a: Arch) {
    var w := InstrAt(a.core, a.bus, a.pc);
    var c := Advance(a.core);
    w.Some? ==>
      && Undisturbed(c, Decode(w.value))
      && StoreMisses(c, Decode(w.value), a.npc) && StoreMisses(c, Decode(w.value), a.core.r[PC])
  }

  /** One performed instruction leaves a word alone that it does not store into. */
  lemma {:induction false} WordStays(c: Core, bus: Bus, w: Word, addr: Word)
    requires Undisturbed(c, Decode(w)) && StoreMisses(c, Decode(w), addr)
    ensures match Perform(c, bus, w)
            case Next(c', bus', false) => InstrAt(c', bus', addr) == InstrAt(c, bus, addr)
            case _ => true
  {
    hide Dispatch, Undisturbed, InstrAt, Write, Translate, Address, Decode;
    var i := Decode(w);
    S.SystemOps(w);
    KeepsTranslation(c, bus, i);
    var e := Dispatch(c, bus, i);
    if e.Next? && !e.flush {
      FetchNeedsTranslation(c, SetReg(e.core, 0, 0), e.bus, addr);
      if IsStore(i) {
        FetchSurvivesStore(c, bus, Address(c, i.s0, i.mode), c.r[i.d], i.size, addr);
      }
    }
  }

  /** A plain instruction leaves the words in flight what a fetch would return. */
  lemma {:induction false} PlainKeeps(a: Arch)
    requires Plain(a)
    ensures Keeps(a)
  {
    hide Perform, InstrAt, Undisturbed, StoreMisses, Decode, Plus;
    var c := Advance(a.core);
    var w := InstrAt(a.core, a.bus, a.pc);
    if w.Some? {
      FetchNeedsTranslation(a.core, c, a.bus, a.npc);
      FetchNeedsTranslation(a.core, c, a.bus, a.core.r[PC]);
      WordStays(c, a.bus, w.value, a.npc);
      WordStays(c, a.bus, w.value, a.core.r[PC]);
    }
  }

  /** No fetch of n cycles faults, and every instruction they retire but the last is plain. */
  ghost predicate PlainFor(a: Arch, phase: Phase, n: nat)
    decreases n
  {
    n > 0 ==>
      && Fetches(a, phase)
      && (if phase < 2 then PlainFor(a, phase + 1, n - 1)
          else n > 1 && Step(a).At? ==> Plain(a) && PlainFor(Step(a).s, NextPhase(a), n - 1))
  }

  lemma {:induction false} PlainForBehaves(a: Arch, phase: Phase, n: nat)
    requires PlainFor(a, phase, n)
    ensures BehavesFor(a, phase, n)
    decreases n
  {
    hide Plain, Step, Keeps, Fetches, NextPhase;
    if n == 0 {
    } else if phase < 2 {
      PlainForBehaves(a, phase + 1, n - 1);
    } else if n > 1 && Step(a).At? {
      PlainKeeps(a);
      PlainForBehaves(Step(a).s, NextPhase(a), n - 1);
    }
  }

  /** The central theorem on plain programs, with the flag set: n cycles from an empty pipeline are
      the sequential instructions they retire, r31 ahead by four for each word fetched. */
  lemma {:induction false} PlainRunsRefine(m: Machine, n: nat)
    requires m.p0 == m.p1 == 0 && m.core.r[0] == 0
    requires var s := S.Seq(m.core, m.bus);
             PlainFor(S.ToArch(s), 0, n) && S.FlushModeFor(s, Retired(S.ToArch(s), 0, n))
    ensures var s := S.Seq(m.core, m.bus);
            match S.Run(s, Retired(S.ToArch(s), 0, n))
            case At(s') =>
              Cycles(m, n).Running? && Cycles(m, n).m.bus == s'.bus
              && Cycles(m, n).m.core
                   == SetPc(s'.core, Plus(s'.core.r[PC], 4 * PhaseAfter(S.ToArch(s), 0, n)))
            case Stopped(status) => Cycles(m, n) == Halted(status)
            case Stuck => Cycles(m, n) == Broken
            case NoFetch => false
  {
    hide Cycles, Retired, PhaseAfter, S.Run, Plus, BehavesFor, PlainFor, S.FlushModeFor, S.ToArch;
    PlainForBehaves(S.ToArch(S.Seq(m.core, m.bus)), 0, n);
    S.FlushModeRefines(m, n);
  }

  /** And with the flag clear: n cycles of a full pipeline are n instructions of the machine with
      two delay slots, exceptions, faulting accesses and sysret included. */
  lemma {:induction false} PlainSlotsRefine(m: Machine, a: Arch, n: nat)
    requires Related(m, a, 2) && PlainFor(a, 2, n) && D.FlagClearFor(a, n)
    ensures match Run(a, n)
            case At(a') => Cycles(m, n).Running? && Cycles(m, n).m.core == a'.core && Cycles(m, n).m.bus == a'.bus
            case Stopped(status) => Cycles(m, n) == Halted(status)
            case Stuck => Cycles(m, n) == Broken
            case NoFetch => false
  {
    hide Cycles, Run, PlainFor, BehavesFor, D.FlagClearFor, Related;
    PlainForBehaves(a, 2, n);
    D.DelaySlotModeRefines(m, a, n);
  }
}
