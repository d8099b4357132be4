/** What the handler of a faulting fetch meets. The word the faulting fetch returned stays in the
    pipeline and the program counter is four ahead, so the handler's first word is never fetched:
    the handler is entered as it should be exactly if the returned word is that word. */
module FetchFaults {
  import opened Words
  import opened Alu
  import opened Core
  import opened Mmu
  import opened Instructions
  import opened Execute
  import opened DelayedIsa
  import opened Faults
  import P = Processor

  function Fetch(m: Machine): ReadAccess {
    Read(m.core, m.bus, m.core.r[PC], EXEC)
  }

  /** The fetch raises an exception, and C++ defines what it returns. */
  predicate Faulting(m: Machine) {
    Fetch(m).causes != [] && Fetch(m).value.Some?
  }

  function Returned(m: Machine): Word
    requires Faulting(m)
  {
    Fetch(m).value.value
  }

  /** The state at the handler. */
  function AtHandler(m: Machine): Core {
    AfterFaults(m.core, Fetch(m).causes)
  }

  /** What a slot holds once the exceptions are raised. */
  function Slot(m: Machine, p: Word): Word {
    if FlushOnTransfer(m.core.cr0) then 0 else p
  }

  lemma {:induction false} FaultingCycle(m: Machine)
    requires Faulting(m)
    ensures Cycle(m) == Retire(Advance(AtHandler(m)), m.bus, Returned(m), Slot(m, m.p0), Slot(m, m.p1))
  {
    hide Read, AfterFaults, Retire;
    FetchFaultClosedForm(m);
  }

  lemma {:induction false} HandlerFacts(m: Machine)
    requires Faulting(m)
    ensures var c := AtHandler(m);
            && c.r[0] == m.core.r[0] && c.r[PC] == c.xhaddr == m.core.xhaddr && c.cr0 == m.core.cr0
  {
    hide Fetch, EnableOnTpl1, DisableOnTpl0, RemapOnPlt, SetEnable, ClearEnable;
  }

  /** A cycle whose fetch does not fault. */
  lemma {:induction false} CleanCycle(m: Machine, w: Word)
    requires InstrAt(m.core, m.bus, m.core.r[PC]) == Some(w)
    ensures Cycle(m) == Retire(Advance(m.core), m.bus, w, m.p0, m.p1)
  {
    hide Read, Retire, FlushOnTransfer, Plus;
  }

  // ---- Entering the handler ----

  /** The machine that would enter the handler: its fetch is of the handler's first word. */
  function Entering(m: Machine): Machine {
    Machine(AtHandler(m), m.bus, Slot(m, m.p0), Slot(m, m.p1), 0)
  }

  /** The instruction of a cycle leaves the words behind it in the pipeline. */
  predicate KeepsSlots(e: Effect) {
    e.Next? && !e.flush
  }

  lemma {:induction false} RetireSame(c: Core, bus: Bus, v: Word, v': Word, p: Word, w: Word)
    ensures (Retire(c, bus, v, p, w) == Retire(c, bus, v', p, w)) == (v == v' || !KeepsSlots(Perform(c, bus, w)))
  {
    hide Perform;
  }

  /** The cycle of the fault is the cycle that enters the handler exactly if it returned the
      handler's first word, or the instruction it executes discards the fetched word anyway. */
  lemma {:induction false} EntersIff(m: Machine, first: Word)
    requires Faulting(m) && InstrAt(AtHandler(m), m.bus, AtHandler(m).xhaddr) == Some(first)
    ensures (Cycle(m) == Cycle(Entering(m)))
            == (Returned(m) == first || !KeepsSlots(Perform(Advance(AtHandler(m)), m.bus, Slot(m, m.p1))))
  {
    hide Fetch, AfterFaults, Retire, Perform, InstrAt, KeepsSlots, Faulting, Returned;
    FaultingCycle(m);
    HandlerFacts(m);
    CleanCycle(Entering(m), first);
    RetireSame(Advance(AtHandler(m)), m.bus, Returned(m), first, Slot(m, m.p0), Slot(m, m.p1));
  }

  /** In flush mode it executes a bubble. */
  lemma {:induction false} EntersFlushedIff(m: Machine, first: Word)
    requires FlushOnTransfer(m.core.cr0) && m.core.r[0] == 0
    requires Faulting(m) && InstrAt(AtHandler(m), m.bus, AtHandler(m).xhaddr) == Some(first)
    ensures (Cycle(m) == Cycle(Entering(m))) == (Returned(m) == first)
    ensures Entering(m) == Machine(AtHandler(m), m.bus, 0, 0, 0)
  {
    hide Fetch, AfterFaults, Perform, InstrAt, Faulting, Returned, FlushOnTransfer, Cycle;
    HandlerFacts(m);
    ZeroIsNop(Advance(AtHandler(m)), m.bus);
    EntersIff(m, first);
  }

  /** A fetch whose translation failed returns the word at physical address 0, if any. */
  lemma {:induction false} FailedFetchReadsZero(c: Core, bus: Bus, addr: Word)
    requires TranslationFails(c, addr)
    ensures var i := FindDevice(bus, 0, 0);
            Read(c, bus, addr, EXEC).value == if i == |bus| then Some(0) else DeviceRead(bus[i], 0, EXEC)
  {
    hide DeviceRead, FindDevice, SearchMap, Readable, Enabled, AlignCauses;
  }

  /** So does a fetch from an address that translates to 0. */
  lemma {:induction false} FetchFromZero(c: Core, bus: Bus, addr: Word)
    requires Translate(c, addr, EXEC).phys == 0 && InstrAt(c, bus, addr).Some?
    ensures var i := FindDevice(bus, 0, 0);
            i < |bus| && InstrAt(c, bus, addr) == DeviceRead(bus[i], 0, EXEC)
  {
    hide DeviceRead, FindDevice, Translate;
  }

  /** Where the translation fails, the handler is entered as it should be if it lies at physical
      address 0. */
  lemma {:induction false} FailedTranslationEnters(m: Machine)
    requires Faulting(m) && TranslationFails(m.core, m.core.r[PC])
    requires Translate(AtHandler(m), m.core.xhaddr, EXEC).phys == 0
    requires InstrAt(AtHandler(m), m.bus, m.core.xhaddr).Some?
    ensures Cycle(m) == Cycle(Entering(m))
  {
    HandlerFacts(m);
    hide AfterFaults, Translate, TranslationFails, InstrAt, Cycle, Perform, FindDevice, DeviceRead, KeepsSlots;
    FailedFetchReadsZero(m.core, m.bus, m.core.r[PC]);
    FetchFromZero(AtHandler(m), m.bus, m.core.xhaddr);
    EntersIff(m, InstrAt(AtHandler(m), m.bus, m.core.xhaddr).value);
  }

  /** That is the case with the handler at address 0, where reset leaves it, if the exception turns
      the MMU off. */
  lemma {:induction false} ZeroHandlerEnters(m: Machine)
    requires Faulting(m) && TranslationFails(m.core, m.core.r[PC])
    requires m.core.xhaddr == 0 && !Enabled(AtHandler(m).ctrl) && InstrAt(AtHandler(m), m.bus, 0).Some?
    ensures Cycle(m) == Cycle(Entering(m))
  {
    hide AtHandler, TranslationFails, InstrAt, Cycle, Faulting, Enabled, AlignCauses;
    assert Translate(AtHandler(m), 0, EXEC).phys == 0;
    FailedTranslationEnters(m);
  }

  // ---- Running on ----

  lemma {:induction false} ThirdCycle(m: Machine, m1: Machine, m2: Machine)
    requires Cycle(m) == Running(m1) && Cycle(m1) == Running(m2)
    ensures Cycles(m, 3) == Cycle(m2)
  {
    hide Cycle;
    assert Cycles(m, 3) == Cycles(m1, 2);
    assert Cycles(m1, 2) == Cycles(m2, 1);
    if Cycle(m2).Running? {
      assert Cycles(m2, 1) == Cycles(Cycle(m2).m, 0);
    }
  }

  /** The instruction leaves r31 and the pipeline alone, taking (c, bus) to (c', bus'). */
  predicate Straight(c: Core, bus: Bus, w: Word, c': Core, bus': Bus) {
    Perform(c, bus, w) == Next(c', bus', false) && c'.r[PC] == c.r[PC]
  }

  lemma {:induction false} StraightRetires(c: Core, bus: Bus, w: Word, c': Core, bus': Bus, p0: Word, p1: Word)
    requires Straight(c, bus, w, c', bus')
    ensures Retire(c, bus, p0, p1, w) == Running(Machine(c', bus', p0, p1, w))
  {
    hide Perform;
  }

  /** After the fault the words left in the two slots run, then the returned word with the program
      counter twelve beyond the handler, and behind it the handler's second and third words. */
  lemma {:induction false} StrayAfterSlots(m: Machine, c1: Core, bus1: Bus, c2: Core, bus2: Bus,
                                           second: Word, third: Word)
    requires Faulting(m)
    requires Straight(Advance(AtHandler(m)), m.bus, Slot(m, m.p1), c1, bus1)
    requires InstrAt(c1, bus1, Plus(m.core.xhaddr, 4)) == Some(second)
    requires Straight(Advance(c1), bus1, Slot(m, m.p0), c2, bus2)
    requires InstrAt(c2, bus2, Plus(m.core.xhaddr, 8)) == Some(third)
    ensures Cycles(m, 3) == Retire(Advance(c2), bus2, third, second, Returned(m))
    ensures Advance(c2).r[PC] == Plus(m.core.xhaddr, 12)
  {
    hide Fetch, AfterFaults, Retire, InstrAt, Plus, Cycle, Faulting, Returned, Perform, Slot;
    var h, g, q := m.core.xhaddr, Returned(m), Slot(m, m.p0);
    HandlerFacts(m);
    FaultingCycle(m);
    PlusPlus(h, 4, 4);
    PlusPlus(h, 8, 4);
    StraightRetires(Advance(AtHandler(m)), m.bus, Slot(m, m.p1), c1, bus1, g, q);
    var m1 := Machine(c1, bus1, g, q, Slot(m, m.p1));
    CleanCycle(m1, second);
    StraightRetires(Advance(c1), bus1, q, c2, bus2, second, g);
    var m2 := Machine(c2, bus2, second, g, q);
    CleanCycle(m2, third);
    ThirdCycle(m, m1, m2);
  }

  /** In flush mode the slots are bubbles: the returned word runs in place of the handler's first. */
  lemma {:induction false} StrayRuns(m: Machine, second: Word, third: Word)
    requires FlushOnTransfer(m.core.cr0) && m.core.r[0] == 0 && Faulting(m)
    requires InstrAt(AtHandler(m), m.bus, Plus(m.core.xhaddr, 4)) == Some(second)
    requires InstrAt(AtHandler(m), m.bus, Plus(m.core.xhaddr, 8)) == Some(third)
    ensures var c := AtHandler(m);
            Cycles(m, 3) == Retire(SetPc(c, Plus(c.xhaddr, 12)), m.bus, third, second, Returned(m))
  {
    hide Fetch, AfterFaults, Retire, InstrAt, Plus, FlushOnTransfer, Cycles, Faulting, Returned, Perform;
    var c, h := AtHandler(m), m.core.xhaddr;
    HandlerFacts(m);
    PlusPlus(h, 4, 4);
    PlusPlus(h, 8, 4);
    var c1, c2 := Advance(c), SetPc(c, Plus(h, 8));
    SetPcTwice(c, Plus(h, 4), Plus(h, 8));
    SetPcTwice(c, Plus(h, 8), Plus(h, 12));
    ZeroIsNop(c1, m.bus);
    ZeroIsNop(c2, m.bus);
    FetchKeeps(c, c1, m.bus, Plus(h, 4));
    FetchKeeps(c, c2, m.bus, Plus(h, 8));
    StrayAfterSlots(m, c1, m.bus, c2, m.bus, second, third);
  }

  lemma {:induction false} FetchKeeps(c: Core, c': Core, bus: Bus, addr: Word)
    requires c' == c.(r := c'.r)
    ensures InstrAt(c', bus, addr) == InstrAt(c, bus, addr)
  {
    hide Read;
    FetchIgnoresRegisters(c, c'.r, bus, addr);
  }

  // ---- An example ----

  /** A page that may be read but not executed is fetched from all the same. */
  lemma {:induction false} UnexecutableIsFetched(c: Core, bus: Bus, addr: Word, e: Entry)
    requires Enabled(c.ctrl) && SearchMap(c, addr) == Some(e) && Readable(e) && !Executable(e)
    requires V2P(e, addr) % 4 == 0
    ensures var p := V2P(e, addr);
            var i := FindDevice(bus, p, 0);
            Read(c, bus, addr, EXEC) == if i == |bus| then ReadAccess([CAUSE_MMU_PROT_EXEC, CAUSE_MMU_NOMAP], Some(0))
                                        else ReadAccess([CAUSE_MMU_PROT_EXEC], DeviceRead(bus[i], p, EXEC))
  {
    hide SearchMap, Readable, Executable, Enabled, V2P, FindDevice, DeviceRead;
    assert [CAUSE_MMU_PROT_EXEC] + [] == [CAUSE_MMU_PROT_EXEC];
  }

  /** li a0, 1 */
  const STRAY: Word := 0x8880_0040

  /** Four zero words, the handler's, and the stray one behind them. */
  const BYTES: seq<Byte> := [0, 0, 0, 0, 0, 0, 0, 0, 0, 0, 0, 0, 0, 0, 0, 0, 0x40, 0x00, 0x80, 0x88]

  /** In flush mode with the MMU on: the handler's page may be executed, that of r31 only read. */
  function ExampleCore(): Core {
    var c := Reset().(ctrl := 1, cr0 := 8);
    var maps := c.maps[0 := Entry(0, 0, 0x10, 5)][1 := Entry(0x10, 0x100, 0x10, 4)];
    SetPc(c.(maps := maps), 0x100)
  }

  function ExampleMachine(): Machine {
    Machine(ExampleCore(), [Device(0, BYTES, false)], 0, 0, 0)
  }

  lemma {:induction false} ExampleMap(c: Core, addr: Word)
    requires c.maps == ExampleCore().maps && c.cmap == 0
    ensures addr < 0x10 ==> SearchMap(c, addr) == Some(Entry(0, 0, 0x10, 5))
    ensures addr == 0x100 ==> SearchMap(c, addr) == Some(Entry(0x10, 0x100, 0x10, 4))
  {
    var m := CurrentMap(c);
    assert m[0] == Entry(0, 0, 0x10, 5) && m[1] == Entry(0x10, 0x100, 0x10, 4);
    assert SearchFrom(m, addr, 0) == if Hits(m[0], addr) then Some(m[0]) else SearchFrom(m, addr, 1);
    assert SearchFrom(m, addr, 1) == if Hits(m[1], addr) then Some(m[1]) else SearchFrom(m, addr, 2);
  }

  lemma {:induction false} ExampleRead(addr: Word)
    requires addr in {0, 4, 8, 16}
    ensures FindDevice(ExampleMachine().bus, addr, 0) == 0
    ensures DeviceRead(ExampleMachine().bus[0], addr, EXEC) == Some(if addr == 16 then STRAY else 0)
  {
    hide ExampleCore, LittleWord;
    var d := Device(0, BYTES, false);
    assert |BYTES| == 20 && d.Covers(addr) && [d][0] == d;
    ExampleWord(addr);
  }

  lemma {:induction false} ExampleWord(addr: Word)
    requires addr in {0, 4, 8, 16}
    ensures LittleWord(BYTES, addr) == if addr == 16 then STRAY else 0
  {
    hide LittleWord, Little;
    P.LittleIsFour(BYTES, addr);
  }

  lemma {:induction false} ExampleHandler(c: Core, addr: Word)
    requires c.maps == ExampleCore().maps && c.cmap == 0 && c.ctrl == 1 && addr in {0, 4, 8}
    ensures InstrAt(c, ExampleMachine().bus, addr) == Some(0)
  {
    ExampleMap(c, addr);
    ExampleRead(addr);
    hide SearchMap, ExampleCore, ExampleMachine, FindDevice, DeviceRead, BYTES, STRAY;
  }

  lemma {:induction false} ExampleFetch()
    ensures Fetch(ExampleMachine()) == ReadAccess([CAUSE_MMU_PROT_EXEC], Some(STRAY))
    ensures ExampleMachine().core.r[PC] == 0x100
  {
    var m := ExampleMachine();
    ExampleMap(m.core, 0x100);
    ExampleRead(16);
    var e := Entry(0x10, 0x100, 0x10, 4);
    assert V2P(e, 0x100) == 16;
    hide SearchMap, FindDevice, DeviceRead, BYTES, STRAY, Read;
    UnexecutableIsFetched(m.core, m.bus, 0x100, e);
  }

  lemma {:induction false} ExampleAtHandler()
    ensures var m := ExampleMachine();
            var c := AtHandler(m);
            && c.maps == m.core.maps && c.cmap == 0 && c.ctrl == 1 && c.xhaddr == 0 == m.core.xhaddr
            && m.core.cr0 == 8 && m.core.r[0] == 0 && m.core.maps == ExampleCore().maps
  {
    ExampleFetch();
    hide Fetch, BYTES;
  }

  /** The stray word is not the handler's first, and it runs: after three cycles a0 is 1, though
      the handler consists of nops. */
  lemma {:induction false} StrayRunsInExample()
    ensures var m := ExampleMachine();
            && Faulting(m) && Returned(m) == STRAY && InstrAt(AtHandler(m), m.bus, m.core.xhaddr) == Some(0)
            && Cycle(m) != Cycle(Entering(m))
            && Cycles(m, 3).Running? && Cycles(m, 3).m.core.r[2] == 1
  {
    hide ExampleMachine, ExampleCore, Fetch, AfterFaults, InstrAt, Cycle, Cycles, Perform, FlushOnTransfer, Retire,
         AtHandler, Entering, STRAY;
    ExampleFetch();
    ExampleAtHandler();
    FlagIsSet();
    var m := ExampleMachine();
    var c := AtHandler(m);
    ExampleHandler(c, 0);
    ExampleHandler(c, 4);
    ExampleHandler(c, 8);
    HandlerFacts(m);
    EntersFlushedIff(m, 0);
    StrayIsNotZero();
    SmallSums();
    StrayRuns(m, 0, 0);
    StrayPerformed(SetPc(c, Plus(c.xhaddr, 12)), m.bus);
  }

  lemma {:induction false} FlagIsSet()
    ensures FlushOnTransfer(8)
  {
  }

  lemma {:induction false} StrayIsNotZero()
    ensures STRAY != 0
  {
  }

  lemma {:induction false} SmallSums()
    ensures Plus(0, 4) == 4 && Plus(0, 8) == 8
  {
  }

  lemma {:induction false} StrayPerformed(c: Core, bus: Bus)
    ensures Retire(c, bus, 0, 0, STRAY).Running? && Retire(c, bus, 0, 0, STRAY).m.core.r[2] == 1
  {
    StrayDecodes();
    hide Decode, STRAY, FlushOnTransfer;
  }

  lemma {:induction false} StrayDecodes()
    ensures Decode(STRAY) == LoadImm(2, 1)
  {
    StrayFields();
    DecodeSet(STRAY);
    hide Decode, Group, D, LiValue, STRAY;
  }

  lemma {:induction false} StrayFields()
    ensures Group(STRAY) == 17 && D(STRAY) == 2 && LiValue(STRAY) == 1
  {
    assert LiImm16(STRAY) == 1 && !LiSx(STRAY) && LiShift(STRAY) == 0;
  }
}
