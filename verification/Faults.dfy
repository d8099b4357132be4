/** What the exceptions of one memory access do to the processor, in closed form. */
module Faults {
  import opened Words
  import opened Alu
  import opened Core
  import opened Mmu
  import opened Instructions
  import opened Execute
  import Privilege
  import FlatMemory

  lemma {:induction false} TranslationCauses(c: Core, addr: Word, size: Size)
    ensures |Translate(c, addr, size).causes| <= if size == EXEC then 2 else 1
  {
    hide SearchMap, V2P, Readable, Executable, AlignChecked;
  }

  /** An access raises at most three exceptions: three only with the size of a fetch, which size
      field 3 of a load or store is too, and two with the others. */
  lemma {:induction false} AtMostThree(c: Core, bus: Bus, addr: Word, v: Word, size: Size)
    ensures |Read(c, bus, addr, size).causes| <= if size == EXEC then 3 else 2
    ensures |Write(c, bus, addr, v, size).causes| <= if size == EXEC then 3 else 2
  {
    hide Translate, DeviceRead, DeviceWrite, FindDevice;
    TranslationCauses(c, addr, size);
  }

  function LevelAfter(pl: Level, k: nat): Level {
    if pl >= k then pl - k else 0
  }

  /** The control word after k exceptions: entering level 1 may set the enable bit, and
      entering level 0 after that may clear it. */
  function CtrlAfter(c: Core, k: nat): Word {
    var final := LevelAfter(c.pl, k);
    var c1 := if c.pl >= 2 && final <= 1 && EnableOnTpl1(c.ctrl) then SetEnable(c.ctrl) else c.ctrl;
    if c.pl >= 1 && final == 0 && DisableOnTpl0(c.ctrl) then ClearEnable(c1) else c1
  }

  /** The whole processor state after the exceptions of an access with causes x_1 .. x_k. */
  function AfterFaults(c: Core, causes: seq<Word>): Core {
    var k := |causes|;
    if k == 0 then c
    else
      var pl := LevelAfter(c.pl, k);
      SetPc(c.(pl := pl,
               xcause := causes[k - 1],
               xpc := if k == 1 then c.r[PC] else c.xhaddr,
               ctrl := CtrlAfter(c, k),
               cmap := if c.pl > 0 && RemapOnPlt(c.ctrl) then pl else c.cmap),
            c.xhaddr)
  }

  lemma {:induction false} OneFault(c: Core, cause: Word)
    ensures Raise(c, cause) == AfterFaults(c, [cause])
  {
    hide EnableOnTpl1, DisableOnTpl0, RemapOnPlt, SetEnable, ClearEnable;
    Privilege.EnableBitAlone(c.ctrl);
    ClearIsIdempotent(c.ctrl);
  }

  lemma {:induction false} ClearIsIdempotent(ctrl: Word)
    ensures ClearEnable(SetEnable(ctrl)) == ClearEnable(ctrl) == ClearEnable(ClearEnable(ctrl))
    ensures SetEnable(SetEnable(ctrl)) == SetEnable(ctrl)
  {
  }

  lemma {:induction false} MoreFaults(c: Core, cause: Word, rest: seq<Word>)
    requires rest != []
    ensures AfterFaults(Raise(c, cause), rest) == AfterFaults(c, [cause] + rest)
  {
    hide EnableOnTpl1, DisableOnTpl0, RemapOnPlt, SetEnable, ClearEnable, Raise;
    OneFault(c, cause);
    Privilege.EnableBitAlone(c.ctrl);
    ClearIsIdempotent(c.ctrl);
    assert c.r[PC := c.xhaddr][PC := c.xhaddr] == c.r[PC := c.xhaddr];
  }

  /** The closed form: nothing changes for k = 0; otherwise r31 is the handler, xcause the last
      cause, the level k lower, and xpc the old r31 for one exception and the handler for more. */
  lemma {:induction false} RaiseAllClosedForm(c: Core, causes: seq<Word>)
    ensures RaiseAll(c, causes) == AfterFaults(c, causes)
    decreases |causes|
  {
    hide Raise, AfterFaults;
    if causes == [] {
      NoFault(c);
    } else {
      assert causes == [causes[0]] + causes[1..];
      RaiseAllClosedForm(Raise(c, causes[0]), causes[1..]);
      if causes[1..] == [] {
        OneFault(c, causes[0]);
        NoFault(Raise(c, causes[0]));
        assert causes == [causes[0]];
      } else {
        MoreFaults(c, causes[0], causes[1..]);
      }
    }
  }

  lemma {:induction false} NoFault(c: Core)
    ensures AfterFaults(c, []) == c
  {
  }

  /** A load as a whole: the closed form, then the destination, and a flush exactly when the
      flag is set and the load faulted or wrote r31. */
  lemma {:induction false} LoadClosedForm(c: Core, bus: Bus, d: Reg, addr: Word, size: Size)
    ensures var a := Read(c, bus, addr, size);
            DoLoad(c, bus, d, addr, size) ==
              if a.value == None then Effect.Undefined
              else Next(SetReg(AfterFaults(c, a.causes), d, a.value.value), bus,
                        (a.causes != [] || d == PC) && FlushOnTransfer(c.cr0))
  {
    hide Read, AfterFaults, RaiseAll;
    RaiseAllClosedForm(c, Read(c, bus, addr, size).causes);
  }

  /** A faulting load does no more than its exceptions exactly if the value it writes is already in
      its destination, which for r31 is the handler's address. */
  lemma {:induction false} FaultingLoadHarmlessIff(c: Core, bus: Bus, d: Reg, addr: Word, size: Size)
    requires Read(c, bus, addr, size).causes != [] && Read(c, bus, addr, size).value.Some?
    ensures var a := Read(c, bus, addr, size);
            var after := AfterFaults(c, a.causes);
            (DoLoad(c, bus, d, addr, size) == Next(after, bus, FlushOnTransfer(c.cr0)))
            == (after.r[d] == a.value.value)
  {
    hide Read, AfterFaults, DoLoad, FlushOnTransfer;
    LoadClosedForm(c, bus, d, addr, size);
    var a := Read(c, bus, addr, size);
    var after := AfterFaults(c, a.causes);
    assert SetReg(after, d, a.value.value).r[d] == a.value.value;
    assert after.r[d := after.r[d]] == after.r;
  }

  /** With the MMU off and no device at all, a byte load raises one exception and clears its
      destination. */
  lemma {:induction false} FaultingLoadClears(c: Core, d: Reg, addr: Word)
    requires !Enabled(c.ctrl)
    ensures Read(c, [], addr, BYTE) == ReadAccess([CAUSE_MMU_NOMAP], Some(0))
    ensures DoLoad(c, [], d, addr, BYTE).Next? && DoLoad(c, [], d, addr, BYTE).core.r[d] == 0
  {
    NothingThere(c, addr);
    hide Read, AfterFaults, DoLoad, FlushOnTransfer, Enabled;
    LoadClosedForm(c, [], d, addr, BYTE);
  }

  lemma {:induction false} NothingThere(c: Core, addr: Word)
    requires !Enabled(c.ctrl)
    ensures Read(c, [], addr, BYTE) == ReadAccess([CAUSE_MMU_NOMAP], Some(0))
  {
    hide Enabled, AlignChecked;
    AlignmentOfBytes(c, addr);
    hide AlignCauses;
  }

  lemma {:induction false} AlignmentOfBytes(c: Core, addr: Word)
    ensures AlignCauses(c, addr, BYTE) == []
  {
    hide AlignChecked;
  }

  /** The fetch of a cycle that faults k times: execution is at the handler plus four, and the
      pipeline is emptied behind the fetched value exactly when the flag is set. */
  lemma {:induction false} FetchFaultClosedForm(m: Machine)
    requires Read(m.core, m.bus, m.core.r[PC], EXEC).value.Some?
    ensures var f := Read(m.core, m.bus, m.core.r[PC], EXEC);
            var flushed := f.causes != [] && FlushOnTransfer(m.core.cr0);
            Cycle(m) == Retire(Advance(AfterFaults(m.core, f.causes)), m.bus, f.value.value,
                               if flushed then 0 else m.p0, if flushed then 0 else m.p1)
  {
    hide Read, AfterFaults, RaiseAll, Retire;
    RaiseAllClosedForm(m.core, Read(m.core, m.bus, m.core.r[PC], EXEC).causes);
  }

  // ---- Failed translations ----

  /** No entry covers the address, or the entry is not readable. */
  predicate TranslationFails(c: Core, addr: Word) {
    Enabled(c.ctrl) && match SearchMap(c, addr) case None => true case Some(e) => !Readable(e)
  }

  /** A store whose translation failed still goes to physical address 0. */
  lemma {:induction false} FailedStoreGoesToZero(c: Core, bus: Bus, addr: Word, v: Word, size: Size)
    requires TranslationFails(c, addr)
    ensures var i := FindDevice(bus, 0, 0);
            Write(c, bus, addr, v, size).bus ==
              if i == |bus| then Some(bus)
              else match DeviceWrite(bus[i], 0, v, size)
                   case None => None
                   case Some(d) => Some(bus[i := d])
  {
    hide DeviceWrite, FindDevice, SearchMap, Readable, Enabled, AlignCauses;
  }

  /** A store whose translation failed changes no memory, whatever its value, exactly if no device
      covers physical address 0 or the first that does is read-only, as the BIOS ROM is. */
  lemma {:induction false} FailedStoreHarmlessIff(c: Core, bus: Bus, addr: Word, size: Size)
    requires TranslationFails(c, addr)
    ensures var i := FindDevice(bus, 0, 0);
            (forall v: Word :: Write(c, bus, addr, v, size).bus == Some(bus)) == (i == |bus| || !bus[i].writable)
  {
    hide Write, FindDevice, TranslationFails, DeviceWrite;
    var i := FindDevice(bus, 0, 0);
    if i == |bus| || !bus[i].writable {
      forall v: Word
        ensures Write(c, bus, addr, v, size).bus == Some(bus)
      {
        FailedStoreChangesNothing(c, bus, addr, v, size);
      }
    } else {
      var v: Word := DifferentByte(bus[i]);
      FailedStoreChanges(c, bus, addr, v, size);
      assert Write(c, bus, addr, v, size).bus != Some(bus);
    }
  }

  function DifferentByte(d: Device): Word {
    if d.bytes == [] || d.bytes[0] != 0 then 0 else 1
  }

  /** It changes no memory in those cases, */
  lemma {:induction false} FailedStoreChangesNothing(c: Core, bus: Bus, addr: Word, v: Word, size: Size)
    requires TranslationFails(c, addr)
    requires var i := FindDevice(bus, 0, 0); i == |bus| || !bus[i].writable
    ensures Write(c, bus, addr, v, size).bus == Some(bus)
  {
    hide Write, FindDevice, TranslationFails;
    FailedStoreGoesToZero(c, bus, addr, v, size);
    var i := FindDevice(bus, 0, 0);
    if i < |bus| {
      assert bus[i := bus[i]] == bus;
    }
  }

  /** and does for some value in all others. */
  lemma {:induction false} FailedStoreChanges(c: Core, bus: Bus, addr: Word, v: Word, size: Size)
    requires TranslationFails(c, addr)
    requires var i := FindDevice(bus, 0, 0); i < |bus| && bus[i].writable && v == DifferentByte(bus[i])
    ensures Write(c, bus, addr, v, size).bus != Some(bus)
  {
    hide Write, FindDevice, TranslationFails, Store;
    FailedStoreGoesToZero(c, bus, addr, v, size);
    var i := FindDevice(bus, 0, 0);
    var d := bus[i];
    if Width(size) <= |d.bytes| {
      FlatMemory.StoredByte(d.bytes, 0, v, Width(size), 0);
      assert Store(d.bytes, 0, v, Width(size)) != d.bytes;
      assert Write(c, bus, addr, v, size).bus.value[i] != bus[i];
    }
  }

  /** For example: with RAM at physical 0 an unmapped store of 1 changes a byte. */
  lemma {:induction false} FailedStoreReachesRam(c: Core, addr: Word)
    requires TranslationFails(c, addr)
    ensures Write(c, [Device(0, [0, 0, 0, 0], true)], addr, 1, BYTE).bus
              == Some([Device(0, [1, 0, 0, 0], true)])
  {
    hide TranslationFails, Write, FindDevice, Store;
    var ram := Device(0, [0, 0, 0, 0], true);
    FirstDevice(ram);
    StoreOne();
    FailedStoreGoesToZero(c, [ram], addr, 1, BYTE);
    var written := Device(0, [1, 0, 0, 0], true);
    assert DeviceWrite(ram, 0, 1, BYTE) == Some(written);
    assert [ram][0 := written] == [written];
  }

  lemma {:induction false} FirstDevice(d: Device)
    requires d.Covers(0)
    ensures FindDevice([d], 0, 0) == 0
  {
    assert [d][0] == d;
  }

  lemma {:induction false} StoreOne()
    ensures Store([0, 0, 0, 0], 0, 1, 1) == [1, 0, 0, 0]
  {
    var b: seq<Byte> := [0, 0, 0, 0];
    assert Store(b, 0, 1, 1) == Store(b[0 := 1], 1, 0, 0);
  }
}
