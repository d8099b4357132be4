/** What a memory access raises and where it goes, case by case, from the bits of the map entry, the
    control word and the address, with the codes of the causes as numbers. */
module AccessMeaning {
  import opened Words
  import opened Alu
  import opened Core
  import opened Mmu
  import opened AluMeaning
  import Faults

  /** An entry whose range wraps around covers nothing. */
  predicate InRange(e: Entry, addr: Word) {
    e.vaddr <= addr < (e.vaddr + e.size) % M
  }

  function EntryAt(c: Core, i: nat): Entry
    requires i < 32
  {
    c.maps[32 * c.cmap + i]
  }

  /** No entry of the current map covers the address. */
  ghost predicate NoEntry(c: Core, addr: Word) {
    forall i: nat :: i < 32 ==> !InRange(EntryAt(c, i), addr)
  }

  /** Entry i of the current map is the first that covers the address. */
  ghost predicate FirstEntry(c: Core, addr: Word, i: nat) {
    i < 32 && InRange(EntryAt(c, i), addr) && forall j: nat :: j < i ==> !InRange(EntryAt(c, j), addr)
  }

  predicate AtDevice(d: Device, phys: Word) {
    d.base <= phys < (d.base + |d.bytes|) % M
  }

  ghost predicate NoDevice(bus: Bus, phys: Word) {
    forall k: nat :: k < |bus| ==> !AtDevice(bus[k], phys)
  }

  ghost predicate FirstDevice(bus: Bus, phys: Word, k: nat) {
    k < |bus| && AtDevice(bus[k], phys) && forall j: nat :: j < k ==> !AtDevice(bus[j], phys)
  }

  /** Fetches are aligned to four bytes, and with bit 11 of the control word set so are long accesses,
      and short ones to two. */
  predicate Misaligned(ctrl: Word, phys: Word, size: Size) {
    || (size == 3 && phys % 4 != 0)
    || (ctrl / 0x800 % 2 == 1 && size == 2 && phys % 4 != 0)
    || (ctrl / 0x800 % 2 == 1 && size == 1 && phys % 2 != 0)
  }

  function Alignment(ctrl: Word, phys: Word, size: Size): seq<Word> {
    if Misaligned(ctrl, phys, size) then [if size == 3 then 0x80_0004 else 0x80_0005] else []
  }

  /** The cause of a fetch from an entry without bit 0. */
  function Execution(e: Entry, size: Size): seq<Word> {
    if size == 3 && e.attr % 2 == 0 then [0x80_0003] else []
  }

  // ---- Translation ----

  lemma {:induction false} SearchIs(c: Core, addr: Word, i: nat)
    requires i <= 32 && forall j: nat :: j < i ==> !InRange(EntryAt(c, j), addr)
    ensures NoEntry(c, addr) ==> SearchFrom(CurrentMap(c), addr, i) == None
    ensures forall k: nat :: FirstEntry(c, addr, k) ==> SearchFrom(CurrentMap(c), addr, i) == Some(EntryAt(c, k))
    decreases 32 - i
  {
    hide InRange, Hits;
    if i == 32 {
    } else {
      HitsIs(EntryAt(c, i), addr);
      assert CurrentMap(c)[i] == EntryAt(c, i);
      if Hits(EntryAt(c, i), addr) {
        forall k: nat | FirstEntry(c, addr, k)
          ensures k == i
        {
        }
      } else {
        SearchIs(c, addr, i + 1);
      }
    }
  }

  lemma {:induction false} HitsIs(e: Entry, addr: Word)
    ensures Hits(e, addr) == InRange(e, addr)
  {
  }

  lemma {:induction false} AlignmentIs(c: Core, phys: Word, size: Size)
    ensures AlignCauses(c, phys, size) == Alignment(c.ctrl, phys, size)
  {
  }

  /** With bit 0 of the control word clear addresses are physical. */
  lemma {:induction false} PhysicalTranslation(c: Core, addr: Word, size: Size)
    requires c.ctrl % 2 == 0
    ensures Translate(c, addr, size) == Translation(addr, Alignment(c.ctrl, addr, size))
  {
    AlignmentIs(c, addr, size);
    hide SearchMap, AlignCauses, Alignment;
  }

  lemma {:induction false} UnmappedTranslation(c: Core, addr: Word, size: Size)
    requires c.ctrl % 2 == 1 && NoEntry(c, addr)
    ensures Translate(c, addr, size) == Translation(0, [0x80_0000])
  {
    SearchIs(c, addr, 0);
    hide SearchFrom, AlignCauses, NoEntry;
  }

  /** Without bit 2 of the entry the physical address is 0; the missing bit 0 is reported first. */
  lemma {:induction false} UnreadableTranslation(c: Core, addr: Word, size: Size, i: nat)
    requires c.ctrl % 2 == 1 && FirstEntry(c, addr, i) && EntryAt(c, i).attr / 4 % 2 == 0
    ensures Translate(c, addr, size) == Translation(0, Execution(EntryAt(c, i), size) + [0x80_0001])
  {
    SearchIs(c, addr, 0);
    hide SearchFrom, AlignCauses, FirstEntry;
  }

  /** With it, the physical address is as far from the entry's physical base as the virtual one is from
      its virtual base. */
  lemma {:induction false} ReadableTranslation(c: Core, addr: Word, size: Size, i: nat)
    requires c.ctrl % 2 == 1 && FirstEntry(c, addr, i) && EntryAt(c, i).attr / 4 % 2 == 1
    ensures var e := EntryAt(c, i);
            var phys := (e.paddr + addr - e.vaddr) % M;
            Translate(c, addr, size) == Translation(phys, Execution(e, size) + Alignment(c.ctrl, phys, size))
  {
    var e := EntryAt(c, i);
    AlignmentIs(c, V2P(e, addr), size);
    V2PIs(e, addr);
    SearchIs(c, addr, 0);
    hide SearchFrom, AlignCauses, FirstEntry, V2P, Alignment;
  }

  lemma {:induction false} V2PIs(e: Entry, addr: Word)
    ensures V2P(e, addr) == (e.paddr + addr - e.vaddr) % M
  {
    WrapSum(e.paddr, addr - e.vaddr);
  }

  /** One of the four cases applies to every address. */
  lemma {:induction false} CasesCover(c: Core, addr: Word, n: nat)
    requires n < 32 && InRange(EntryAt(c, n), addr)
    ensures exists i: nat :: i <= n && FirstEntry(c, addr, i)
    decreases n
  {
    hide InRange, EntryAt;
    if j: nat :| j < n && InRange(EntryAt(c, j), addr) {
      CasesCover(c, addr, j);
    } else {
      assert FirstEntry(c, addr, n);
    }
  }

  // ---- Accesses ----

  lemma {:induction false} FindIs(bus: Bus, phys: Word)
    ensures var k := FindDevice(bus, phys, 0);
            if k == |bus| then NoDevice(bus, phys) else FirstDevice(bus, phys, k)
  {
    hide FindDevice;
    forall d: Device
      ensures d.Covers(phys) == AtDevice(d, phys)
    {
    }
    hide AtDevice;
  }

  ghost function Missing(bus: Bus, phys: Word): seq<Word> {
    if NoDevice(bus, phys) then [0x80_0000] else []
  }

  /** An access raises the causes of its translation, and 0x800000 where no device is. */
  lemma {:induction false} AccessCauses(c: Core, bus: Bus, addr: Word, v: Word, size: Size)
    ensures var t := Translate(c, addr, size);
            Read(c, bus, addr, size).causes == Write(c, bus, addr, v, size).causes == t.causes + Missing(bus, t.phys)
  {
    var t := Translate(c, addr, size);
    FindIs(bus, t.phys);
    assert t.causes + [] == t.causes;
    hide Translate, FindDevice, DeviceRead, DeviceWrite, NoDevice;
  }

  lemma {:induction false} LastCause(c: Core, causes: seq<Word>)
    ensures RaiseAll(c, causes).xcause == if causes == [] then c.xcause else causes[|causes| - 1]
  {
    hide Faults.LevelAfter, Faults.CtrlAfter, RaiseAll;
    Faults.RaiseAllClosedForm(c, causes);
  }

  /** The causes of a read and of a write, in order, and the xcause they end with: with the MMU off; */
  lemma {:induction false} PhysicalCauses(c: Core, bus: Bus, addr: Word, v: Word, size: Size)
    requires c.ctrl % 2 == 0
    ensures var causes := Read(c, bus, addr, size).causes;
            && causes == Write(c, bus, addr, v, size).causes
            && causes == Alignment(c.ctrl, addr, size) + Missing(bus, addr)
            && RaiseAll(c, causes).xcause == if NoDevice(bus, addr) then 0x80_0000
                                             else if Misaligned(c.ctrl, addr, size)
                                             then if size == 3 then 0x80_0004 else 0x80_0005
                                             else c.xcause
  {
    hide Read, Write, Translate, RaiseAll, NoDevice, Misaligned;
    PhysicalTranslation(c, addr, size);
    AccessCauses(c, bus, addr, v, size);
    LastCause(c, Read(c, bus, addr, size).causes);
  }

  /** where no entry covers the address, twice if no device is at 0; */
  lemma {:induction false} UnmappedCauses(c: Core, bus: Bus, addr: Word, v: Word, size: Size)
    requires c.ctrl % 2 == 1 && NoEntry(c, addr)
    ensures var causes := Read(c, bus, addr, size).causes;
            && causes == Write(c, bus, addr, v, size).causes
            && causes == (if NoDevice(bus, 0) then [0x80_0000, 0x80_0000] else [0x80_0000])
            && RaiseAll(c, causes).xcause == 0x80_0000
  {
    hide Read, Write, Translate, RaiseAll, NoDevice, NoEntry;
    UnmappedTranslation(c, addr, size);
    AccessCauses(c, bus, addr, v, size);
    LastCause(c, Read(c, bus, addr, size).causes);
  }

  /** where the first entry that does is not readable; */
  lemma {:induction false} UnreadableCauses(c: Core, bus: Bus, addr: Word, v: Word, size: Size, i: nat)
    requires c.ctrl % 2 == 1 && FirstEntry(c, addr, i) && EntryAt(c, i).attr / 4 % 2 == 0
    ensures var causes := Read(c, bus, addr, size).causes;
            && causes == Write(c, bus, addr, v, size).causes
            && causes == Execution(EntryAt(c, i), size) + [0x80_0001] + Missing(bus, 0)
            && RaiseAll(c, causes).xcause == if NoDevice(bus, 0) then 0x80_0000 else 0x80_0001
  {
    hide Read, Write, Translate, RaiseAll, NoDevice, FirstEntry, Execution;
    UnreadableTranslation(c, addr, size, i);
    AccessCauses(c, bus, addr, v, size);
    LastCause(c, Read(c, bus, addr, size).causes);
  }

  /** and where it is. */
  lemma {:induction false} ReadableCauses(c: Core, bus: Bus, addr: Word, v: Word, size: Size, i: nat)
    requires c.ctrl % 2 == 1 && FirstEntry(c, addr, i) && EntryAt(c, i).attr / 4 % 2 == 1
    ensures var e := EntryAt(c, i);
            var phys := (e.paddr + addr - e.vaddr) % M;
            var causes := Read(c, bus, addr, size).causes;
            && causes == Write(c, bus, addr, v, size).causes
            && causes == Execution(e, size) + Alignment(c.ctrl, phys, size) + Missing(bus, phys)
            && RaiseAll(c, causes).xcause == if NoDevice(bus, phys) then 0x80_0000
                                             else if Misaligned(c.ctrl, phys, size)
                                             then if size == 3 then 0x80_0004 else 0x80_0005
                                             else if size == 3 && e.attr % 2 == 0 then 0x80_0003
                                             else c.xcause
  {
    hide Read, Write, Translate, RaiseAll, NoDevice, FirstEntry, Misaligned;
    ReadableTranslation(c, addr, size, i);
    AccessCauses(c, bus, addr, v, size);
    LastCause(c, Read(c, bus, addr, size).causes);
  }

  // ---- Devices ----

  /** The first device at the physical address serves the access; with none a read yields 0 and a
      write changes nothing. */
  lemma {:induction false} AccessGoesTo(c: Core, bus: Bus, addr: Word, v: Word, size: Size, k: nat)
    ensures var phys := Translate(c, addr, size).phys;
            && (FirstDevice(bus, phys, k) ==>
                  && bus[k].Covers(phys)
                  && Read(c, bus, addr, size).value == DeviceRead(bus[k], phys, size)
                  && Write(c, bus, addr, v, size).bus ==
                       match DeviceWrite(bus[k], phys, v, size)
                       case None => None
                       case Some(d) => Some(bus[k := d]))
            && (NoDevice(bus, phys) ==>
                  Read(c, bus, addr, size).value == Some(0) && Write(c, bus, addr, v, size).bus == Some(bus))
  {
    var phys := Translate(c, addr, size).phys;
    FindIs(bus, phys);
    hide Translate, FindDevice, DeviceRead, DeviceWrite;
  }

  function FromBytes(p: Byte, q: Byte, r: Byte, s: Byte): Word {
    p + 0x100 * q + 0x1_0000 * r + 0x100_0000 * s
  }

  /** A read needs four bytes whatever its size, and takes one, two or all of them, lowest first. */
  lemma {:induction false} DeviceReadIs(d: Device, phys: Word, size: Size)
    requires d.Covers(phys)
    ensures var b, i := d.bytes, phys - d.base;
            DeviceRead(d, phys, size) ==
              if i + 4 > |b| then None
              else if size == 0 then Some(b[i])
              else if size == 1 then Some(FromBytes(b[i], b[i + 1], 0, 0))
              else Some(FromBytes(b[i], b[i + 1], b[i + 2], b[i + 3]))
  {
    var b, i := d.bytes, phys - d.base;
    if i + 4 <= |b| {
      FourBytes(b, i);
      LowBytes(b[i], b[i + 1], b[i + 2], b[i + 3]);
    }
    hide Little;
  }

  lemma {:induction false} FourBytes(b: seq<Byte>, i: nat)
    requires i + 4 <= |b|
    ensures Little(b, i, 4) == FromBytes(b[i], b[i + 1], b[i + 2], b[i + 3])
  {
    assert Little(b, i + 3, 1) == b[i + 3] + 256 * Little(b, i + 4, 0);
    assert Little(b, i + 2, 2) == b[i + 2] + 256 * Little(b, i + 3, 1);
    assert Little(b, i + 1, 3) == b[i + 1] + 256 * Little(b, i + 2, 2);
  }

  lemma {:induction false} LowBytes(p: Byte, q: Byte, r: Byte, s: Byte)
    ensures var v := FromBytes(p, q, r, s);
            v % 0x100 == p && v % 0x1_0000 == FromBytes(p, q, 0, 0)
  {
    var v := FromBytes(p, q, r, s);
    DivModUnique(v, 0x100, q + 0x100 * r + 0x1_0000 * s, p);
    DivModUnique(v, 0x1_0000, r + 0x100 * s, p + 0x100 * q);
  }

  /** A write to a writable device replaces one, two or four bytes, lowest first; the others ignore it. */
  lemma {:induction false} DeviceWriteIs(d: Device, phys: Word, v: Word, size: Size)
    requires d.Covers(phys)
    ensures var b, i := d.bytes, phys - d.base;
            DeviceWrite(d, phys, v, size) ==
              if !d.writable then Some(d)
              else if i + (if size == 0 then 1 else if size == 1 then 2 else 4) > |b| then None
              else if size == 0 then Some(d.(bytes := b[i := v % 0x100]))
              else if size == 1 then Some(d.(bytes := b[i := v % 0x100][i + 1 := v / 0x100 % 0x100]))
              else Some(d.(bytes := b[i := v % 0x100][i + 1 := v / 0x100 % 0x100]
                                     [i + 2 := v / 0x1_0000 % 0x100][i + 3 := v / 0x100_0000]))
  {
    var b, i := d.bytes, phys - d.base;
    if i + Width(size) <= |b| {
      StoreIs(b, i, v, Width(size));
    }
    hide Store;
  }

  lemma {:induction false} StoreIs(b: seq<Byte>, i: nat, v: Word, n: nat)
    requires (n == 1 || n == 2 || n == 4) && i + n <= |b|
    ensures Store(b, i, v, n) ==
              if n == 1 then b[i := v % 0x100]
              else if n == 2 then b[i := v % 0x100][i + 1 := v / 0x100 % 0x100]
              else b[i := v % 0x100][i + 1 := v / 0x100 % 0x100]
                    [i + 2 := v / 0x1_0000 % 0x100][i + 3 := v / 0x100_0000]
  {
    DivModTwice(v, 0x100, 0x100);
    DivModTwice(v, 0x1_0000, 0x100);
    var b1 := b[i := v % 0x100];
    assert Store(b, i, v, 1) == Store(b1, i + 1, v / 256, 0);
    if n >= 2 {
      var b2 := b1[i + 1 := v / 0x100 % 0x100];
      assert Store(b, i, v, n) == Store(b1, i + 1, v / 256, n - 1) == Store(b2, i + 2, v / 256 / 256, n - 2);
      if n == 4 {
        var b3 := b2[i + 2 := v / 0x1_0000 % 0x100];
        assert Store(b2, i + 2, v / 256 / 256, 2) == Store(b3, i + 3, v / 256 / 256 / 256, 1);
      }
    }
  }
}
