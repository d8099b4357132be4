/** Translation, device search and buffers together behave as one flat little-endian byte
    memory, whatever the order of the map entries and of the devices. */
module FlatMemory {
  import opened Words
  import opened Alu
  import opened Core
  import opened Mmu

  // ---- Disjointness ----

  /** No physical address is covered by two devices. */
  ghost predicate DevicesApart(bus: Bus) {
    forall i, j, p: Word :: 0 <= i < j < |bus| ==> !(bus[i].Covers(p) && bus[j].Covers(p))
  }

  /** No virtual address is covered by two entries. */
  ghost predicate EntriesApart(m: seq<Entry>) {
    forall i, j, v: Word :: 0 <= i < j < |m| ==> !(Hits(m[i], v) && Hits(m[j], v))
  }

  predicate RangesApart(a: int, m: int, b: int, n: int) {
    m == 0 || n == 0 || a + m <= b || b + n <= a
  }

  /** The physical ranges of the entries do not wrap and do not overlap. */
  ghost predicate TargetsApart(m: seq<Entry>) {
    && (forall i :: 0 <= i < |m| ==> m[i].paddr + m[i].size <= 0x1_0000_0000)
    && (forall i, j :: 0 <= i < j < |m| ==> RangesApart(m[i].paddr, m[i].size, m[j].paddr, m[j].size))
  }

  // ---- Search ----

  lemma {:induction false} SearchFinds(m: seq<Entry>, v: Word, k: nat, i: nat)
    requires EntriesApart(m) && k <= i < |m| && Hits(m[i], v)
    ensures SearchFrom(m, v, k) == Some(m[i])
    decreases |m| - k
  {
    if k >= i {
    } else {
      assert !Hits(m[k], v);
      SearchFinds(m, v, k + 1, i);
    }
  }

  lemma {:induction false} SearchIndex(m: seq<Entry>, v: Word, k: nat) returns (i: nat)
    requires k <= |m|
    ensures match SearchFrom(m, v, k)
            case Some(e) => k <= i < |m| && m[i] == e && Hits(e, v)
            case None => forall j :: k <= j < |m| ==> !Hits(m[j], v)
    decreases |m| - k
  {
    i := k;
    if k < |m| && !Hits(m[k], v) {
      i := SearchIndex(m, v, k + 1);
    }
  }

  lemma {:induction false} FoundInBoth(m: seq<Entry>, m': seq<Entry>, v: Word)
    requires EntriesApart(m') && multiset(m) == multiset(m')
    ensures SearchFrom(m, v, 0).Some? ==> SearchFrom(m', v, 0) == SearchFrom(m, v, 0)
  {
    var i := SearchIndex(m, v, 0);
    if SearchFrom(m, v, 0).Some? {
      assert m[i] in multiset(m');
      var j :| 0 <= j < |m'| && m'[j] == m[i];
      SearchFinds(m', v, 0, j);
    }
  }

  /** The order of the entries of a map does not matter. */
  lemma {:induction false} EntryOrderIrrelevant(m: seq<Entry>, m': seq<Entry>, v: Word)
    requires EntriesApart(m) && EntriesApart(m') && multiset(m) == multiset(m')
    ensures SearchFrom(m, v, 0) == SearchFrom(m', v, 0)
  {
    FoundInBoth(m, m', v);
    FoundInBoth(m', m, v);
  }

  lemma {:induction false} DeviceFinds(bus: Bus, p: Word, i: nat)
    requires DevicesApart(bus) && i < |bus| && bus[i].Covers(p)
    ensures FindDevice(bus, p, 0) == i
  {
    var k := FindDevice(bus, p, 0);
    assert k <= i;
  }

  /** The order of the devices does not matter to a read. */
  lemma {:induction false} DeviceOrderIrrelevant(c: Core, bus: Bus, bus': Bus, addr: Word, size: Size)
    requires DevicesApart(bus) && DevicesApart(bus') && multiset(bus) == multiset(bus')
    ensures Read(c, bus, addr, size) == Read(c, bus', addr, size)
  {
    hide Translate, DeviceRead;
    var p := Translate(c, addr, size).phys;
    SameDevice(bus, bus', p);
  }

  lemma {:induction false} DeviceInBoth(bus: Bus, bus': Bus, p: Word)
    requires DevicesApart(bus') && multiset(bus) == multiset(bus')
    ensures var i, i' := FindDevice(bus, p, 0), FindDevice(bus', p, 0);
            i < |bus| ==> i' < |bus'| && bus[i] == bus'[i']
  {
    var i := FindDevice(bus, p, 0);
    if i < |bus| {
      assert bus[i] in multiset(bus');
      var j :| 0 <= j < |bus'| && bus'[j] == bus[i];
      DeviceFinds(bus', p, j);
    }
  }

  lemma {:induction false} SameDevice(bus: Bus, bus': Bus, p: Word)
    requires DevicesApart(bus) && DevicesApart(bus') && multiset(bus) == multiset(bus')
    ensures var i, i' := FindDevice(bus, p, 0), FindDevice(bus', p, 0);
            if i == |bus| then i' == |bus'| else i' < |bus'| && bus[i] == bus'[i']
  {
    DeviceInBoth(bus, bus', p);
    DeviceInBoth(bus', bus, p);
  }

  lemma {:induction false} ReplaceInMultiset(bus: Bus, i: nat, d: Device)
    requires i < |bus|
    ensures multiset(bus[i := d]) == multiset(bus) - multiset{bus[i]} + multiset{d}
  {
    assert bus == bus[..i] + [bus[i]] + bus[i + 1..];
    assert bus[i := d] == bus[..i] + [d] + bus[i + 1..];
  }

  /** Nor to a write: the same devices result, in their own order. */
  lemma {:induction false} DeviceOrderIrrelevantToWrites(c: Core, bus: Bus, bus': Bus, addr: Word, v: Word, size: Size)
    requires DevicesApart(bus) && DevicesApart(bus') && multiset(bus) == multiset(bus')
    ensures var w, w' := Write(c, bus, addr, v, size), Write(c, bus', addr, v, size);
            w.causes == w'.causes && w.bus.Some? == w'.bus.Some?
            && (w.bus.Some? ==> multiset(w.bus.value) == multiset(w'.bus.value))
  {
    hide Translate, DeviceWrite;
    var p := Translate(c, addr, size).phys;
    SameDevice(bus, bus', p);
    var i, i' := FindDevice(bus, p, 0), FindDevice(bus', p, 0);
    if i < |bus| && DeviceWrite(bus[i], p, v, size).Some? {
      var d := DeviceWrite(bus[i], p, v, size).value;
      ReplaceInMultiset(bus, i, d);
      ReplaceInMultiset(bus', i', d);
    }
  }

  // ---- Translation ----

  /** Where a virtual address lies physically, if it is mapped readable or the MMU is off. */
  function Phys(c: Core, v: Word): Option<Word> {
    if !Enabled(c.ctrl) then Some(v)
    else
      match SearchMap(c, v)
      case None => None
      case Some(e) => if Readable(e) then Some(V2P(e, v)) else None
  }

  lemma {:induction false} TranslateIsPhys(c: Core, v: Word, size: Size)
    ensures Phys(c, v).Some? ==> Translate(c, v, size).phys == Phys(c, v).value
    ensures Phys(c, v) == None ==> Translate(c, v, size).causes != []
  {
    hide SearchMap, Readable, V2P, AlignCauses, Enabled;
  }

  lemma {:induction false} V2PInRange(e: Entry, v: Word)
    requires Hits(e, v) && e.paddr + e.size <= 0x1_0000_0000
    ensures V2P(e, v) == e.paddr + (v - e.vaddr) && v - e.vaddr < e.size
  {
  }

  /** Translation is injective. */
  lemma {:induction false} TranslationInjective(c: Core, u: Word, v: Word)
    requires EntriesApart(CurrentMap(c)) && TargetsApart(CurrentMap(c))
    requires Phys(c, u).Some? && Phys(c, u) == Phys(c, v)
    ensures u == v
  {
    hide Hits, V2P;
    if Enabled(c.ctrl) {
      var m := CurrentMap(c);
      var i := SearchIndex(m, u, 0);
      var j := SearchIndex(m, v, 0);
      V2PInRange(m[i], u);
      V2PInRange(m[j], v);
    }
  }

  // ---- Bytes ----

  /** The byte at a physical address. */
  function PhysByte(bus: Bus, p: Word): Option<Byte> {
    var i := FindDevice(bus, p, 0);
    if i == |bus| then None else Some(ByteAt(bus[i], p))
  }

  function ByteAt(d: Device, p: Word): Byte
    requires d.Covers(p)
  {
    d.bytes[p - d.base]
  }

  /** The flat memory: the byte at a virtual address. */
  function Flat(c: Core, bus: Bus, v: Word): Option<Byte> {
    match Phys(c, v)
    case None => None
    case Some(p) => PhysByte(bus, p)
  }

  /** The n bytes at addr translate to consecutive addresses, and the first of them has room for
      that many bytes in its device: four for a read, the bytes of the access for a write. */
  ghost predicate Contiguous(c: Core, bus: Bus, addr: Word, n: nat, room: nat) {
    && addr + n <= 0x1_0000_0000
    && Phys(c, addr).Some?
    && (forall k: nat :: k < n ==> Phys(c, addr + k) == Some(Plus(Phys(c, addr).value, k)))
    && var p := Phys(c, addr).value;
       var i := FindDevice(bus, p, 0);
       i < |bus| && p - bus[i].base + room <= |bus[i].bytes|
  }

  /** The little-endian value of n flat bytes. */
  function FlatValue(c: Core, bus: Bus, v: Word, n: nat): Option<nat>
    requires v + n <= 0x1_0000_0000
    decreases n
  {
    if n == 0 then Some(0)
    else
      match Flat(c, bus, v)
      case None => None
      case Some(b) =>
        if n == 1 then Some(b)
        else
          match FlatValue(c, bus, v + 1, n - 1)
          case None => None
          case Some(rest) => Some(b + 256 * rest)
  }

  lemma {:induction false} LittleStep(b: seq<Byte>, i: nat, n: nat)
    requires i + n <= |b| && n > 0
    ensures Little(b, i, n) == b[i] + 256 * Little(b, i + 1, n - 1)
  {
  }

  /** Masking a fetched word keeps the bytes of the access. */
  lemma {:induction false} MaskKeepsBytes(b: seq<Byte>, i: nat, size: Size)
    requires i + 4 <= |b|
    ensures Mask(LittleWord(b, i), size) == Little(b, i, Width(size))
  {
    hide Little;
    LittleStep(b, i, 4);
    LittleStep(b, i + 1, 3);
    LittleStep(b, i, 2);
    LittleStep(b, i + 1, 1);
    LittleStep(b, i, 1);
    NoBytes(b, i + 1);
    NoBytes(b, i + 2);
    LowBytes(b[i], b[i + 1], Little(b, i + 2, 2));
  }

  lemma {:induction false} LowBytes(b0: Byte, b1: Byte, rest: nat)
    ensures (b0 + 256 * (b1 + 256 * rest)) % 0x100 == b0
    ensures (b0 + 256 * (b1 + 256 * rest)) % 0x1_0000 == b0 + 256 * b1
  {
    var w := b0 + 256 * (b1 + 256 * rest);
    DivModUnique(w, 0x100, b1 + 256 * rest, b0);
    DivModUnique(w, 0x1_0000, rest, b0 + 256 * b1);
  }

  lemma {:induction false} NoBytes(b: seq<Byte>, i: nat)
    requires i <= |b|
    ensures Little(b, i, 0) == 0
  {
  }

  lemma {:induction false} NextByte(c: Core, bus: Bus, addr: Word, n: nat, room: nat, k: nat)
    requires Contiguous(c, bus, addr, n, room) && k < n <= room && DevicesApart(bus)
    ensures var p := Phys(c, addr).value;
            var d := bus[FindDevice(bus, p, 0)];
            d.Covers(Plus(p, k)) && Flat(c, bus, addr + k) == Some(d.bytes[p - d.base + k])
  {
    hide Phys, FindDevice;
    var p := Phys(c, addr).value;
    var i := FindDevice(bus, p, 0);
    StaysCovered(bus[i], p, room, k);
    DeviceFinds(bus, Plus(p, k), i);
  }

  /** A device that covers anything does not wrap, and so covers all the room behind an address. */
  lemma {:induction false} StaysCovered(d: Device, p: Word, room: nat, k: nat)
    requires d.Covers(p) && k < room && p - d.base + room <= |d.bytes|
    ensures p + room < 0x1_0000_0000
    ensures d.Covers(Plus(p, k)) && Plus(p, k) == p + k
  {
    CoversUpTo(d, p);
    hide Wrap;
    NoWrap(p, k);
  }

  lemma {:induction false} CoversUpTo(d: Device, p: Word)
    requires d.Covers(p)
    ensures Wrap(d.base + |d.bytes|) == d.base + |d.bytes| < 0x1_0000_0000
  {
  }

  lemma {:induction false} ContiguousFacts(c: Core, bus: Bus, addr: Word, n: nat, room: nat)
    requires Contiguous(c, bus, addr, n, room)
    ensures addr + n <= 0x1_0000_0000 && Phys(c, addr).Some?
    ensures var p := Phys(c, addr).value;
            var i := FindDevice(bus, p, 0);
            i < |bus| && bus[i].base <= p && p - bus[i].base + room <= |bus[i].bytes|
  {
    hide Phys, FindDevice;
  }

  lemma {:induction false} FlatStep(c: Core, bus: Bus, v: Word, n: nat, b: Byte, rest: nat)
    requires 0 < n && v + n <= 0x1_0000_0000 && Flat(c, bus, v) == Some(b)
    requires if n == 1 then rest == 0 else FlatValue(c, bus, v + 1, n - 1) == Some(rest)
    ensures FlatValue(c, bus, v, n) == Some(b + 256 * rest)
  {
    hide Flat;
  }

  /** Flat byte j of an access is byte j of a buffer from an offset. */
  predicate SameByte(c: Core, bus: Bus, addr: Word, b: seq<Byte>, at: nat, j: nat) {
    addr + j < 0x1_0000_0000 && at + j < |b| && Flat(c, bus, addr + j) == Some(b[at + j])
  }

  /** Flat bytes that are those of a buffer have its little-endian value. */
  lemma {:induction false} FlatIsLittle(c: Core, bus: Bus, addr: Word, n: nat, b: seq<Byte>, at: nat, k: nat)
    requires k < n && addr + n <= 0x1_0000_0000 && at + n <= |b|
    requires forall j: nat :: j < n ==> SameByte(c, bus, addr, b, at, j)
    ensures FlatValue(c, bus, addr + k, n - k) == Some(Little(b, at + k, n - k))
    decreases n - k
  {
    hide Flat, FlatValue, Little;
    assert SameByte(c, bus, addr, b, at, k);
    LittleStep(b, at + k, n - k);
    if n - k == 1 {
      NoBytes(b, at + k + 1);
    } else {
      FlatIsLittle(c, bus, addr, n, b, at, k + 1);
    }
    FlatStep(c, bus, addr + k, n - k, b[at + k], Little(b, at + k + 1, n - k - 1));
  }

  /** A read that raises no exception returns the sum of its flat bytes by powers of 256. */
  lemma {:induction false} ReadIsFlat(c: Core, bus: Bus, addr: Word, size: Size)
    requires DevicesApart(bus) && Contiguous(c, bus, addr, Width(size), 4)
    requires Read(c, bus, addr, size).causes == []
    ensures Read(c, bus, addr, size).value == FlatValue(c, bus, addr, Width(size))
    ensures FlatValue(c, bus, addr, Width(size)).Some?
  {
    hide Phys, Translate, FindDevice, FlatValue, LittleWord, Little, Mask, SameByte, Contiguous, DevicesApart, Width;
    ContiguousFacts(c, bus, addr, Width(size), 4);
    TranslateIsPhys(c, addr, size);
    WidthIs(size);
    var p := Phys(c, addr).value;
    var d := bus[FindDevice(bus, p, 0)];
    var at: nat := p - d.base;
    BufferBytes(c, bus, addr, Width(size), d.bytes, at);
    FlatIsLittle(c, bus, addr, Width(size), d.bytes, at, 0);
    MaskKeepsBytes(d.bytes, at, size);
  }

  lemma {:induction false} WidthIs(size: Size)
    ensures 1 <= Width(size) <= 4
  {
  }

  lemma {:induction false} BufferBytes(c: Core, bus: Bus, addr: Word, n: nat, b: seq<Byte>, at: nat)
    requires DevicesApart(bus) && Contiguous(c, bus, addr, n, 4) && n <= 4
    requires var p := Phys(c, addr).value;
             var d := bus[FindDevice(bus, p, 0)];
             b == d.bytes && at == p - d.base
    ensures forall j: nat :: j < n ==> SameByte(c, bus, addr, b, at, j)
  {
    hide Phys, FindDevice, Flat, Contiguous, DevicesApart;
    ContiguousFacts(c, bus, addr, n, 4);
    forall j: nat | j < n
      ensures SameByte(c, bus, addr, b, at, j)
    {
      NextByte(c, bus, addr, n, 4, j);
    }
  }

  // ---- Writes ----

  /** Byte k of a word. */
  function ByteOf(v: Word, k: nat): Byte {
    if k == 0 then v % 256 else ByteOf(v / 256, k - 1)
  }

  lemma {:induction false} StoredByte(b: seq<Byte>, i: nat, v: Word, n: nat, j: nat)
    requires i + n <= |b| && j < |b|
    ensures Store(b, i, v, n)[j] == if i <= j < i + n then ByteOf(v, j - i) else b[j]
    decreases n
  {
    if n == 0 {
    } else {
      StoredByte(b[i := v % 256], i + 1, v / 256, n - 1, j);
    }
  }

  /** A device keeps its range when it is written. */
  lemma {:induction false} WriteKeepsRanges(bus: Bus, i: nat, d: Device)
    requires i < |bus| && d.base == bus[i].base && |d.bytes| == |bus[i].bytes|
    ensures forall k, p: Word :: 0 <= k < |bus| ==> bus[i := d][k].Covers(p) == bus[k].Covers(p)
    ensures DevicesApart(bus) ==> DevicesApart(bus[i := d])
    ensures forall p: Word :: FindDevice(bus[i := d], p, 0) == FindDevice(bus, p, 0)
  {
    hide FindDevice;
    var bus' := bus[i := d];
    assert forall k, p: Word :: 0 <= k < |bus| ==> bus'[k].Covers(p) == bus[k].Covers(p);
    forall p: Word
      ensures FindDevice(bus', p, 0) == FindDevice(bus, p, 0)
    {
      SameFirst(bus, bus', p);
    }
  }

  lemma {:induction false} SameFirst(bus: Bus, bus': Bus, p: Word)
    requires |bus| == |bus'| && forall k :: 0 <= k < |bus| ==> bus'[k].Covers(p) == bus[k].Covers(p)
    ensures FindDevice(bus', p, 0) == FindDevice(bus, p, 0)
  {
    hide FindDevice;
    var a, b := FindDevice(bus, p, 0), FindDevice(bus', p, 0);
    assert a == b;
  }

  /** Physically, a write changes exactly the bytes of the access. */
  lemma {:induction false} WriteChangesPhysBytes(bus: Bus, p: Word, v: Word, size: Size, q: Word)
    requires DevicesApart(bus)
    requires var i := FindDevice(bus, p, 0);
             i < |bus| && bus[i].writable && p - bus[i].base + Width(size) <= |bus[i].bytes|
    ensures var i := FindDevice(bus, p, 0);
            var d := DeviceWrite(bus[i], p, v, size);
            d.Some? && DevicesApart(bus[i := d.value])
            && PhysByte(bus[i := d.value], q)
                 == if p <= q < p + Width(size) then Some(ByteOf(v, q - p)) else PhysByte(bus, q)
  {
    hide FindDevice, Store, ByteOf;
    var i := FindDevice(bus, p, 0);
    var d := DeviceWrite(bus[i], p, v, size).value;
    WriteKeepsRanges(bus, i, d);
    var k := FindDevice(bus, q, 0);
    if p <= q < p + Width(size) {
      StaysCovered(bus[i], p, Width(size), q - p);
      DeviceFinds(bus, q, i);
    }
    if k == i {
      StoredByte(bus[i].bytes, p - bus[i].base, v, Width(size), q - bus[i].base);
    }
  }

  /** A write that raises no exception, to contiguous bytes of a writable device. */
  ghost predicate CleanWrite(c: Core, bus: Bus, addr: Word, v: Word, size: Size) {
    && Contiguous(c, bus, addr, Width(size), Width(size))
    && bus[FindDevice(bus, Phys(c, addr).value, 0)].writable
    && Write(c, bus, addr, v, size).causes == []
  }

  /** A read that raises no exception, of contiguous bytes. */
  ghost predicate CleanRead(c: Core, bus: Bus, addr: Word, size: Size) {
    Contiguous(c, bus, addr, Width(size), 4) && Read(c, bus, addr, size).causes == []
  }

  /** A write that raises no exception changes exactly its one, two or four flat bytes. */
  lemma {:induction false} WriteIsFlat(c: Core, bus: Bus, addr: Word, v: Word, size: Size, u: Word)
    requires DevicesApart(bus) && EntriesApart(CurrentMap(c)) && TargetsApart(CurrentMap(c))
    requires CleanWrite(c, bus, addr, v, size)
    ensures var w := Write(c, bus, addr, v, size).bus;
            w.Some? && DevicesApart(w.value)
            && Flat(c, w.value, u)
                 == if addr <= u < addr + Width(size) then Some(ByteOf(v, u - addr)) else Flat(c, bus, u)
  {
    hide Phys, Translate, FindDevice, Write, ByteOf, PhysByte, EntriesApart, TargetsApart, DevicesApart,
         Contiguous, Width;
    WidthIs(size);
    ContiguousFacts(c, bus, addr, Width(size), Width(size));
    CleanWriteBytes(c, bus, addr, v, size, if Phys(c, u).Some? then Phys(c, u).value else 0);
    WhereWritten(c, bus, addr, Width(size), u);
  }

  /** What a clean write does to the physical bytes. */
  lemma {:induction false} CleanWriteBytes(c: Core, bus: Bus, addr: Word, v: Word, size: Size, q: Word)
    requires DevicesApart(bus) && CleanWrite(c, bus, addr, v, size)
    ensures var w := Write(c, bus, addr, v, size).bus;
            var p := Phys(c, addr).value;
            && w.Some? && DevicesApart(w.value)
            && PhysByte(w.value, q)
                 == if p <= q < p + Width(size) then Some(ByteOf(v, q - p)) else PhysByte(bus, q)
  {
    hide Phys, Translate, FindDevice, DeviceWrite, ByteOf, PhysByte, DevicesApart;
    TranslateIsPhys(c, addr, size);
    WriteChangesPhysBytes(bus, Phys(c, addr).value, v, size, q);
  }

  /** A virtual address lies in a contiguous access exactly if its physical address does, at the
      same distance. */
  lemma {:induction false} WhereWritten(c: Core, bus: Bus, addr: Word, n: nat, u: Word)
    requires EntriesApart(CurrentMap(c)) && TargetsApart(CurrentMap(c)) && Contiguous(c, bus, addr, n, n) && n > 0
    ensures var p := Phys(c, addr).value;
            if addr <= u < addr + n
            then Phys(c, u).Some? && p <= Phys(c, u).value < p + n && Phys(c, u).value - p == u - addr
            else Phys(c, u).Some? ==> !(p <= Phys(c, u).value < p + n)
  {
    hide Phys, FindDevice, EntriesApart, TargetsApart;
    var p := Phys(c, addr).value;
    if addr <= u < addr + n {
      var k: nat := u - addr;
      assert Phys(c, addr + k) == Some(Plus(p, k));
      StaysCovered(bus[FindDevice(bus, p, 0)], p, n, k);
    } else if Phys(c, u).Some? && p <= Phys(c, u).value < p + n {
      var k: nat := Phys(c, u).value - p;
      assert Phys(c, addr + k) == Some(Plus(p, k));
      StaysCovered(bus[FindDevice(bus, p, 0)], p, n, k);
      TranslationInjective(c, u, addr + k);
    }
  }

  lemma {:induction false} NoWrap(p: Word, k: nat)
    requires p + k < 0x1_0000_0000
    ensures Plus(p, k) == p + k
  {
  }

  /** The flat bytes after a write: the overlay of the stored bytes on the old memory. */
  function Overlay(before: Option<Byte>, u: Word, addr: Word, v: Word, n: nat): Option<Byte> {
    if addr <= u < addr + n then Some(ByteOf(v, u - addr)) else before
  }

  /** Reading any access after any write: the value is made of flat bytes, and each byte is the
      stored one where the two overlap and the old one elsewhere. */
  lemma {:induction false} ReadAfterWrite(c: Core, bus: Bus, addr: Word, v: Word, size: Size, addr': Word, size': Size)
    requires DevicesApart(bus) && EntriesApart(CurrentMap(c)) && TargetsApart(CurrentMap(c))
    requires CleanWrite(c, bus, addr, v, size) && CleanRead(c, bus, addr', size')
    ensures Write(c, bus, addr, v, size).bus.Some?
    ensures var w := Write(c, bus, addr, v, size).bus.value;
            CleanRead(c, w, addr', size')
            && Read(c, w, addr', size').value == FlatValue(c, w, addr', Width(size'))
            && forall u: Word :: Flat(c, w, u) == Overlay(Flat(c, bus, u), u, addr, v, Width(size))
  {
    hide Read, Write, Flat, FlatValue, Contiguous, Overlay, DevicesApart, EntriesApart, TargetsApart, CleanWrite;
    forall u: Word
      ensures Write(c, bus, addr, v, size).bus.Some? && DevicesApart(Write(c, bus, addr, v, size).bus.value)
      ensures Flat(c, Write(c, bus, addr, v, size).bus.value, u) == Overlay(Flat(c, bus, u), u, addr, v, Width(size))
    {
      WriteOverlays(c, bus, addr, v, size, u);
    }
    WriteOverlays(c, bus, addr, v, size, 0);
    var w := Write(c, bus, addr, v, size).bus.value;
    WriteKeepsContiguous(c, bus, addr, v, size, addr', Width(size'), 4);
    WriteKeepsCauses(c, bus, addr, v, size, addr', size');
    ReadIsFlat(c, w, addr', size');
  }

  lemma {:induction false} WriteOverlays(c: Core, bus: Bus, addr: Word, v: Word, size: Size, u: Word)
    requires DevicesApart(bus) && EntriesApart(CurrentMap(c)) && TargetsApart(CurrentMap(c))
    requires CleanWrite(c, bus, addr, v, size)
    ensures var w := Write(c, bus, addr, v, size).bus;
            w.Some? && DevicesApart(w.value) && Flat(c, w.value, u) == Overlay(Flat(c, bus, u), u, addr, v, Width(size))
  {
    hide Write, Flat, DevicesApart, EntriesApart, TargetsApart, CleanWrite;
    WriteIsFlat(c, bus, addr, v, size, u);
  }

  /** A write keeps every device's place, size and permission. */
  lemma {:induction false} WrittenBus(c: Core, bus: Bus, addr: Word, v: Word, size: Size)
    requires Write(c, bus, addr, v, size).bus.Some?
    ensures var w := Write(c, bus, addr, v, size).bus.value;
            |w| == |bus|
            && (forall k :: 0 <= k < |bus| ==> w[k].base == bus[k].base && |w[k].bytes| == |bus[k].bytes|)
            && (forall k :: 0 <= k < |bus| ==> w[k].writable == bus[k].writable)
            && forall p: Word :: FindDevice(w, p, 0) == FindDevice(bus, p, 0)
  {
    hide Translate, FindDevice, Store;
    var p := Translate(c, addr, size).phys;
    var i := FindDevice(bus, p, 0);
    if i < |bus| {
      WriteKeepsRanges(bus, i, DeviceWrite(bus[i], p, v, size).value);
    }
  }

  lemma {:induction false} WriteKeepsContiguous(c: Core, bus: Bus, addr: Word, v: Word, size: Size,
                                                addr': Word, n: nat, room: nat)
    requires Write(c, bus, addr, v, size).bus.Some? && Contiguous(c, bus, addr', n, room)
    ensures Contiguous(c, Write(c, bus, addr, v, size).bus.value, addr', n, room)
  {
    hide Phys, FindDevice, Write;
    WrittenBus(c, bus, addr, v, size);
  }

  lemma {:induction false} WriteKeepsCauses(c: Core, bus: Bus, addr: Word, v: Word, size: Size,
                                            addr': Word, size': Size)
    requires Write(c, bus, addr, v, size).bus.Some?
    ensures Read(c, Write(c, bus, addr, v, size).bus.value, addr', size').causes == Read(c, bus, addr', size').causes
  {
    hide Translate, FindDevice, Write, DeviceRead;
    WrittenBus(c, bus, addr, v, size);
  }

  // ---- Any number of writes ----

  datatype Access = Access(addr: Word, value: Word, size: Size)

  function WriteOne(c: Core, bus: Bus, w: Access): Option<Bus> {
    Write(c, bus, w.addr, w.value, w.size).bus
  }

  function WriteAll(c: Core, bus: Bus, ws: seq<Access>): Option<Bus>
    decreases |ws|
  {
    if ws == [] then Some(bus)
    else
      match WriteOne(c, bus, ws[0])
      case None => None
      case Some(bus') => WriteAll(c, bus', ws[1..])
  }

  /** The byte at u after the writes: the last one that covers it wins. */
  function Stored(ws: seq<Access>, u: Word, before: Option<Byte>): Option<Byte>
    decreases |ws|
  {
    if ws == [] then before
    else Stored(ws[1..], u, Overlay(before, u, ws[0].addr, ws[0].value, Width(ws[0].size)))
  }

  ghost predicate Clean(c: Core, bus: Bus, w: Access) {
    CleanWrite(c, bus, w.addr, w.value, w.size)
  }

  ghost predicate AllClean(c: Core, bus: Bus, ws: seq<Access>) {
    forall i :: 0 <= i < |ws| ==> Clean(c, bus, ws[i])
  }

  ghost predicate FlatSetting(c: Core, bus: Bus) {
    DevicesApart(bus) && EntriesApart(CurrentMap(c)) && TargetsApart(CurrentMap(c))
  }

  lemma {:induction false} WriteKeepsWriteCauses(c: Core, bus: Bus, addr: Word, v: Word, size: Size,
                                                 addr': Word, v': Word, size': Size)
    requires Write(c, bus, addr, v, size).bus.Some?
    ensures Write(c, Write(c, bus, addr, v, size).bus.value, addr', v', size').causes
              == Write(c, bus, addr', v', size').causes
  {
    WrittenBus(c, bus, addr, v, size);
    var w := Write(c, bus, addr, v, size).bus.value;
    assert |w| == |bus|;
    CausesOfWrite(c, bus, addr', v', size');
    CausesOfWrite(c, w, addr', v', size');
    hide Translate, FindDevice, Write;
  }

  lemma {:induction false} CausesOfWrite(c: Core, bus: Bus, addr: Word, v: Word, size: Size)
    ensures var t := Translate(c, addr, size);
            Write(c, bus, addr, v, size).causes
              == if FindDevice(bus, t.phys, 0) == |bus| then t.causes + [CAUSE_MMU_NOMAP] else t.causes
  {
    hide Translate, FindDevice, DeviceWrite;
  }

  /** One clean write keeps another clean. */
  lemma {:induction false} CleanStays(c: Core, bus: Bus, w: Access, next: Access)
    requires FlatSetting(c, bus) && Clean(c, bus, w) && Clean(c, bus, next)
    ensures WriteOne(c, bus, w).Some? && FlatSetting(c, WriteOne(c, bus, w).value)
    ensures Clean(c, WriteOne(c, bus, w).value, next)
  {
    hide Write, Flat, DevicesApart, EntriesApart, TargetsApart, Phys, FindDevice;
    WriteOverlays(c, bus, w.addr, w.value, w.size, 0);
    WrittenBus(c, bus, w.addr, w.value, w.size);
    WriteKeepsContiguous(c, bus, w.addr, w.value, w.size, next.addr, Width(next.size), Width(next.size));
    WriteKeepsWriteCauses(c, bus, w.addr, w.value, w.size, next.addr, next.value, next.size);
  }

  /** After any sequence of clean writes the flat memory is the overlay of all of them. */
  lemma {:induction false} WritesAreFlat(c: Core, bus: Bus, ws: seq<Access>)
    requires FlatSetting(c, bus) && AllClean(c, bus, ws)
    ensures WriteAll(c, bus, ws).Some? && FlatSetting(c, WriteAll(c, bus, ws).value)
    ensures forall u: Word :: Flat(c, WriteAll(c, bus, ws).value, u) == Stored(ws, u, Flat(c, bus, u))
    decreases |ws|
  {
    hide Flat, Overlay, FlatSetting, Clean, WriteOne;
    if ws == [] {
    } else {
      FirstWrite(c, bus, ws);
      var bus' := WriteOne(c, bus, ws[0]).value;
      WritesAreFlat(c, bus', ws[1..]);
    }
  }

  lemma {:induction false} FirstWrite(c: Core, bus: Bus, ws: seq<Access>)
    requires FlatSetting(c, bus) && AllClean(c, bus, ws) && ws != []
    ensures WriteOne(c, bus, ws[0]).Some?
    ensures var bus' := WriteOne(c, bus, ws[0]).value;
            && FlatSetting(c, bus') && AllClean(c, bus', ws[1..])
            && forall u: Word ::
                 Flat(c, bus', u) == Overlay(Flat(c, bus, u), u, ws[0].addr, ws[0].value, Width(ws[0].size))
  {
    hide Flat, Overlay, Write, DevicesApart, EntriesApart, TargetsApart, CleanWrite;
    var w := ws[0];
    assert Clean(c, bus, w);
    CleanStays(c, bus, w, w);
    var bus' := WriteOne(c, bus, w).value;
    forall u: Word
      ensures Flat(c, bus', u) == Overlay(Flat(c, bus, u), u, w.addr, w.value, Width(w.size))
    {
      WriteOverlays(c, bus, w.addr, w.value, w.size, u);
    }
    forall i | 0 <= i < |ws[1..]|
      ensures Clean(c, bus', ws[1..][i])
    {
      assert Clean(c, bus, ws[i + 1]);
      CleanStays(c, bus, w, ws[i + 1]);
    }
  }

  /** And any read that was clean before them still is, and returns its flat bytes. */
  lemma {:induction false} ReadAfterWrites(c: Core, bus: Bus, ws: seq<Access>, addr: Word, size: Size)
    requires FlatSetting(c, bus) && AllClean(c, bus, ws) && CleanRead(c, bus, addr, size)
    ensures WriteAll(c, bus, ws).Some?
    ensures var bus' := WriteAll(c, bus, ws).value;
            && CleanRead(c, bus', addr, size)
            && Read(c, bus', addr, size).value == FlatValue(c, bus', addr, Width(size))
            && forall u: Word :: Flat(c, bus', u) == Stored(ws, u, Flat(c, bus, u))
    decreases |ws|
  {
    hide Read, Flat, FlatValue, FlatSetting, AllClean, WriteOne, Stored;
    WritesAreFlat(c, bus, ws);
    ReadStaysClean(c, bus, ws, addr, size);
    CleanReadIsFlat(c, WriteAll(c, bus, ws).value, addr, size);
  }

  lemma {:induction false} CleanReadIsFlat(c: Core, bus: Bus, addr: Word, size: Size)
    requires FlatSetting(c, bus) && CleanRead(c, bus, addr, size)
    ensures Read(c, bus, addr, size).value == FlatValue(c, bus, addr, Width(size))
  {
    hide Read, Contiguous, FlatValue, DevicesApart;
    ReadIsFlat(c, bus, addr, size);
  }

  lemma {:induction false} ReadStaysClean(c: Core, bus: Bus, ws: seq<Access>, addr: Word, size: Size)
    requires FlatSetting(c, bus) && AllClean(c, bus, ws) && CleanRead(c, bus, addr, size)
    ensures WriteAll(c, bus, ws).Some? && CleanRead(c, WriteAll(c, bus, ws).value, addr, size)
    decreases |ws|
  {
    hide Read, Flat, FlatSetting, AllClean, Write, Contiguous;
    if ws == [] {
    } else {
      FirstWrite(c, bus, ws);
      var w := ws[0];
      WriteKeepsContiguous(c, bus, w.addr, w.value, w.size, addr, Width(size), 4);
      WriteKeepsCauses(c, bus, w.addr, w.value, w.size, addr, size);
      ReadStaysClean(c, WriteOne(c, bus, w).value, ws[1..], addr, size);
    }
  }
}
