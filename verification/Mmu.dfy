/** Memory-mapped byte buffers, address translation, and memory accesses as pure functions:
    an access yields the exceptions it raises, in order, beside its result. */
module Mmu {
  import opened Words
  import opened Core
  import opened Alu

  const BYTE: Size := 0
  const SHORT: Size := 1
  const LONG: Size := 2
  const EXEC: Size := 3

  type Bytes = s: seq<Byte> | |s| < 0x1_0000_0000 witness []

  /** A buffer device at physical address `base`. The BIOS ROM ignores writes. */
  datatype Device = Device(base: Word, bytes: Bytes, writable: bool)
  {
    /** Wraps as the 32-bit sum does, and then the device covers nothing. */
    predicate Covers(addr: Word) {
      base <= addr < Wrap(base + |bytes|)
    }
  }

  type Bus = seq<Device>

  function Width(size: Size): nat {
    if size == BYTE then 1 else if size == SHORT then 2 else 4
  }

  /** The little-endian value of the n bytes at offset i. */
  function Little(b: seq<Byte>, i: nat, n: nat): nat
    requires i + n <= |b|
    decreases n
  {
    if n == 0 then 0 else b[i] + 256 * Little(b, i + 1, n - 1)
  }

  lemma {:induction false} LittleBound(b: seq<Byte>, i: nat, n: nat)
    requires i + n <= |b|
    ensures Little(b, i, n) < Pow2(8 * n)
    decreases n
  {
    if n == 0 {
    } else {
      LittleBound(b, i + 1, n - 1);
      var p := Pow2(8 * (n - 1));
      Pow2Add(8, 8 * (n - 1));
      Pow2Values();
      assert Pow2(8 * n) == 256 * p;
    }
  }

  function LittleWord(b: seq<Byte>, i: nat): Word
    requires i + 4 <= |b|
  {
    LittleBound(b, i, 4);
    Pow2Values();
    Little(b, i, 4)
  }

  function Mask(v: Word, size: Size): Word {
    if size == BYTE then v % 0x100 else if size == SHORT then v % 0x1_0000 else v
  }

  /** All reads fetch four bytes and mask; past the end of the buffer C++ leaves them undefined. */
  function DeviceRead(d: Device, addr: Word, size: Size): Option<Word>
    requires d.Covers(addr)
  {
    if addr - d.base + 4 > |d.bytes| then None
    else Some(Mask(LittleWord(d.bytes, addr - d.base), size))
  }

  /** b with the n low bytes of v stored at offset i, lowest first. */
  function Store(b: seq<Byte>, i: nat, v: Word, n: nat): (r: seq<Byte>)
    requires i + n <= |b|
    ensures |r| == |b|
    decreases n
  {
    if n == 0 then b else Store(b[i := v % 256], i + 1, v / 256, n - 1)
  }

  function DeviceWrite(d: Device, addr: Word, v: Word, size: Size): Option<Device>
    requires d.Covers(addr)
  {
    if !d.writable then Some(d)
    else if addr - d.base + Width(size) > |d.bytes| then None
    else Some(d.(bytes := Store(d.bytes, addr - d.base, v, Width(size))))
  }

  // ---- Translation ----

  predicate Hits(e: Entry, vaddr: Word) {
    e.vaddr <= vaddr < Wrap(e.vaddr + e.size)
  }

  /** The first entry at or after index i of the 32 entries that covers the address. */
  function SearchFrom(map32: seq<Entry>, vaddr: Word, i: nat): Option<Entry>
    requires i <= |map32|
    decreases |map32| - i
  {
    if i == |map32| then None
    else if Hits(map32[i], vaddr) then Some(map32[i])
    else SearchFrom(map32, vaddr, i + 1)
  }

  function CurrentMap(c: Core): (s: seq<Entry>)
    ensures |s| == 32
  {
    c.maps[32 * c.cmap..32 * c.cmap + 32]
  }

  function SearchMap(c: Core, vaddr: Word): Option<Entry> {
    SearchFrom(CurrentMap(c), vaddr, 0)
  }

  function V2P(e: Entry, vaddr: Word): Word {
    Wrap(e.paddr + Wrap(vaddr - e.vaddr))
  }

  predicate Executable(e: Entry) { e.attr % 2 == 1 }
  predicate Readable(e: Entry) { e.attr / 4 % 2 == 1 }

  /** The attribute and alignment tests are the masks of the source. */
  lemma {:induction false} AttributesAreMasks(e: Entry, phys: Word)
    ensures Executable(e) <==> BitAnd(e.attr, 1) != 0
    ensures Readable(e) <==> BitAnd(e.attr, 4) != 0
    ensures phys % 4 != 0 <==> BitAnd(phys, 3) != 0
    ensures phys % 2 != 0 <==> BitAnd(phys, 1) != 0
  {
    hide BitAnd, Pow2;
    assert Pow2(0) == 1 && Pow2(1) == 2 && Pow2(2) == 4 by { SmallPowers(); }
    OneBitMask(e.attr, 0);
    OneBitMask(e.attr, 2);
    AndLowMask(phys, 2);
    AndLowMask(phys, 1);
  }

  lemma {:induction false} SmallPowers()
    ensures Pow2(0) == 1 && Pow2(1) == 2 && Pow2(2) == 4
  {
  }

  /** A physical address and the exceptions raised on the way to it. */
  datatype Translation = Translation(phys: Word, causes: seq<Word>)

  function AlignCauses(c: Core, phys: Word, size: Size): seq<Word> {
    if size == EXEC then (if phys % 4 != 0 then [CAUSE_MMU_XALIGN] else [])
    else if AlignChecked(c.ctrl) then
      (if size == LONG && phys % 4 != 0 then [CAUSE_MMU_RWALIGN] else [])
      + (if size == SHORT && phys % 2 != 0 then [CAUSE_MMU_RWALIGN] else [])
    else []
  }

  function Translate(c: Core, addr: Word, size: Size): Translation {
    if !Enabled(c.ctrl) then Translation(addr, AlignCauses(c, addr, size))
    else
      match SearchMap(c, addr)
      case None => Translation(0, [CAUSE_MMU_NOMAP])
      case Some(e) =>
        var exec := if size == EXEC && !Executable(e) then [CAUSE_MMU_PROT_EXEC] else [];
        if !Readable(e) then Translation(0, exec + [CAUSE_MMU_PROT_READ])
        else Translation(V2P(e, addr), exec + AlignCauses(c, V2P(e, addr), size))
  }

  // ---- Accesses ----

  /** The index of the first device at or after k that covers the address, or |bus|. */
  function FindDevice(bus: Bus, phys: Word, k: nat): (i: nat)
    requires k <= |bus|
    ensures k <= i <= |bus|
    ensures i < |bus| ==> bus[i].Covers(phys)
    ensures forall j :: k <= j < i ==> !bus[j].Covers(phys)
    decreases |bus| - k
  {
    if k == |bus| || bus[k].Covers(phys) then k else FindDevice(bus, phys, k + 1)
  }

  /** `value` is None where C++ leaves the access undefined. */
  datatype ReadAccess = ReadAccess(causes: seq<Word>, value: Option<Word>)
  datatype WriteAccess = WriteAccess(causes: seq<Word>, bus: Option<Bus>)

  function Read(c: Core, bus: Bus, addr: Word, size: Size): ReadAccess {
    var t := Translate(c, addr, size);
    var i := FindDevice(bus, t.phys, 0);
    if i == |bus| then ReadAccess(t.causes + [CAUSE_MMU_NOMAP], Some(0))
    else ReadAccess(t.causes, DeviceRead(bus[i], t.phys, size))
  }

  function Write(c: Core, bus: Bus, addr: Word, v: Word, size: Size): WriteAccess {
    var t := Translate(c, addr, size);
    var i := FindDevice(bus, t.phys, 0);
    if i == |bus| then WriteAccess(t.causes + [CAUSE_MMU_NOMAP], Some(bus))
    else
      match DeviceWrite(bus[i], t.phys, v, size)
      case None => WriteAccess(t.causes, None)
      case Some(d) => WriteAccess(t.causes, Some(bus[i := d]))
  }

  /** `hv2_mmu_create_mapping`: replace entry idx of the current map. */
  function CreateMapping(c: Core, idx: nat, e: Entry): Core
    requires idx < 32
  {
    c.(maps := c.maps[32 * c.cmap + idx := e])
  }
}
