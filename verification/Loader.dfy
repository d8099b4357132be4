/** `hv2f_load_elf_to_guest_memory`: segments are copied into RAM one behind the other and
    mapped; afterwards every byte of every segment reads back through the MMU. */
module Loader {
  import opened Words
  import opened Alu
  import opened Core
  import opened Mmu
  import opened FlatMemory
  import opened Processor

  /** What the loader uses of a program header. */
  datatype Segment = Segment(vaddr: Word, memsz: Word, flags: Word, data: seq<Byte>)
  {
    /** A segment that occupies memory has file bytes: the source divides by their number. */
    predicate Usable() {
      memsz > 0 ==> data != []
    }

    /** The file bytes repeat until the memory size is filled. */
    function ByteFor(t: nat): Byte
      requires data != []
    {
      data[t % |data|]
    }
  }

  function OffsetOf(segs: seq<Segment>, k: nat): nat
    requires k <= |segs|
  {
    if k == 0 then 0 else OffsetOf(segs, k - 1) + segs[k - 1].memsz
  }

  lemma {:induction false} OffsetMonotone(segs: seq<Segment>, k: nat, i: nat)
    requires k < i <= |segs|
    ensures OffsetOf(segs, k) + segs[k].memsz <= OffsetOf(segs, i)
    decreases i
  {
    if k >= i - 1 {
    } else {
      OffsetMonotone(segs, k, i - 1);
    }
  }

  /** Every segment is usable, all fit in the RAM, and there are entries for all. */
  predicate Loadable(segs: seq<Segment>, size: nat) {
    && |segs| <= 32
    && (forall k :: 0 <= k < |segs| ==> segs[k].Usable())
    && OffsetOf(segs, |segs|) <= size < 0x1_0000_0000
  }

  function EntryFor(segs: seq<Segment>, k: nat, base: Word): Entry
    requires k < |segs|
  {
    Entry(Plus(base, OffsetOf(segs, k)), segs[k].vaddr, segs[k].memsz, segs[k].flags)
  }

  /** Segment k lies in the buffer at its offset. */
  ghost predicate Placed(b: seq<Byte>, segs: seq<Segment>, k: nat)
    requires k < |segs| && segs[k].Usable()
  {
    OffsetOf(segs, k) + segs[k].memsz <= |b|
    && forall t: nat :: t < segs[k].memsz ==> b[OffsetOf(segs, k) + t] == segs[k].ByteFor(t)
  }

  /** The maps with entries for the first k segments installed in map m. */
  function Mapped(maps: Maps, m: Level, segs: seq<Segment>, k: nat, base: Word): Maps
    requires k <= |segs| && k <= 32
  {
    if k == 0 then maps else Mapped(maps, m, segs, k - 1, base)[32 * m + k - 1 := EntryFor(segs, k - 1, base)]
  }

  lemma {:induction false} MappedEntries(maps: Maps, m: Level, segs: seq<Segment>, k: nat, base: Word, j: nat)
    requires k <= |segs| && k <= 32 && j < 128
    ensures Mapped(maps, m, segs, k, base)[j] ==
              if 32 * m <= j < 32 * m + k then EntryFor(segs, j - 32 * m, base) else maps[j]
  {
    hide EntryFor;
    if k == 0 {
    } else {
      MappedEntries(maps, m, segs, k - 1, base, j);
    }
  }

  method CopySegment(ram: MmioDevice, seg: Segment, phys: nat)
    requires seg.Usable() && phys + seg.memsz <= ram.buf.Length
    modifies ram.buf
    ensures forall t: nat :: t < seg.memsz ==> ram.buf[phys + t] == seg.ByteFor(t)
    ensures forall j :: 0 <= j < ram.buf.Length && !(phys <= j < phys + seg.memsz) ==> ram.buf[j] == old(ram.buf[j])
  {
    var t := 0;
    while t < seg.memsz
      invariant 0 <= t <= seg.memsz
      invariant forall s: nat :: s < t ==> ram.buf[phys + s] == seg.ByteFor(s)
      invariant forall j :: 0 <= j < ram.buf.Length && !(phys <= j < phys + t) ==> ram.buf[j] == old(ram.buf[j])
    {
      var idx := t % |seg.data|;
      ram.buf[t + phys] := seg.data[idx];
      t := t + 1;
    }
  }

  lemma {:induction false} CopyKeepsPlaced(b: seq<Byte>, b': seq<Byte>, segs: seq<Segment>, i: nat, k: nat)
    requires k < i <= |segs| && segs[k].Usable() && |b'| == |b|
    requires Placed(b, segs, k)
    requires forall j :: 0 <= j < OffsetOf(segs, i) && j < |b| ==> b'[j] == b[j]
    ensures Placed(b', segs, k)
  {
    OffsetMonotone(segs, k, i);
  }

  method LoadElf(cpu: Hv2, ram: MmioDevice, base: Word, segs: seq<Segment>, entry: Word)
    requires cpu.Valid() && cpu.Apart(ram) && Loadable(segs, ram.buf.Length)
    modifies ram.buf, cpu.maps, cpu.r
    ensures cpu.Valid()
    ensures forall k :: 0 <= k < |segs| ==> Placed(ram.buf[..], segs, k)
    ensures var before := old(cpu.State());
            cpu.State() == SetPc(before.(maps := Mapped(before.maps, cpu.cmap, segs, |segs|, base)), entry)
  {
    hide Placed, EntryFor;
    ghost var c := cpu.State();
    var phys := 0;
    var i := 0;
    while i < |segs|
      invariant 0 <= i <= |segs| && phys == OffsetOf(segs, i)
      invariant cpu.Valid() && cpu.State() == c.(maps := Mapped(c.maps, cpu.cmap, segs, i, base))
      invariant forall k :: 0 <= k < i ==> Placed(ram.buf[..], segs, k)
    {
      OffsetMonotone(segs, i, |segs|);
      var me := Entry(Plus(base, phys), segs[i].vaddr, segs[i].memsz, segs[i].flags);
      ghost var b := ram.buf[..];
      CopySegment(ram, segs[i], phys);
      forall k | 0 <= k < i
        ensures Placed(ram.buf[..], segs, k)
      {
        CopyKeepsPlaced(b, ram.buf[..], segs, i, k);
      }
      NowPlaced(ram.buf[..], segs, i);
      phys := phys + me.size;
      assert me == EntryFor(segs, i, base) by { EntryIs(segs, i, base); }
      cpu.CreateMapping(i, me);
      i := i + 1;
    }
    cpu.r[PC] := entry;
  }

  lemma {:induction false} EntryIs(segs: seq<Segment>, k: nat, base: Word)
    requires k < |segs|
    ensures EntryFor(segs, k, base) == Entry(Plus(base, OffsetOf(segs, k)), segs[k].vaddr, segs[k].memsz, segs[k].flags)
  {
  }

  lemma {:induction false} NowPlaced(b: seq<Byte>, segs: seq<Segment>, k: nat)
    requires k < |segs| && segs[k].Usable() && OffsetOf(segs, k) + segs[k].memsz <= |b|
    requires forall t: nat :: t < segs[k].memsz ==> b[OffsetOf(segs, k) + t] == segs[k].ByteFor(t)
    ensures Placed(b, segs, k)
  {
  }

  // ---- Reading back ----

  /** The segments do not wrap, do not overlap, and are readable. */
  ghost predicate Separate(segs: seq<Segment>) {
    && (forall k :: 0 <= k < |segs| ==> segs[k].vaddr + segs[k].memsz < 0x1_0000_0000 && segs[k].flags / 4 % 2 == 1)
    && (forall j, k :: 0 <= j < k < |segs| ==>
          RangesApart(segs[j].vaddr, segs[j].memsz, segs[k].vaddr, segs[k].memsz))
  }

  /** The map the loader leaves when it was empty before. */
  ghost predicate LoadedMap(m: seq<Entry>, segs: seq<Segment>, base: Word) {
    && |m| == 32 && |segs| <= 32
    && (forall k :: 0 <= k < |segs| ==>
          m[k] == Entry(Plus(base, OffsetOf(segs, k)), segs[k].vaddr, segs[k].memsz, segs[k].flags))
    && (forall k :: |segs| <= k < 32 ==> m[k] == Entry(0, 0, 0, 0))
  }

  lemma {:induction false} LoadedMapFromEmpty(c: Core, segs: seq<Segment>, base: Word)
    requires |segs| <= 32 && forall k :: 0 <= k < 32 ==> CurrentMap(c)[k] == Entry(0, 0, 0, 0)
    ensures LoadedMap(CurrentMap(c.(maps := Mapped(c.maps, c.cmap, segs, |segs|, base))), segs, base)
  {
    hide EntryFor, Mapped;
    var c' := c.(maps := Mapped(c.maps, c.cmap, segs, |segs|, base));
    forall k | 0 <= k < 32
      ensures CurrentMap(c')[k] ==
                if k < |segs|
                then Entry(Plus(base, OffsetOf(segs, k)), segs[k].vaddr, segs[k].memsz, segs[k].flags)
                else Entry(0, 0, 0, 0)
    {
      MappedEntries(c.maps, c.cmap, segs, |segs|, base, 32 * c.cmap + k);
      if k < |segs| {
        EntryIs(segs, k, base);
      }
      assert CurrentMap(c)[k] == c.maps[32 * c.cmap + k];
    }
  }

  lemma {:induction false} OnlyOneHit(segs: seq<Segment>, base: Word, k: nat, t: nat, j: nat)
    requires Separate(segs) && k < |segs| && t < segs[k].memsz && j < |segs| && j != k
    ensures !Hits(EntryFor(segs, j, base), segs[k].vaddr + t)
  {
    if j < k {
      assert RangesApart(segs[j].vaddr, segs[j].memsz, segs[k].vaddr, segs[k].memsz);
    } else {
      assert RangesApart(segs[k].vaddr, segs[k].memsz, segs[j].vaddr, segs[j].memsz);
    }
  }

  lemma {:induction false} LoadedEntry(m: seq<Entry>, segs: seq<Segment>, base: Word, k: nat)
    requires LoadedMap(m, segs, base) && k < |segs|
    ensures k < 32 == |m| && m[k] == EntryFor(segs, k, base)
  {
    EntryIs(segs, k, base);
    hide EntryFor, OffsetOf;
  }

  lemma {:induction false} SearchSegment(m: seq<Entry>, segs: seq<Segment>, base: Word, k: nat, t: nat, j: nat)
    requires LoadedMap(m, segs, base) && Separate(segs) && k < |segs| && t < segs[k].memsz && j <= k
    ensures SearchFrom(m, segs[k].vaddr + t, j) == Some(m[k])
    decreases k - j
  {
    hide EntryFor, LoadedMap;
    EntryIs(segs, k, base);
    LoadedEntry(m, segs, base, j);
    LoadedEntry(m, segs, base, k);
    if j >= k {
    } else {
      OnlyOneHit(segs, base, k, t, j);
      SearchSegment(m, segs, base, k, t, j + 1);
    }
  }

  lemma {:induction false} SegmentPhys(e: Entry, base: Word, offset: nat, t: nat)
    requires e.paddr == Plus(base, offset) && t < e.size && base + offset + t < 0x1_0000_0000
    requires e.vaddr + e.size < 0x1_0000_0000
    ensures V2P(e, e.vaddr + t) == base + offset + t
  {
  }

  lemma {:induction false} SegmentTranslates(c: Core, segs: seq<Segment>, base: Word, k: nat, t: nat)
    requires Enabled(c.ctrl) && LoadedMap(CurrentMap(c), segs, base) && Separate(segs)
    requires k < |segs| && t < segs[k].memsz && base + OffsetOf(segs, k) + t < 0x1_0000_0000
    ensures Translate(c, segs[k].vaddr + t, BYTE) == Translation(base + OffsetOf(segs, k) + t, [])
  {
    hide SearchFrom, V2P, OffsetOf, Hits, CurrentMap, AlignChecked, EntryFor;
    var m := CurrentMap(c);
    SearchSegment(m, segs, base, k, t, 0);
    EntryIs(segs, k, base);
    SegmentPhys(m[k], base, OffsetOf(segs, k), t);
  }

  /** With the MMU on, the loaded map selected, and the RAM at its base among disjoint devices
      with room for a four-byte fetch, a byte read at vaddr_k + t returns byte t mod filesz_k of the
      file data of segment k, and raises no exception. */
  lemma {:induction false} LoadedBytesReadBack(c: Core, bus: Bus, i: nat, segs: seq<Segment>, base: Word,
                                               k: nat, t: nat)
    requires Enabled(c.ctrl) && LoadedMap(CurrentMap(c), segs, base) && Separate(segs)
    requires DevicesApart(bus) && i < |bus| && bus[i].base == base && base + |bus[i].bytes| < 0x1_0000_0000
    requires k < |segs| && t < segs[k].memsz && segs[k].Usable() && Placed(bus[i].bytes, segs, k)
    requires OffsetOf(segs, k) + t + 4 <= |bus[i].bytes|
    ensures Read(c, bus, segs[k].vaddr + t, BYTE) == ReadAccess([], Some(segs[k].ByteFor(t)))
  {
    hide FindDevice, LittleWord, OffsetOf, Translate, DevicesApart, LoadedMap, Separate, CurrentMap;
    var at := OffsetOf(segs, k) + t;
    SegmentTranslates(c, segs, base, k, t);
    assert bus[i].Covers(base + at);
    DeviceFinds(bus, base + at, i);
    MaskKeepsBytes(bus[i].bytes, at, BYTE);
    OneByte(bus[i].bytes, at);
  }

  /** The whole of it: in the state the loader leaves when the current map was empty, with the
      MMU on, every byte of every segment reads back. */
  lemma {:induction false} LoadedProgramReadsBack(before: Core, bus: Bus, i: nat, segs: seq<Segment>, base: Word,
                                                  entry: Word)
    requires Separate(segs) && Enabled(before.ctrl)
    requires forall k :: 0 <= k < 32 ==> CurrentMap(before)[k] == Entry(0, 0, 0, 0)
    requires DevicesApart(bus) && i < |bus| && bus[i].base == base && base + |bus[i].bytes| < 0x1_0000_0000
    requires Loadable(segs, |bus[i].bytes|) && OffsetOf(segs, |segs|) + 3 <= |bus[i].bytes|
    requires forall k :: 0 <= k < |segs| ==> Placed(bus[i].bytes, segs, k)
    ensures var after := SetPc(before.(maps := Mapped(before.maps, before.cmap, segs, |segs|, base)), entry);
            forall k: nat, t: nat :: k < |segs| && t < segs[k].memsz ==>
              segs[k].Usable() && Read(after, bus, segs[k].vaddr + t, BYTE) == ReadAccess([], Some(segs[k].ByteFor(t)))
  {
    var after := SetPc(before.(maps := Mapped(before.maps, before.cmap, segs, |segs|, base)), entry);
    hide Read, OffsetOf, Mapped, LoadedMap, Separate, Placed, DevicesApart, Enabled;
    LoadedMapFromEmpty(before, segs, base);
    assert CurrentMap(after) == CurrentMap(before.(maps := Mapped(before.maps, before.cmap, segs, |segs|, base)));
    forall k: nat, t: nat | k < |segs| && t < segs[k].memsz
      ensures segs[k].Usable() && Read(after, bus, segs[k].vaddr + t, BYTE) == ReadAccess([], Some(segs[k].ByteFor(t)))
    {
      OffsetMonotone(segs, k, |segs|);
      LoadedBytesReadBack(after, bus, i, segs, base, k, t);
    }
  }

  /** The file's bytes in order, and again from the first when they run out. */
  lemma {:induction false} FileBytesRepeat(seg: Segment, rounds: nat, t: nat)
    requires t < |seg.data|
    ensures seg.ByteFor(rounds * |seg.data| + t) == seg.data[t]
  {
    DivModUnique(rounds * |seg.data| + t, |seg.data|, rounds, t);
  }

  lemma {:induction false} OneByte(b: seq<Byte>, i: nat)
    requires i < |b|
    ensures Little(b, i, 1) == b[i]
  {
    assert Little(b, i + 1, 0) == 0;
  }

  /** Devices stay apart when only their contents change. */
  lemma {:induction false} SameRangesApart(bus: Bus, bus': Bus)
    requires DevicesApart(bus) && |bus| == |bus'|
    requires forall k :: 0 <= k < |bus| ==> bus'[k].base == bus[k].base && |bus'[k].bytes| == |bus[k].bytes|
    ensures DevicesApart(bus')
  {
    forall i, j, p: Word | 0 <= i < j < |bus'|
      ensures !(bus'[i].Covers(p) && bus'[j].Covers(p))
    {
      assert !(bus[i].Covers(p) && bus[j].Covers(p));
    }
  }

  /** Loading into attached RAM and then reading through the MMU, on the processor itself: the read
      returns the file's byte and raises nothing. */
  method LoadThenRead(cpu: Hv2, i: nat, segs: seq<Segment>, entry: Word, k: nat, t: nat) returns (v: Option<Word>)
    requires cpu.Valid() && i < |cpu.devices| && Loadable(segs, cpu.devices[i].buf.Length) && Separate(segs)
    requires OffsetOf(segs, |segs|) + 3 <= cpu.devices[i].buf.Length
    requires cpu.devices[i].base + cpu.devices[i].buf.Length < 0x1_0000_0000
    requires Enabled(cpu.ctrl) && DevicesApart(cpu.Memory())
    requires forall j :: 0 <= j < 32 ==> CurrentMap(cpu.State())[j] == Entry(0, 0, 0, 0)
    requires k < |segs| && t < segs[k].memsz && segs[k].Usable()
    modifies cpu.devices[i].buf, cpu.maps, cpu.r, cpu`pl, cpu`ctrl, cpu`cmap, cpu`xcause, cpu`xpc, cpu.pipeline
    ensures cpu.Valid() && v == Some(segs[k].ByteFor(t))
    ensures cpu.State() == SetPc(old(cpu.State()).(maps := Mapped(old(cpu.State()).maps, old(cpu.cmap), segs, |segs|,
                                                                  cpu.devices[i].base)), entry)
    ensures cpu.Slots() == old(cpu.Slots())
  {
    assert segs[k].vaddr + segs[k].memsz < 0x1_0000_0000;
    hide Placed, Mapped, Separate, DevicesApart, Loadable, RaiseAll, Mmu.Read, OffsetOf;
    ghost var before, bus := cpu.State(), cpu.Memory();
    var ram := cpu.devices[i];
    LoadElf(cpu, ram, ram.base, segs, entry);
    SameRangesApart(bus, cpu.Memory());
    assert cpu.Memory()[i].bytes == ram.buf[..];
    LoadedProgramReadsBack(before, cpu.Memory(), i, segs, ram.base, entry);
    RaiseAllSteps(cpu.State(), [], 0);
    v := cpu.MmuRead(segs[k].vaddr + t, BYTE);
  }
}
