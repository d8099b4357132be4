/** The i8042 keyboard controller: two ports and key presses acting on a few byte registers. */
module Keyboard {
  import opened Words
  import opened Alu
  import opened Core
  import opened Processor

  const DATA: Word := 0x60
  const STAT: Word := 0x64
  const CAUSE_KBC: Word := 0xd000_0000

  /** `cfg` the configuration byte, `inp` and `out` the buffers, `stat` the status, `cmd` the last
      command, `cop` the output port, `fpo`, `spo`, `spi` the device bytes. */
  datatype Kbc = Kbc(cfg: Byte, out: Byte, inp: Byte, stat: Byte, cmd: Byte, cop: Byte, fpo: Byte, spo: Byte, spi: Byte)

  predicate OutFull(stat: Byte) { stat % 2 == 1 }
  predicate InpFull(stat: Byte) { stat / 2 % 2 == 1 }
  function SetOut(stat: Byte): Byte { if OutFull(stat) then stat else stat + 1 }
  function ClearOut(stat: Byte): Byte { if OutFull(stat) then stat - 1 else stat }
  function SetInp(stat: Byte): Byte { if InpFull(stat) then stat else stat + 2 }
  function ClearInp(stat: Byte): Byte { if InpFull(stat) then stat - 2 else stat }

  predicate BitSet(b: Byte, mask: nat)
    requires mask > 0
  {
    b / mask % 2 == 1
  }

  function SetBit(b: Byte, mask: nat): int
    requires mask > 0
  {
    if BitSet(b, mask) then b else b + mask
  }

  function ClearBit(b: Byte, mask: nat): int
    requires mask > 0
  {
    if BitSet(b, mask) then b - mask else b
  }

  lemma {:induction false} BitsStayBytes(b: Byte)
    ensures 0 <= SetBit(b, 16) < 256 && 0 <= SetBit(b, 32) < 256
    ensures 0 <= ClearBit(b, 16) < 256 && 0 <= ClearBit(b, 32) < 256
    ensures BitSet(SetBit(b, 16), 16) && !BitSet(ClearBit(b, 16), 16)
  {
  }

  function FirstClock(b: Byte, on: bool): Byte {
    BitsStayBytes(b);
    if on then SetBit(b, 16) else ClearBit(b, 16)
  }

  function SecondClock(b: Byte, on: bool): Byte {
    BitsStayBytes(b);
    if on then SetBit(b, 32) else ClearBit(b, 32)
  }

  /** Every status and configuration bit operation is the mask operation of the source. */
  lemma {:induction false} BitsAreMasks(b: Byte)
    ensures OutFull(b) <==> BitAnd(b, 1) != 0
    ensures InpFull(b) <==> BitAnd(b, 2) != 0
    ensures SetOut(b) == BitOr(b, 1) && ClearOut(b) == BitAnd(b, 0xfe)
    ensures SetInp(b) == BitOr(b, 2) && ClearInp(b) == BitAnd(b, 0xfd)
    ensures BitSet(b, 16) <==> BitAnd(b, 16) != 0
    ensures FirstClock(b, true) == BitOr(b, 16) && FirstClock(b, false) == BitAnd(b, 0xef)
    ensures SecondClock(b, true) == BitOr(b, 32) && SecondClock(b, false) == BitAnd(b, 0xdf)
    ensures b % 0x10 == BitAnd(b, 0xf)
  {
    hide BitAnd, BitOr, Pow2;
    assert Pow2(0) == 1 && Pow2(1) == 2 && Pow2(4) == 16 && Pow2(5) == 32 && Pow2(8) == 256 by { BytePowers(); }
    MasksOf(b, 0);
    MasksOf(b, 1);
    MasksOf(b, 4);
    MasksOf(b, 5);
    AndLowMask(b, 4);
  }

  lemma {:induction false} BytePowers()
    ensures Pow2(0) == 1 && Pow2(1) == 2 && Pow2(4) == 16 && Pow2(5) == 32 && Pow2(8) == 256
  {
    Pow2Values();
  }

  lemma {:induction false} MasksOf(b: Byte, k: nat)
    requires Pow2(k) < 256
    ensures BitAnd(b, Pow2(k)) == if BitSet(b, Pow2(k)) then Pow2(k) else 0
    ensures BitOr(b, Pow2(k)) == SetBit(b, Pow2(k))
    ensures BitAnd(b, 255 - Pow2(k)) == ClearBit(b, Pow2(k))
  {
    hide BitAnd, BitOr;
    BytePowers();
    OneBitMask(b, k);
    ClearingMask(b, k, 8);
  }

  // ---- The controller as a function ----

  datatype Event = ReadPort(port: Word) | WritePort(port: Word, value: Word) | Key(kcode: Word)

  /** The commands after which a data byte is delivered. */
  predicate TakesByte(cmd: Byte) {
    cmd == 0x60 || 0xd1 <= cmd <= 0xd4
  }

  function Deliver(k: Kbc): Kbc
    requires TakesByte(k.cmd)
  {
    var k1 := k.(stat := ClearInp(k.stat));
    if k.cmd == 0x60 then k1.(cfg := k.inp)
    else if k.cmd == 0xd1 then k1.(cop := k.inp)
    else if k.cmd == 0xd2 then k1.(fpo := k.inp)
    else if k.cmd == 0xd3 then k1.(spo := k.inp)
    else k1.(spi := k.inp)
  }

  /** A byte written while the buffer is full is dropped. */
  function Accept(k: Kbc, value: Word): Kbc {
    if InpFull(k.stat) then k else k.(inp := value % 0x100, stat := SetInp(k.stat))
  }

  function WriteData(k: Kbc, value: Word): Kbc {
    var k1 := Accept(k, value);
    if TakesByte(k1.cmd) then Deliver(k1) else k1.(cmd := 0)
  }

  function Answer(k: Kbc, b: Byte): Kbc {
    k.(out := b, stat := SetOut(k.stat))
  }

  function Command(k: Kbc, value: Word): Kbc {
    var cmd: Byte := value % 0x100;
    var k1 := k.(cmd := cmd);
    if cmd == 0x20 then Answer(k1, k.cfg)
    else if 0x21 <= cmd <= 0x3f then Answer(k1, 0)
    else if cmd == 0xa7 || cmd == 0xa8 then k1.(cfg := SecondClock(k.cfg, cmd == 0xa7))
    else if cmd == 0xa9 || cmd == 0xab || cmd == 0xc0 then Answer(k1, 0)
    else if cmd == 0xaa then Answer(k1, 0x55)
    else if cmd == 0xad || cmd == 0xae then k1.(cfg := FirstClock(k.cfg, cmd == 0xad))
    else if cmd == 0xc1 || cmd == 0xc2 then k1.(stat := k.stat % 0x10)
    else if cmd == 0xd0 then Answer(k1, k.cop)
    else k1
  }

  function Step(k: Kbc, e: Event): Kbc {
    match e
    case ReadPort(port) => if port == DATA then k.(stat := ClearOut(k.stat), out := 0) else k
    case WritePort(port, value) =>
      if port == DATA then WriteData(k, value)
      else if port == STAT then Command(k, value)
      else k
    case Key(kcode) => if BitSet(k.cfg, 16) then Answer(k, kcode % 0x100) else k
  }

  /** The exception an event raises in the processor. */
  function Raises(k: Kbc, e: Event): seq<Word> {
    match e
    case ReadPort(_) => []
    case WritePort(port, value) => if port == STAT && value % 0x100 == 0xfe then [CAUSE_RESET] else []
    case Key(_) => if BitSet(k.cfg, 16) && BitSet(k.cfg, 1) then [CAUSE_KBC] else []
  }

  function Run(k: Kbc, es: seq<Event>): Kbc
    decreases |es|
  {
    if es == [] then k else Step(Run(k, es[..|es| - 1]), es[|es| - 1])
  }

  /** The state `init` leaves: both clocks and the first interrupt on. */
  const INITIAL := Kbc(0x31, 0, 0, 0, 0, 0, 0, 0, 0)

  // ---- The controller as an object ----

  class Controller {
    const cpu: Hv2
    var cfg: Byte
    var out: Byte
    var inp: Byte
    var stat: Byte
    var cmd: Byte
    var cop: Byte
    var fpo: Byte
    var spo: Byte
    var spi: Byte

    constructor (cpu: Hv2)
      ensures this.cpu == cpu && State() == INITIAL
      ensures BitSet(cfg, 16) && BitSet(cfg, 32) && BitSet(cfg, 1) && !BitSet(cfg, 2)
    {
      this.cpu := cpu;
      cfg, out, inp, stat, cmd, cop, fpo, spo, spi := 0x31, 0, 0, 0, 0, 0, 0, 0, 0;
    }

    ghost function State(): Kbc
      reads this
    {
      Kbc(cfg, out, inp, stat, cmd, cop, fpo, spo, spi)
    }

    method ReadPort(port: Word) returns (v: Word)
      modifies this
      ensures State() == Step(old(State()), Event.ReadPort(port))
      ensures v == if port == DATA then old(out) else if port == STAT then old(stat) else 0xff
    {
      if port == DATA {
        stat := ClearOut(stat);
        var ret := out;
        out := 0;
        return ret;
      }
      if port == STAT {
        return stat;
      }
      return 0xff;
    }

    /** The data port of `write`. */
    method WriteDataPort(value: Word)
      modifies this
      ensures State() == WriteData(old(State()), value)
    {
      hide SetInp, ClearInp, InpFull;
      if !InpFull(stat) {
        inp := value % 0x100;
        stat := SetInp(stat);
      }
      if cmd == 0x60 {
        cfg := inp;
        stat := ClearInp(stat);
      } else if cmd == 0xd1 {
        cop := inp;
        stat := ClearInp(stat);
      } else if cmd == 0xd2 {
        fpo := inp;
        stat := ClearInp(stat);
      } else if cmd == 0xd3 {
        spo := inp;
        stat := ClearInp(stat);
      } else if cmd == 0xd4 {
        spi := inp;
        stat := ClearInp(stat);
      } else {
        cmd := 0;
      }
    }

    /** The command port of `write`. */
    method WriteCommandPort(value: Word)
      requires cpu.Valid()
      modifies this, cpu`pl, cpu`ctrl, cpu`cmap, cpu`xcause, cpu`xpc, cpu.r, cpu.pipeline
      ensures State() == Command(old(State()), value)
      ensures cpu.Valid()
      ensures cpu.State() == RaiseAll(old(cpu.State()), if value % 0x100 == 0xfe then [CAUSE_RESET] else [])
    {
      hide FirstClock, SecondClock, Raise, RaiseAll, SetOut;
      RaiseAllSteps(cpu.State(), [], CAUSE_RESET);
      cmd := value % 0x100;
      if cmd == 0x20 {
        stat, out := SetOut(stat), cfg;
      } else if 0x21 <= cmd <= 0x3f {
        stat, out := SetOut(stat), 0;
      } else if cmd == 0xa7 || cmd == 0xa8 {
        cfg := SecondClock(cfg, cmd % 2 == 1);
      } else if cmd == 0xa9 || cmd == 0xab || cmd == 0xc0 {
        stat, out := SetOut(stat), 0;
      } else if cmd == 0xaa {
        stat, out := SetOut(stat), 0x55;
      } else if cmd == 0xad || cmd == 0xae {
        cfg := FirstClock(cfg, cmd % 2 == 1);
      } else if cmd == 0xc1 || cmd == 0xc2 {
        stat := stat % 0x10;
      } else if cmd == 0xd0 {
        stat, out := SetOut(stat), cop;
      } else if cmd == 0xfe {
        cpu.Exception(CAUSE_RESET);
      }
    }

    method WritePort(port: Word, value: Word)
      requires cpu.Valid()
      modifies this, cpu`pl, cpu`ctrl, cpu`cmap, cpu`xcause, cpu`xpc, cpu.r, cpu.pipeline
      ensures State() == Step(old(State()), Event.WritePort(port, value))
      ensures cpu.Valid()
      ensures cpu.State() == RaiseAll(old(cpu.State()), Raises(old(State()), Event.WritePort(port, value)))
    {
      hide WriteData, Command, Raise, RaiseAll;
      RaiseAllSteps(cpu.State(), [], CAUSE_RESET);
      if port == DATA {
        WriteDataPort(value);
      } else if port == STAT {
        WriteCommandPort(value);
      }
    }

    method KeyDown(kcode: Word)
      requires cpu.Valid()
      modifies this, cpu`pl, cpu`ctrl, cpu`cmap, cpu`xcause, cpu`xpc, cpu.r, cpu.pipeline
      ensures State() == Step(old(State()), Key(kcode))
      ensures cpu.Valid() && cpu.State() == RaiseAll(old(cpu.State()), Raises(old(State()), Key(kcode)))
    {
      hide BitSet, Raise, RaiseAll;
      RaiseAllSteps(cpu.State(), [], CAUSE_KBC);
      if !BitSet(cfg, 16) {
        return;
      }
      if BitSet(cfg, 1) {
        cpu.Exception(CAUSE_KBC);
      }
      stat := SetOut(stat);
      out := kcode % 0x100;
    }
  }

  // ---- What the controller does with each byte ----

  /** A byte at port 0x60 goes where the last command says: 0x60 the configuration, 0xd1 the output
      port, 0xd2 the first device, 0xd3 the second, 0xd4 its input. Any other command is forgotten and
      the byte waits; a byte that waits already is the one handed over. */
  lemma {:induction false} DataByteIs(k: Kbc, value: Word)
    ensures var byte: Byte := if k.stat / 2 % 2 == 1 then k.inp else value % 0x100;
            var handed := k.(inp := byte, stat := ClearInp(k.stat));
            Step(k, WritePort(0x60, value)) ==
              match k.cmd
              case 0x60 => handed.(cfg := byte)
              case 0xd1 => handed.(cop := byte)
              case 0xd2 => handed.(fpo := byte)
              case 0xd3 => handed.(spo := byte)
              case 0xd4 => handed.(spi := byte)
              case _ => k.(inp := byte, stat := SetInp(k.stat), cmd := 0)
  {
    ClearsAnyway(k.stat);
    hide SetInp, ClearInp;
  }

  lemma {:induction false} ClearsAnyway(stat: Byte)
    ensures ClearInp(SetInp(stat)) == ClearInp(stat)
    ensures InpFull(stat) ==> SetInp(stat) == stat
  {
    InpMovesHalf(stat);
  }

  /** What a command, a byte at port 0x64, leaves in the output buffer, if anything. */
  function Answers(k: Kbc, cmd: Byte): Option<Byte> {
    match cmd
    case 0x20 => Some(k.cfg)
    case 0xa9 => Some(0)
    case 0xaa => Some(0x55)
    case 0xab => Some(0)
    case 0xc0 => Some(0)
    case 0xd0 => Some(k.cop)
    case _ => if 0x21 <= cmd <= 0x3f then Some(0) else None
  }

  /** A command that answers fills the output buffer; 0xa7, 0xa8, 0xad and 0xae switch the clock bits,
      0xc1 and 0xc2 keep four bits of the status, and only 0xfe reaches the processor. */
  lemma {:induction false} CommandIs(k: Kbc, value: Word)
    ensures var cmd: Byte := value % 0x100;
            var k1 := k.(cmd := cmd);
            Step(k, WritePort(0x64, value)) ==
              match Answers(k, cmd)
              case Some(byte) => k1.(out := byte, stat := SetOut(k.stat))
              case None =>
                if cmd == 0xa7 then k1.(cfg := SecondClock(k.cfg, true))
                else if cmd == 0xa8 then k1.(cfg := SecondClock(k.cfg, false))
                else if cmd == 0xad then k1.(cfg := FirstClock(k.cfg, true))
                else if cmd == 0xae then k1.(cfg := FirstClock(k.cfg, false))
                else if cmd == 0xc1 || cmd == 0xc2 then k1.(stat := k.stat % 16)
                else k1
    ensures Raises(k, WritePort(0x64, value)) == if value % 0x100 == 0xfe then [0xff48_5632] else []
  {
    hide SetOut, FirstClock, SecondClock;
  }

  /** A key is lost while bit 4 of the configuration is clear; otherwise it overwrites the output
      buffer, and raises 0xd0000000 if bit 0 is set. Reading port 0x60 empties the buffer. */
  lemma {:induction false} KeyIs(k: Kbc, kcode: Word)
    ensures Step(k, Key(kcode)) ==
              if k.cfg / 16 % 2 == 1 then k.(out := kcode % 0x100, stat := SetOut(k.stat)) else k
    ensures Raises(k, Key(kcode)) == if k.cfg / 16 % 2 == 1 && k.cfg % 2 == 1 then [0xd000_0000] else []
    ensures Step(k, ReadPort(0x60)) == k.(out := 0, stat := ClearOut(k.stat))
  {
    hide SetOut, ClearOut;
  }

  // ---- Status ----

  /** No status bits but OUT_FULL and INP_FULL, and an empty output buffer holds 0. */
  predicate Sound(k: Kbc) {
    k.stat < 4 && (!OutFull(k.stat) ==> k.out == 0)
  }

  lemma {:induction false} StepKeepsSound(k: Kbc, e: Event)
    requires Sound(k)
    ensures Sound(Step(k, e))
  {
    hide FirstClock, SecondClock, BitSet, WriteData, Command, OutFull, SetOut, ClearOut;
    SoundBits(k.stat);
    match e
    case WritePort(port, value) =>
      DataKeepsSound(k, value);
      CommandKeepsSound(k, value);
    case _ =>
  }

  lemma {:induction false} SoundBits(stat: Byte)
    requires stat < 4
    ensures SetOut(stat) < 4 && OutFull(SetOut(stat)) && ClearOut(stat) < 4 && !OutFull(ClearOut(stat))
    ensures SetInp(stat) < 4 && OutFull(SetInp(stat)) == OutFull(stat)
    ensures ClearInp(stat) < 4 && OutFull(ClearInp(stat)) == OutFull(stat)
  {
  }

  lemma {:induction false} DataKeepsSound(k: Kbc, value: Word)
    requires Sound(k)
    ensures Sound(WriteData(k, value))
  {
    hide OutFull, InpFull, SetInp, ClearInp;
    SoundBits(k.stat);
    SoundBits(SetInp(k.stat));
  }

  lemma {:induction false} CommandKeepsSound(k: Kbc, value: Word)
    requires Sound(k)
    ensures Sound(Command(k, value))
  {
    hide FirstClock, SecondClock, OutFull, SetOut;
    SoundBits(k.stat);
    assert k.stat % 0x10 == k.stat;
  }

  /** Every run keeps the status sound. */
  lemma {:induction false} RunKeepsSound(k: Kbc, es: seq<Event>)
    requires Sound(k)
    ensures Sound(Run(k, es))
    decreases |es|
  {
    hide Step, Sound;
    if es == [] {
    } else {
      RunKeepsSound(k, es[..|es| - 1]);
      StepKeepsSound(Run(k, es[..|es| - 1]), es[|es| - 1]);
    }
  }

  // ---- The input buffer ----

  predicate IsDataWrite(e: Event) {
    e.WritePort? && e.port == DATA
  }

  predicate Delivers(k: Kbc, e: Event) {
    IsDataWrite(e) && TakesByte(k.cmd)
  }

  /** The byte a delivery hands over. */
  function Handed(k: Kbc, e: Event): Byte
    requires Delivers(k, e)
  {
    Accept(k, e.value).inp
  }

  predicate DeliversAt(k: Kbc, es: seq<Event>, j: nat)
    requires j < |es|
  {
    Delivers(Run(k, es[..j]), es[j])
  }

  /** Event i is the first write to the data port since the last delivery before event n, and
      nothing was delivered from i up to n. */
  ghost predicate FirstSince(k: Kbc, es: seq<Event>, n: nat, i: nat)
    requires n <= |es|
  {
    && i < n && IsDataWrite(es[i])
    && (forall m: nat :: i <= m < n ==> !DeliversAt(k, es, m))
    && AllDelivered(k, es, i)
  }

  /** Every data write before event n was followed, before n, by a delivery. */
  ghost predicate AllDelivered(k: Kbc, es: seq<Event>, n: nat)
    requires n <= |es|
  {
    forall m: nat :: m < n && IsDataWrite(es[m]) ==> exists d: nat :: m <= d < n && DeliversAt(k, es, d)
  }

  /** What the buffer holds after n events: nothing, or the first byte since the last delivery. */
  ghost predicate Buffered(k: Kbc, es: seq<Event>, n: nat)
    requires n <= |es|
  {
    var now := Run(k, es[..n]);
    if InpFull(now.stat)
    then exists i: nat :: FirstSince(k, es, n, i) && now.inp == es[i].value % 0x100
    else AllDelivered(k, es, n)
  }

  lemma {:induction false} RunStep(k: Kbc, es: seq<Event>, n: nat)
    requires n < |es|
    ensures Run(k, es[..n + 1]) == Step(Run(k, es[..n]), es[n])
  {
    assert es[..n + 1][..n] == es[..n];
  }

  lemma {:induction false} BufferBits(stat: Byte)
    ensures InpFull(SetInp(stat)) && !InpFull(ClearInp(stat))
    ensures InpFull(SetOut(stat)) == InpFull(ClearOut(stat)) == InpFull(stat)
    ensures InpFull(stat % 0x10) == InpFull(stat)
  {
    LowStatusBits(stat);
    OutKeepsHalf(stat);
    InpMovesHalf(stat);
  }

  lemma {:induction false} OutKeepsHalf(stat: Byte)
    ensures SetOut(stat) / 2 == stat / 2 == ClearOut(stat) / 2
  {
    var half := stat / 2;
    DivModUnique(SetOut(stat), 2, half, 1);
    DivModUnique(ClearOut(stat), 2, half, 0);
  }

  lemma {:induction false} InpMovesHalf(stat: Byte)
    ensures SetInp(stat) / 2 == (if InpFull(stat) then stat / 2 else stat / 2 + 1)
    ensures ClearInp(stat) / 2 == (if InpFull(stat) then stat / 2 - 1 else stat / 2)
  {
    var half, low := stat / 2, stat % 2;
    if InpFull(stat) {
      DivModUnique(ClearInp(stat), 2, half - 1, low);
    } else {
      DivModUnique(SetInp(stat), 2, half + 1, low);
    }
  }

  lemma {:induction false} LowStatusBits(stat: Byte)
    ensures InpFull(stat % 0x10) == InpFull(stat)
  {
    PartOfRemainder(stat, 2, 8);
    PartOfRemainder(stat / 2, 2, 4);
  }

  lemma {:induction false} StatusOfStep(k: Kbc, e: Event)
    ensures !IsDataWrite(e) ==> InpFull(Step(k, e).stat) == InpFull(k.stat) && Step(k, e).inp == k.inp
    ensures Delivers(k, e) ==> !InpFull(Step(k, e).stat)
    ensures IsDataWrite(e) && !Delivers(k, e) ==>
              InpFull(Step(k, e).stat) && Step(k, e).inp == if InpFull(k.stat) then k.inp else e.value % 0x100
  {
    hide FirstClock, SecondClock, BitSet, InpFull, SetInp, ClearInp, SetOut, ClearOut;
    BufferBits(k.stat);
    BufferBits(SetInp(k.stat));
  }

  lemma {:induction false} BufferedStep(k: Kbc, es: seq<Event>, n: nat)
    requires n < |es| && Buffered(k, es, n)
    ensures Buffered(k, es, n + 1)
  {
    hide Step, Run, Delivers;
    var now := Run(k, es[..n]);
    RunStep(k, es, n);
    StatusOfStep(now, es[n]);
    assert DeliversAt(k, es, n) == Delivers(now, es[n]);
    if DeliversAt(k, es, n) {
      forall m: nat | m < n + 1 && IsDataWrite(es[m])
        ensures exists d: nat :: m <= d < n + 1 && DeliversAt(k, es, d)
      {
        assert m <= n < n + 1 && DeliversAt(k, es, n);
      }
    } else if InpFull(now.stat) {
      var i: nat :| FirstSince(k, es, n, i) && now.inp == es[i].value % 0x100;
      assert FirstSince(k, es, n + 1, i);
    } else if IsDataWrite(es[n]) {
      assert FirstSince(k, es, n + 1, n);
    } else {
      forall m: nat | m < n + 1 && IsDataWrite(es[m])
        ensures exists d: nat :: m <= d < n + 1 && DeliversAt(k, es, d)
      {
        var d: nat :| m <= d < n && DeliversAt(k, es, d);
        assert d < n + 1;
      }
    }
  }

  lemma {:induction false} AlwaysBuffered(k: Kbc, es: seq<Event>, n: nat)
    requires n <= |es| && !InpFull(k.stat)
    ensures Buffered(k, es, n)
    decreases n
  {
    if n == 0 {
      assert es[..0] == [];
    } else {
      hide Buffered;
      AlwaysBuffered(k, es, n - 1);
      BufferedStep(k, es, n - 1);
    }
  }

  /** Each delivered byte is the first one written to the data port since the previous delivery;
      later ones are dropped, and none is delivered twice. */
  lemma {:induction false} DeliveredIsFirst(k: Kbc, es: seq<Event>, j: nat)
    requires !InpFull(k.stat) && j < |es| && DeliversAt(k, es, j)
    ensures exists i: nat :: i <= j && IsDataWrite(es[i])
              && Handed(Run(k, es[..j]), es[j]) == es[i].value % 0x100
              && (forall m: nat :: i <= m < j ==> !DeliversAt(k, es, m))
              && AllDelivered(k, es, i)
  {
    hide Run, Step;
    AlwaysBuffered(k, es, j);
    var now := Run(k, es[..j]);
    if InpFull(now.stat) {
      var i: nat :| FirstSince(k, es, j, i) && now.inp == es[i].value % 0x100;
      assert i <= j;
    } else {
      assert j <= j && IsDataWrite(es[j]) && AllDelivered(k, es, j);
    }
  }

  /** The command named enable (0xae) mutes the keyboard and the one named disable (0xad) lets it
      through: with the clock bit clear, keys change nothing and raise nothing. */
  lemma {:induction false} EnableMutes(k: Kbc, kcode: Word)
    ensures var muted := Step(k, WritePort(STAT, 0xae));
            Step(muted, Key(kcode)) == muted && Raises(muted, Key(kcode)) == []
    ensures var heard := Step(k, WritePort(STAT, 0xad));
            Step(heard, Key(kcode)).out == kcode % 0x100
  {
    BitsStayBytes(k.cfg);
  }
}
