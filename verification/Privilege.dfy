/** Privilege levels over whole runs: every sequence of exceptions and sysrets is one clamped
    shift of the level, and the MMU switches with it. */
module Privilege {
  import opened Words
  import opened Alu
  import opened Core
  import opened Mmu
  import opened Instructions
  import opened Execute

  datatype Event = Exception(cause: Word) | Return

  function Apply(c: Core, e: Event): Core {
    match e
    case Exception(cause) => Raise(c, cause)
    case Return => SysReturn(c)
  }

  function ApplyAll(c: Core, events: seq<Event>): Core
    decreases |events|
  {
    if events == [] then c else ApplyAll(Apply(c, events[0]), events[1..])
  }

  /** x maps to min(hi, max(lo, x + shift)). */
  datatype Clamp = Clamp(lo: int, hi: int, shift: int)
  {
    function At(x: int): int {
      if x + shift < lo then lo else if x + shift > hi then hi else x + shift
    }

    /** First this, then the other. */
    function Then(next: Clamp): Clamp {
      Clamp(next.At(lo), next.At(hi), shift + next.shift)
    }
  }

  function Summary(events: seq<Event>): Clamp
    decreases |events|
  {
    if events == [] then Clamp(0, 3, 0)
    else Clamp(0, 3, if events[0].Return? then 1 else -1).Then(Summary(events[1..]))
  }

  lemma {:induction false} SummaryRange(events: seq<Event>)
    ensures 0 <= Summary(events).lo <= Summary(events).hi <= 3
    decreases |events|
  {
    if events == [] {
    } else {
      SummaryRange(events[1..]);
    }
  }

  lemma {:induction false} ThenComposes(f: Clamp, g: Clamp, x: int)
    requires f.lo <= f.hi && g.lo <= g.hi
    ensures f.Then(g).At(x) == g.At(f.At(x))
    ensures f.Then(g).lo <= f.Then(g).hi
  {
  }

  /** Any sequence of exceptions and sysrets acts on the level as the clamp its parts compose to. */
  lemma {:induction false} LevelIsClamped(c: Core, events: seq<Event>)
    ensures ApplyAll(c, events).pl == Summary(events).At(c.pl)
    decreases |events|
  {
    hide Transition, EnableOnTpl1, DisableOnTpl0, RemapOnPlt;
    if events == [] {
    } else {
      OneEvent(c, events[0]);
      LevelIsClamped(Apply(c, events[0]), events[1..]);
      SummaryRange(events[1..]);
      var first := Clamp(0, 3, if events[0].Return? then 1 else -1);
      ThenComposes(first, Summary(events[1..]), c.pl);
    }
  }

  lemma {:induction false} OneEvent(c: Core, e: Event)
    ensures Apply(c, e).pl == Clamp(0, 3, if e.Return? then 1 else -1).At(c.pl)
  {
    hide EnableOnTpl1, DisableOnTpl0, RemapOnPlt;
  }

  /** On levels, the summary of a concatenation is the composition of the summaries. */
  lemma {:induction false} SummaryComposes(a: seq<Event>, b: seq<Event>, x: Level)
    ensures Summary(a + b).At(x) == Summary(a).Then(Summary(b)).At(x) == Summary(b).At(Summary(a).At(x))
    decreases |a|
  {
    SummaryRange(a);
    SummaryRange(b);
    ThenComposes(Summary(a), Summary(b), x);
    if a == [] {
      assert a + b == b;
    } else {
      assert (a + b)[1..] == a[1..] + b;
      SummaryRange(a[1..]);
      SummaryRange(a[1..] + b);
      var first := Clamp(0, 3, if a[0].Return? then 1 else -1);
      SummaryComposes(a[1..], b, first.At(x));
      ThenComposes(first, Summary(a[1..]), x);
      ThenComposes(first, Summary(a[1..] + b), x);
    }
  }

  function Exceptions(k: nat): seq<Event> {
    if k == 0 then [] else [Exception(0)] + Exceptions(k - 1)
  }

  function Returns(k: nat): seq<Event> {
    if k == 0 then [] else [Return] + Returns(k - 1)
  }

  lemma {:induction false} SummaryOfExceptions(k: nat, x: Level)
    ensures Summary(Exceptions(k)).At(x) == if x >= k then x - k else 0
    decreases k
  {
    if k == 0 {
    } else {
      assert Exceptions(k)[1..] == Exceptions(k - 1);
      SummaryRange(Exceptions(k - 1));
      ThenComposes(Clamp(0, 3, -1), Summary(Exceptions(k - 1)), x);
      SummaryOfExceptions(k - 1, Clamp(0, 3, -1).At(x));
    }
  }

  lemma {:induction false} SummaryOfReturns(k: nat, x: Level)
    ensures Summary(Returns(k)).At(x) == if x + k <= 3 then x + k else 3
    decreases k
  {
    if k == 0 {
    } else {
      assert Returns(k)[1..] == Returns(k - 1);
      SummaryRange(Returns(k - 1));
      ThenComposes(Clamp(0, 3, 1), Summary(Returns(k - 1)), x);
      SummaryOfReturns(k - 1, Clamp(0, 3, 1).At(x));
    }
  }

  /** k nested exceptions and k sysrets restore the level exactly when it was at least k;
      from a lower level they end at k, or at 3 for more than three. */
  lemma {:induction false} NestingRestores(c: Core, k: nat)
    ensures var after := ApplyAll(c, Exceptions(k) + Returns(k)).pl;
            after == (if c.pl >= k then c.pl else if k <= 3 then k else 3)
            && (k <= 3 ==> (after == c.pl <==> c.pl >= k))
  {
    LevelIsClamped(c, Exceptions(k) + Returns(k));
    SummaryComposes(Exceptions(k), Returns(k), c.pl);
    SummaryOfExceptions(k, c.pl);
    SummaryOfReturns(k, if c.pl >= k then c.pl - k else 0);
  }

  // ---- The MMU follows the level ----

  /** The three transition bits are set, the MMU is on above level 0, and the map is the level's. */
  predicate Switched(c: Core) {
    && EnableOnTpl1(c.ctrl) && DisableOnTpl0(c.ctrl) && RemapOnPlt(c.ctrl)
    && (Enabled(c.ctrl) <==> c.pl >= 1)
    && c.cmap == c.pl
  }

  lemma {:induction false} EnableBitAlone(ctrl: Word)
    ensures Enabled(SetEnable(ctrl)) && !Enabled(ClearEnable(ctrl))
    ensures EnableOnTpl1(SetEnable(ctrl)) == EnableOnTpl1(ClearEnable(ctrl)) == EnableOnTpl1(ctrl)
    ensures DisableOnTpl0(SetEnable(ctrl)) == DisableOnTpl0(ClearEnable(ctrl)) == DisableOnTpl0(ctrl)
    ensures RemapOnPlt(SetEnable(ctrl)) == RemapOnPlt(ClearEnable(ctrl)) == RemapOnPlt(ctrl)
  {
    LowestBit(ctrl);
    hide SetEnable, ClearEnable, Enabled;
    HigherBits(ctrl, 0x800);
    HigherBits(ctrl, 0x1000);
    HigherBits(ctrl, 0x2000);
  }

  lemma {:induction false} LowestBit(ctrl: Word)
    ensures Enabled(SetEnable(ctrl)) && !Enabled(ClearEnable(ctrl))
    ensures SetEnable(ctrl) / 2 == ClearEnable(ctrl) / 2 == ctrl / 2
  {
    var q := ctrl / 2;
    DivModUnique(SetEnable(ctrl), 2, q, 1);
    DivModUnique(ClearEnable(ctrl), 2, q, 0);
  }

  lemma {:induction false} HigherBits(ctrl: Word, half: nat)
    requires half > 0
    ensures SetEnable(ctrl) / (2 * half) == ClearEnable(ctrl) / (2 * half) == ctrl / (2 * half)
  {
    LowestBit(ctrl);
    hide SetEnable, ClearEnable, Enabled;
    HalfMod(ctrl, half);
    HalfMod(SetEnable(ctrl), half);
    HalfMod(ClearEnable(ctrl), half);
  }

  lemma {:induction false} TransitionsKeepSwitched(c: Core)
    requires Switched(c)
    ensures Switched(PrivilegeUp(c)) && Switched(PrivilegeDown(c))
  {
    hide EnableOnTpl1, DisableOnTpl0, RemapOnPlt, Enabled, SetEnable, ClearEnable;
    EnableBitAlone(c.ctrl);
  }

  lemma {:induction false} RaiseAllKeepsSwitched(c: Core, causes: seq<Word>)
    requires Switched(c)
    ensures Switched(RaiseAll(c, causes))
    decreases |causes|
  {
    hide EnableOnTpl1, DisableOnTpl0, RemapOnPlt, Enabled, Transition;
    if causes == [] {
    } else {
      TransitionsKeepSwitched(c);
      RaiseAllKeepsSwitched(Raise(c, causes[0]), causes[1..]);
    }
  }

  /** mtcr to the COP4 control register. */
  predicate WritesControl(w: Word) {
    var i := Decode(w);
    i.CopExchange? && i.op == 0 && i.copn == 4 && i.copr == 0
  }

  lemma {:induction false} PerformKeepsSwitched(c: Core, bus: Bus, w: Word)
    requires Switched(c) && !WritesControl(w)
    ensures Perform(c, bus, w).Next? ==> Switched(Perform(c, bus, w).core)
  {
    hide Decode, Dispatch;
    DispatchKeepsSwitched(c, bus, Decode(w));
    hide EnableOnTpl1, DisableOnTpl0, RemapOnPlt, Enabled;
  }

  lemma {:induction false} DispatchKeepsSwitched(c: Core, bus: Bus, i: Instr)
    requires Switched(c) && !(i.CopExchange? && i.op == 0 && i.copn == 4 && i.copr == 0)
    ensures Dispatch(c, bus, i).Next? ==> Switched(Dispatch(c, bus, i).core)
  {
    hide EnableOnTpl1, DisableOnTpl0, RemapOnPlt, Enabled, PrivilegeUp, PrivilegeDown, FlushOnTransfer,
         Operate, Read, Write, Address, RaiseAll, Or32;
    TransitionsKeepSwitched(c);
    match i
    case LoadStore(op, size, d, s0, mode) =>
      var addr := Address(c, s0, mode);
      RaiseAllKeepsSwitched(c, Read(c, bus, addr, size).causes);
      RaiseAllKeepsSwitched(c, Write(c, bus, addr, c.r[d], size).causes);
    case _ =>
  }

  /** The word the next cycle executes. */
  function Executing(m: Machine): Word {
    var f := Read(m.core, m.bus, m.core.r[PC], EXEC);
    if f.causes != [] && FlushOnTransfer(m.core.cr0) then 0 else m.p1
  }

  lemma {:induction false} CycleKeepsSwitched(m: Machine)
    requires Switched(m.core) && !WritesControl(Executing(m))
    ensures Cycle(m).Running? ==> Switched(Cycle(m).m.core)
  {
    hide EnableOnTpl1, DisableOnTpl0, RemapOnPlt, Enabled, Perform, Read, FlushOnTransfer, WritesControl;
    var f := Read(m.core, m.bus, m.core.r[PC], EXEC);
    RaiseAllKeepsSwitched(m.core, f.causes);
    PerformKeepsSwitched(Advance(RaiseAll(m.core, f.causes)), m.bus, Executing(m));
  }

  /** Once switched, every run that does not write the COP4 control register stays switched,
      through faults of any number, nested exceptions and sysret. */
  lemma {:induction false} RunKeepsSwitched(m: Machine, n: nat)
    requires Switched(m.core)
    requires forall k: nat :: k < n && Cycles(m, k).Running? ==> !WritesControl(Executing(Cycles(m, k).m))
    ensures Cycles(m, n).Running? ==> Switched(Cycles(m, n).m.core)
    decreases n
  {
    hide Switched, Cycle, WritesControl, Executing;
    if n == 0 {
    } else {
      assert Cycles(m, 0) == Running(m);
      CycleKeepsSwitched(m);
      if Cycle(m).Running? {
        forall k: nat | k < n - 1 && Cycles(Cycle(m).m, k).Running?
          ensures !WritesControl(Executing(Cycles(Cycle(m).m, k).m))
        {
          assert Cycles(m, k + 1) == Cycles(Cycle(m).m, k);
        }
        RunKeepsSwitched(Cycle(m).m, n - 1);
      }
    }
  }
}
