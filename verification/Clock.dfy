/** The fractional clock divider, over real numbers. */
module Clock {

  /** cycles_elapsed before a tick, and what the tick leaves and answers. */
  predicate Fires(elapsed: real, ratio: real) {
    elapsed >= ratio
  }

  function Next(elapsed: real, ratio: real): real {
    if Fires(elapsed, ratio) then elapsed - ratio else elapsed + 1.0
  }

  class Divider {
    var freq: real
    var masterFreq: real
    var cyclesElapsed: real

    /** Unlike the source, which leaves it unset, the count starts at zero. */
    constructor (freq: real, masterFreq: real)
      ensures this.freq == freq && this.masterFreq == masterFreq && cyclesElapsed == 0.0
    {
      this.freq, this.masterFreq, cyclesElapsed := freq, masterFreq, 0.0;
    }

    method Tick() returns (fired: bool)
      requires freq > 0.0
      modifies this`cyclesElapsed
      ensures fired == Fires(old(cyclesElapsed), masterFreq / freq)
      ensures cyclesElapsed == Next(old(cyclesElapsed), masterFreq / freq)
    {
      var ratio := masterFreq / freq;
      if cyclesElapsed < ratio {
        cyclesElapsed := cyclesElapsed + 1.0;
      } else {
        cyclesElapsed := cyclesElapsed - ratio;
        return true;
      }
      return false;
    }
  }

  /** The count after n ticks from zero, and how many of them fired. */
  function Elapsed(ratio: real, n: nat): real {
    if n == 0 then 0.0 else Next(Elapsed(ratio, n - 1), ratio)
  }

  function Fired(ratio: real, n: nat): nat {
    if n == 0 then 0
    else Fired(ratio, n - 1) + (if Fires(Elapsed(ratio, n - 1), ratio) then 1 else 0)
  }

  /** What k firings take out of the count. */
  function Spent(k: nat, ratio: real): real {
    k as real * (ratio + 1.0)
  }

  lemma {:induction false} SpendOne(k: nat, ratio: real)
    ensures Spent(0, ratio) == 0.0 && Spent(k + 1, ratio) == Spent(k, ratio) + (ratio + 1.0)
  {
  }

  /** Each firing takes ratio + 1 ticks out of the count, which stays below ratio + 1. */
  lemma {:induction false} CountBalance(ratio: real, n: nat)
    requires ratio > 0.0
    ensures 0.0 <= Elapsed(ratio, n) < ratio + 1.0
    ensures Elapsed(ratio, n) == n as real - Spent(Fired(ratio, n), ratio)
  {
    hide Spent;
    SpendOne(0, ratio);
    if n == 0 {
    } else {
      CountBalance(ratio, n - 1);
      SpendOne(Fired(ratio, n - 1), ratio);
    }
  }

  /** After n ticks the clock has fired exactly floor(n / (ratio + 1)) times. */
  lemma {:induction false} FiresFloorTimes(ratio: real, n: nat)
    requires ratio > 0.0
    ensures Fired(ratio, n) == (n as real / (ratio + 1.0)).Floor
  {
    hide Elapsed, Fired;
    CountBalance(ratio, n);
    FloorOf(n as real, ratio + 1.0, Fired(ratio, n), Elapsed(ratio, n));
  }

  lemma {:induction false} FloorOf(x: real, d: real, k: nat, rest: real)
    requires d > 0.0 && x == k as real * d + rest && 0.0 <= rest < d
    ensures (x / d).Floor == k
  {
    assert x / d == k as real + rest / d;
    var q := rest / d;
    assert q * d == rest;
    Below(q, d);
  }

  lemma {:induction false} Below(q: real, d: real)
    requires d > 0.0 && 0.0 <= q * d < d
    ensures 0.0 <= q < 1.0
  {
  }
}
