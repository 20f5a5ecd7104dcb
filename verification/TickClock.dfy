/**
The nanosecond clock (Timer.h, Timer.cpp): a millisecond counter kept by the tick interrupt and
the down-counting tick register are read one after the other while both run on.
*/
module TickClock {
  import opened Prelude

  const WRAP := 0x8000_0000
  const MILLI := 1_000_000

  /** The register at tick `t`, counting down from period - 1. */
  function Val(t: nat, period: nat): (v: nat)
    requires period > 0
    ensures v < period
  {
    period - 1 - t % period
  }

  /** _baseTimer at tick `t` */
  function Base(t: nat, period: nat): nat
    requires period > 0
  {
    t / period % WRAP
  }

  /** The time at tick `t` in nanoseconds, rounded down. */
  function TimeAt(t: nat, period: nat): nat
    requires period > 0
  {
    t * MILLI / period
  }

  /** The computation of getTime_ns on its three readings. */
  function Combine(base: nat, tick: nat, base1: nat, period: nat): nat
    requires tick < period
  {
    (if base1 != base && tick > period / 2 then base + 1 else base) * MILLI + (period - tick - 1) * MILLI / period
  }

  // ---------------------------------------------------------------- what the readings tell

  /** Less than a period later, at most one reload further. */
  lemma Later(t: nat, u: nat, period: nat)
    requires t <= u && u - t < period
    ensures if t % period + (u - t) < period
            then u / period == t / period && u % period == t % period + (u - t)
            else u / period == t / period + 1 && u % period == t % period + (u - t) - period
  {
    DivMod(t, period);
    if t % period + (u - t) < period {
      UniqueQuotient(t / period, t % period + (u - t), period);
    } else {
      assert (t / period + 1) * period == t / period * period + period;
      UniqueQuotient(t / period + 1, t % period + (u - t) - period, period);
    }
  }

  lemma TickOn(t: nat, period: nat)
    requires period > 0
    ensures Val(t + 1, period) == if Val(t, period) == 0 then period - 1 else Val(t, period) - 1
    ensures Base(t + 1, period) == if Val(t, period) == 0 then (Base(t, period) + 1) % WRAP else Base(t, period)
  {
    if period == 1 {
      assert t % 1 == 0 && (t + 1) % 1 == 0;
    } else {
      Later(t, t + 1, period);
    }
  }

  lemma Regroup(b: nat, y: nat, period: nat)
    ensures (b * MILLI + y) * period == b * period * MILLI + y * period
  {
  }

  lemma SplitAt(t: nat, period: nat, b: nat, r: nat, y: nat, z: nat)
    requires t == b * period + r && r * MILLI == y * period + z && z < period
    ensures t * MILLI / period == b * MILLI + y
  {
    Regroup(b, y, period);
    assert t * MILLI == (b * MILLI + y) * period + z;
    UniqueQuotient(b * MILLI + y, z, period);
  }

  lemma TimeSplit(t: nat, period: nat)
    requires period > 0
    ensures TimeAt(t, period) == t / period * MILLI + (t % period) * MILLI / period
  {
    DivMod(t, period);
    var (b, x) := (t / period, (t % period) * MILLI);
    DivMod(x, period);
    SplitAt(t, period, b, t % period, x / period, x % period);
  }

  /** The guess for a late first reading is right: the reading was late just if the tick register is high. */
  predicate Judged(t0: nat, t1: nat, t2: nat, period: nat)
    requires period > 0
  {
    t0 / period == t2 / period || (Val(t1, period) > period / 2 <==> t0 / period < t1 / period)
  }

  lemma Bases(b0: nat, b1: nat, b2: nat, high: bool)
    requires b0 <= b1 <= b2 <= b0 + 1
    ensures (if b2 % WRAP != b0 % WRAP && high then b0 % WRAP + 1 else b0 % WRAP) == b1
            <==> b0 < WRAP && (b0 == b2 || (high <==> b0 < b1))
  {
  }

  /**
  With at most one interrupt between the readings the result is exact if and only if the guess
  is right and the counter has not wrapped when it is first read.
  */
  lemma ExactWhen(t0: nat, t1: nat, t2: nat, period: nat)
    requires period > 0 && t0 / period <= t1 / period <= t2 / period <= t0 / period + 1
    ensures Combine(Base(t0, period), Val(t1, period), Base(t2, period), period) == TimeAt(t1, period)
            <==> t0 / period < WRAP && Judged(t0, t1, t2, period)
  {
    TimeSplit(t1, period);
    Bases(t0 / period, t1 / period, t2 / period, Val(t1, period) > period / 2);
  }

  /** In less than half a period the guess is right. */
  lemma ShortSpan(t0: nat, t1: nat, t2: nat, period: nat)
    requires t0 <= t1 <= t2 && 2 * (t2 - t0) < period
    ensures t0 / period <= t1 / period <= t2 / period <= t0 / period + 1 && Judged(t0, t1, t2, period)
  {
    Later(t0, t1, period);
    Later(t0, t2, period);
    Later(t1, t2, period);
  }

  lemma ExactInShortSpan(t0: nat, t1: nat, t2: nat, period: nat)
    requires period > 0 && t0 <= t1 <= t2
    ensures 2 * (t2 - t0) < period ==>
              (Combine(Base(t0, period), Val(t1, period), Base(t2, period), period) == TimeAt(t1, period)
               <==> t0 / period < WRAP)
  {
    if 2 * (t2 - t0) < period {
      ShortSpan(t0, t1, t2, period);
      ExactWhen(t0, t1, t2, period);
    }
  }

  /** Half a period, rounded up, can already be too long. */
  lemma HalfIsTooLong(period: nat)
    requires period > 2
    ensures var t := period - 1 + (period + 1) / 2;
      Combine(Base(period - 1, period), Val(t, period), Base(t, period), period) != TimeAt(t, period)
  {
    var t := period - 1 + (period + 1) / 2;
    UniqueQuotient(0, period - 1, period);
    Later(period - 1, t, period);
    ExactWhen(period - 1, t, t, period);
  }

  /** Exact times never go backwards. */
  lemma TimeMonotone(t: nat, u: nat, period: nat)
    requires period > 0 && t <= u
    ensures TimeAt(t, period) <= TimeAt(u, period)
  {
    QuotientMonotone(t * MILLI, u * MILLI, period);
  }

  // ---------------------------------------------------------------- the clock

  class Clock {
    const period: nat
    /** CPU ticks since the start */
    ghost var now: nat
    /** SysTick->VAL and _baseTimer */
    var val: nat
    var baseTimer: nat

    ghost predicate Valid()
      reads this
    {
      period > 0 && val == Val(now, period) && baseTimer == Base(now, period)
    }

    constructor (period: nat)
      requires period > 0
      ensures Valid() && now == 0 && this.period == period
    {
      this.period, now, val, baseTimer := period, 0, period - 1, 0;
    }

    /** One tick of the hardware; the interrupt follows a reload at once. */
    method Tick()
      requires Valid()
      modifies this
      ensures Valid() && now == old(now) + 1
    {
      TickOn(now, period);
      now := now + 1;
      if val == 0 {
        val := period - 1;
        DoUpdate();
      } else {
        val := val - 1;
      }
    }

    method DoUpdate()
      modifies this`baseTimer
      ensures baseTimer == (old(baseTimer) + 1) % WRAP
    {
      baseTimer := (baseTimer + 1) % WRAP;
    }

    /** Time passes. */
    method Elapse()
      requires Valid()
      modifies this
      ensures Valid() && now >= old(now)
    {
      var ticks: nat :| true;
      for i := 0 to ticks
        invariant Valid() && now == old(now) + i
      {
        Tick();
      }
    }

    method TickVal() returns (t: nat)
      requires Valid()
      ensures t == now % period
    {
      t := period - val - 1;
    }

    /** getTime_ns with any time passing between the readings, which happen at t0, t1 and t2. */
    method GetTimeNs() returns (ns: nat, ghost t0: nat, ghost t1: nat, ghost t2: nat)
      requires Valid()
      modifies this
      ensures Valid() && old(now) == t0 <= t1 <= t2 == now
      ensures ns == Combine(Base(t0, period), Val(t1, period), Base(t2, period), period)
      ensures 2 * (t2 - t0) < period ==> (ns == TimeAt(t1, period) <==> t0 / period < WRAP)
    {
      var base := baseTimer;
      t0 := now;
      Elapse();
      var tick := val;
      t1 := now;
      Elapse();
      var base1 := baseTimer;
      t2 := now;
      if base1 != base && tick > period / 2 {
        base := base + 1;
      }
      QuotientMonotone(0, (period - tick - 1) * MILLI, period);
      ns := base * MILLI + (period - tick - 1) * MILLI / period;
      ExactInShortSpan(t0, t1, t2, period);
    }

    /** Two calls in a row, below the wrap and each within half a period. */
    method ReadTwice() returns (first: nat, second: nat, ghost spans: (nat, nat), ghost last: nat)
      requires Valid()
      modifies this
      ensures Valid()
      ensures 2 * spans.0 < period && 2 * spans.1 < period && last / period < WRAP ==> first <= second
    {
      ghost var a0, a1, a2;
      first, a0, a1, a2 := GetTimeNs();
      Elapse();
      ghost var b0, b1, b2;
      second, b0, b1, b2 := GetTimeNs();
      spans, last := (a2 - a0, b2 - b0), b0;
      TimeMonotone(a1, b1, period);
      QuotientMonotone(a0, b0, period);
    }
  }

  // ---------------------------------------------------------------- millisecond timers

  /** isAbsoluteTimeUp: the signed difference, brought back into range. */
  function Elapsed(base: nat, start: nat): int
    requires base < WRAP && start < WRAP
  {
    if base < start then base - start + WRAP else base - start
  }

  /** The difference is the number of milliseconds since the start, across one wrap of the counter. */
  lemma ElapsedExact(start: nat, now: nat)
    requires start <= now
    ensures Elapsed(now % WRAP, start % WRAP) == now - start <==> now - start < WRAP
  {
  }
}
