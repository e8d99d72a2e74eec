/** The wall clock: a reset time kept relative to the tick counter, and its normalised reading. */
module TimeOfDay {
  import opened Basics
  import opened Arithmetic

  const US: int := 1_000_000
  datatype TimeVal = TimeVal(sec: int, usec: int)

  datatype TimeZone = TimeZone(minutesWest: int, dstTime: int)

  predicate Normal(t: TimeVal) {
    0 <= t.sec && 0 <= t.usec < US
  }

  function Micros(t: TimeVal): int {
    t.sec * US + t.usec
  }

  /** Microseconds per tick, rounded down: 1000000/rate. */
  function TickMicros(rate: nat): nat
    requires 0 < rate
  {
    Quot(1_000_000, rate)
  }

  /** The whole seconds and the microseconds that n ticks count for. */
  function WholeSeconds(n: nat, rate: nat): nat
    requires 0 < rate
  {
    Quot(n, rate)
  }

  function SubSecond(n: nat, rate: nat): (u: nat)
    requires 0 < rate
    ensures u < US
  {
    Rem(n * TickMicros(rate), 1_000_000)
  }

  class Clock {
    var nticks: nat
    const rate: nat
    var resetTime: TimeVal
    var zone: TimeZone

    constructor (r: nat)
      ensures nticks == 0 && rate == r && resetTime == TimeVal(0, 0)
    {
      nticks, rate, resetTime, zone := 0, r, TimeVal(0, 0), TimeZone(0, 0);
    }

    /** `settimeofday` */
    method Set(t: TimeVal, tz: TimeZone) returns (rc: int, errno: int)
      modifies `resetTime, `zone
      ensures if rate == 0 then rc == -1 && errno == ENOSYS && unchanged(this)
              else rc == 0 && zone == tz
                   && resetTime == TimeVal(t.sec - WholeSeconds(nticks, rate), t.usec - SubSecond(nticks, rate))
    {
      errno := 0;
      if rate != 0 {
        resetTime := TimeVal(t.sec - nticks / rate, t.usec - (nticks * (1_000_000 / rate)) % 1_000_000);
        zone := tz;
        return 0, 0;
      }
      return -1, ENOSYS;
    }

    /** `gettimeofday`. `clamped` says that the reading was cut off at zero, and `down` and `up` how often the
        two normalisation loops ran. */
    method Get() returns (rc: int, t: TimeVal, tz: TimeZone, ghost clamped: bool, ghost down: nat, ghost up: nat)
      ensures rc == if rate == 0 then -ENOTSUP else 0
      ensures rc == 0 ==> tz == zone
      ensures rc == 0 ==>
                var raw := TimeVal(resetTime.sec + WholeSeconds(nticks, rate),
                                   resetTime.usec + SubSecond(nticks, rate));
                && 0 <= t.usec < US
                && (if clamped then t == TimeVal(0, 0) else Micros(t) == Micros(raw))
                && (clamped <==> raw.usec < 0 && Micros(raw) < 0)
                && (0 <= raw.usec < US ==> t == raw && down + up == 0)
                && (-US <= raw.usec < 2 * US ==> down + up <= 1)
    {
      t, tz, clamped, down, up := TimeVal(0, 0), zone, false, 0, 0;
      if rate == 0 {
        return -ENOTSUP, t, tz, false, 0, 0;
      }
      var sec := resetTime.sec + nticks / rate;
      var usec := resetTime.usec + (nticks * (1_000_000 / rate)) % 1_000_000;
      ghost var raw := TimeVal(sec, usec);
      while usec < 0
        invariant Micros(TimeVal(sec, usec)) == Micros(raw) && !clamped
        invariant usec == raw.usec + down * US && (down > 0 ==> usec < US && 0 <= sec)
        decreases -usec
      {
        if sec <= 0 {
          sec, usec := 0, 0;
          clamped := true;
          break;
        }
        sec, usec := sec - 1, usec + US;
        down := down + 1;
      }
      ghost var first := usec;
      assert clamped <==> raw.usec < 0 && Micros(raw) < 0;
      while usec >= US
        invariant 0 <= usec == first - up * US
        invariant if clamped then sec == 0 && usec == 0 else Micros(TimeVal(sec, usec)) == Micros(raw)
        decreases usec
      {
        sec, usec := sec + 1, usec - US;
        up := up + 1;
      }
      return 0, TimeVal(sec, usec), tz, clamped, down, up;
    }
  }

  /** The microseconds that a reading counts for n ticks. */
  function Elapsed(n: nat, rate: nat): nat
    requires 0 < rate
  {
    WholeSeconds(n, rate) * 1_000_000 + SubSecond(n, rate)
  }

  /** In plain arithmetic. */
  lemma ElapsedSpelled(n: nat, rate: nat)
    requires 0 < rate
    ensures Elapsed(n, rate) == n / rate * 1_000_000 + n * (1_000_000 / rate) % 1_000_000
    ensures TickMicros(rate) == 1_000_000 / rate
  {
  }

  /** A reading counts every tick as the same number of microseconds exactly when the rate divides a million. */
  lemma ElapsedIsLinear(n: nat, rate: nat)
    requires 0 < rate && rate * TickMicros(rate) == 1_000_000
    ensures Elapsed(n, rate) == n * TickMicros(rate)
  {
    hide Quot, Rem;
    var q := TickMicros(rate);
    var s, r := Quot(n, rate), Rem(n, rate);
    Split(n, rate);
    assert n * q == s * (rate * q) + r * q by {
      Associate(s, rate, q);
      assert (s * rate + r) * q == s * rate * q + r * q;
    }
    assert r * q < rate * q by {
      MulAtLeast(rate, r + 1, q);
      assert (r + 1) * q == r * q + q;
    }
    QuotRemOfSum(s, r * q, 1_000_000);
  }

  lemma ElapsedIsLinearOnlyIfRateDivides(rate: nat)
    requires 0 < rate
    ensures (forall n: nat :: Elapsed(n, rate) == n * TickMicros(rate)) <==> rate * TickMicros(rate) == 1_000_000
  {
    if rate * TickMicros(rate) == 1_000_000 {
      forall n: nat
        ensures Elapsed(n, rate) == n * TickMicros(rate)
      {
        ElapsedIsLinear(n, rate);
      }
    } else {
      hide Quot, Rem;
      var q := TickMicros(rate);
      Split(1_000_000, rate);
      assert q * rate == rate * q;
      QuotRemOfSum(1, 0, rate);
      QuotRemOfSum(0, rate * q, 1_000_000);
      assert Elapsed(rate, rate) != rate * q;
    }
  }

  // ------------------------------------------------------------------------- when a reading goes back

  /** A tick at which the microseconds have just passed a multiple of a million, but no second has: the reading
      drops. */
  lemma DropsAt(t: nat, rate: nat, j: nat, v: nat)
    requires 1 < rate && 0 < t && Rem(t, rate) != 0
    requires v < TickMicros(rate) < 1_000_000 && t * TickMicros(rate) == (j + 1) * 1_000_000 + v
    ensures Elapsed(t, rate) < Elapsed(t - 1, rate)
  {
    hide Quot, Rem, TickMicros;
    var q := TickMicros(rate);
    QuotRemOfSum(j + 1, v, 1_000_000);
    assert (t - 1) * q == j * 1_000_000 + (1_000_000 + v - q) by {
      assert t * q == (t - 1) * q + q;
    }
    QuotRemOfSum(j, 1_000_000 + v - q, 1_000_000);
    Split(t, rate);
    QuotRemOfSum(Quot(t, rate), Rem(t, rate) - 1, rate);
  }

  /** Multiples keep multiples: what is one less than a multiple of the rate is none. */
  lemma OneLess(c: nat, g: nat, rate: nat)
    requires 1 < rate && Rem(g, rate) == 0 && 0 < c * g
    ensures Rem(c * g - 1, rate) != 0
  {
    hide Quot, Rem;
    Split(g, rate);
    var m := c * Quot(g, rate);
    Associate(c, Quot(g, rate), rate);
    assert c * g == m * rate;
    assert 0 < m;
    assert m * rate - 1 == (m - 1) * rate + (rate - 1);
    QuotRemOfSum(m - 1, rate - 1, rate);
  }

  /** Rounding up. */
  lemma RoundedUp(a: nat, q: nat) returns (g: nat, s: nat)
    requires 0 < q && 0 < a
    ensures g * q == a + s && s < q && 0 < g
  {
    hide Quot, Rem;
    Split(a, q);
    if Rem(a, q) == 0 {
      g, s := Quot(a, q), 0;
    } else {
      g, s := Quot(a, q) + 1, q - Rem(a, q);
      assert g * q == Quot(a, q) * q + q;
    }
  }

  /** A rate of at most a million that does not divide it has a tick that reads earlier than the one before.
      The first g ticks make up a million, with s to spare. If g is no multiple of the rate, tick g is one; else
      the spare adds up to a whole tick after c times g ticks, and the tick before that is one. */
  lemma SomeReadingDrops(rate: nat) returns (t: nat)
    requires 0 < rate <= 1_000_000 && rate * TickMicros(rate) != 1_000_000
    ensures 0 < t && Elapsed(t, rate) < Elapsed(t - 1, rate)
  {
    hide Quot, Rem;
    var q := TickMicros(rate);
    Split(1_000_000, rate);
    AtMostQuot(1_000_000, rate, 1);
    assert q * rate == rate * q;
    assert rate != 1 && q < 1_000_000 by { TicksAreShort(rate, q); }
    var g, s := RoundedUp(1_000_000, q);
    t := g;
    if Rem(g, rate) != 0 {
      DropsAt(g, rate, 0, s);
    } else {
      assert s != 0 by {
        if s == 0 {
          MultiplesDivide(g, q, rate);
        }
      }
      var c, v := RoundedUp(q, s);
      assert 1 < c;
      t := c * g - 1;
      SpareAddsUp(c, g, q, s, v);
      OneLess(c, g, rate);
      DropsAt(t, rate, c - 1, v);
    }
  }

  lemma TicksAreShort(rate: nat, q: nat)
    requires 0 < rate && 0 < q && q * rate <= 1_000_000 && q * rate != 1_000_000 && q == TickMicros(rate)
    ensures rate != 1 && q < 1_000_000
  {
    if rate > 1 {
      MulAtLeast(rate, 2, q);
    }
  }

  /** If a million is g ticks of q, and g a multiple of the rate, then the rate divides it. */
  lemma MultiplesDivide(g: nat, q: nat, rate: nat)
    requires 0 < rate && 0 < q && g * q == 1_000_000 && Rem(g, rate) == 0 && q == TickMicros(rate)
    ensures rate * q == 1_000_000
  {
    hide Quot, Rem;
    var c := Quot(g, rate);
    Split(g, rate);
    Split(1_000_000, rate);
    assert g * q == (c * q) * rate by { assert (c * rate) * q == (c * q) * rate; }
    QuotRemOfSum(c * q, 0, rate);
    assert c * q == q;
    assert c == 1 by {
      if c > 1 {
        MulAtLeast(c, 2, q);
      }
    }
  }

  lemma SpareAddsUp(c: nat, g: nat, q: nat, s: nat, v: nat)
    requires 0 < c && 0 < g && g * q == 1_000_000 + s && c * s == q + v
    ensures (c * g - 1) * q == c * 1_000_000 + v
  {
    Associate(c, g, q);
    assert c * (1_000_000 + s) == c * 1_000_000 + c * s;
  }

  /** With a rate above a million only whole seconds count. */
  lemma FastTicksCountSeconds(n: nat, rate: nat)
    requires 1_000_000 < rate
    ensures Elapsed(n, rate) <= Elapsed(n + 1, rate)
  {
    hide Quot, Rem;
    AtMostQuot(1_000_000, rate, 1);
    QuotRemOfSum(0, 0, 1_000_000);
    Split(n, rate);
    AtMostQuot(n + 1, rate, Quot(n, rate));
  }

  /** The reading never goes back from one tick to the next exactly if the rate divides a million or exceeds
      it. */
  lemma ReadingNeverGoesBack(rate: nat)
    requires 0 < rate
    ensures (forall n: nat :: Elapsed(n, rate) <= Elapsed(n + 1, rate))
            <==> rate * TickMicros(rate) == 1_000_000 || 1_000_000 < rate
  {
    if rate * TickMicros(rate) == 1_000_000 || 1_000_000 < rate {
      forall n: nat
        ensures Elapsed(n, rate) <= Elapsed(n + 1, rate)
      {
        if 1_000_000 < rate {
          FastTicksCountSeconds(n, rate);
        } else {
          ElapsedIsLinear(n, rate);
          ElapsedIsLinear(n + 1, rate);
          MulAtLeast(n + 1, n, TickMicros(rate));
        }
      }
    } else {
      hide Elapsed;
      var t := SomeReadingDrops(rate);
      assert !(Elapsed(t - 1, rate) <= Elapsed(t - 1 + 1, rate));
    }
  }

  /** At 3 ticks a second a clock set to 0 reads 1.999999 s at tick 3 and 1.333332 s at tick 4. */
  method ReadingMayGoBack() returns (before: TimeVal, after: TimeVal)
    ensures before == TimeVal(1, 999_999) && after == TimeVal(1, 333_332)
    ensures Micros(after) < Micros(before)
  {
    var clock := new Clock(3);
    var rc, errno := clock.Set(TimeVal(0, 0), TimeZone(0, 0));
    var zone;
    ghost var clamped, down, up;
    clock.nticks := 3;
    rc, before, zone, clamped, down, up := clock.Get();
    clock.nticks := 4;
    rc, after, zone, clamped, down, up := clock.Get();
  }

  // ------------------------------------------------------------------------------ set, then read

  /** Setting the clock to t and reading it k ticks later, at any rate: t plus what those ticks count for, or zero
      if that is negative; exactly t if k = 0. For a rate that divides a million that is k whole ticks; then the
      reading is never cut off at zero, and at most one normalisation loop runs, once. */
  method SetThenGet(clock: Clock, t: TimeVal, tz: TimeZone, k: nat)
    returns (now: TimeVal, ghost clamped: bool, ghost turns: nat)
    requires 0 < clock.rate && Normal(t)
    modifies clock
    ensures var counted := Elapsed(old(clock.nticks) + k, clock.rate) - Elapsed(old(clock.nticks), clock.rate);
            && Normal(now) && (clamped <==> Micros(t) + counted < 0)
            && (if clamped then now == TimeVal(0, 0) else Micros(now) == Micros(t) + counted)
    ensures k == 0 ==> now == t && !clamped && turns == 0
    ensures clock.rate * TickMicros(clock.rate) == 1_000_000 ==>
              Micros(now) == Micros(t) + k * TickMicros(clock.rate) && !clamped && turns <= 1
  {
    hide WholeSeconds, SubSecond, TickMicros;
    ghost var rate, n0 := clock.rate, clock.nticks;
    var rc, errno := clock.Set(t, tz);
    clock.nticks := clock.nticks + k;
    ghost var down, up;
    var zone;
    rc, now, zone, clamped, down, up := clock.Get();
    turns := down + up;
    SecondsGrow(n0, k, rate);
    if rate * TickMicros(rate) == 1_000_000 {
      ElapsedSince(n0, k, rate);
    }
  }

  lemma SecondsGrow(n: nat, k: nat, rate: nat)
    requires 0 < rate
    ensures WholeSeconds(n, rate) <= WholeSeconds(n + k, rate)
  {
    hide Quot, Rem;
    Split(n, rate);
    AtMostQuot(n + k, rate, Quot(n, rate));
  }

  lemma ElapsedSince(n: nat, k: nat, rate: nat)
    requires 0 < rate && rate * TickMicros(rate) == 1_000_000
    ensures Elapsed(n + k, rate) - Elapsed(n, rate) == k * TickMicros(rate) >= 0
  {
    hide TickMicros, Elapsed;
    ElapsedIsLinear(n, rate);
    ElapsedIsLinear(n + k, rate);
    assert (n + k) * TickMicros(rate) == n * TickMicros(rate) + k * TickMicros(rate);
  }
}
