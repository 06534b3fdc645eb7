/**
 * Timer arithmetic: os_request_timer and os_query_time (osm/linux/os_linux.c) against the
 * comparison macro hpt_time_after (inc/ldm.h), when jiffies and its products wrap around.
 * Times carry a J suffix when they count jiffies since boot without wrapping.
 */
module Timers {
  import opened Words

  /** The width of unsigned long, which jiffies, expires and HPT_TIME have. */
  datatype Width = Bits32 | Bits64

  function Modulus(w: Width): nat { if w == Bits32 then TWO32 else TWO64 }

  /** 1000000 / HZ: the whole microseconds in a jiffy; hz of them make a second, but for the rest. */
  function Tick(hz: nat): (t: nat)
    requires 0 < hz <= 1_000_000
    ensures t > 0
    ensures hz * t <= 1_000_000 < hz * (t + 1)
    ensures Divides(hz) ==> hz * t == 1_000_000
  {
    QuotientBounds(1_000_000, hz);
    1_000_000 / hz
  }

  /** A jiffy is a whole number of microseconds. */
  predicate Divides(hz: nat) { 0 < hz <= 1_000_000 && 1_000_000 % hz == 0 }

  lemma QuotientBounds(n: nat, d: nat)
    requires 0 < d <= n
    ensures n / d > 0
    ensures d * (n / d) <= n < d * (n / d + 1)
    ensures n % d == 0 ==> d * (n / d) == n
  {
    assert n == n / d * d + n % d;
    assert (n / d + 1) * d == n / d * d + d;
    MulCancelLess(1, n / d + 1, d);
  }

  /** The microseconds that these jiffies last. */
  function Microseconds(hz: nat, jiffies: nat): nat
    requires hz > 0
  {
    jiffies * 1_000_000 / hz
  }

  lemma WholeMicroseconds(hz: nat, jiffies: nat)
    requires Divides(hz)
    ensures Microseconds(hz, jiffies) == jiffies * Tick(hz)
  {
    var t := Tick(hz);
    assert jiffies * 1_000_000 == jiffies * t * hz by {
      assert jiffies * (t * hz) == jiffies * t * hz;
    }
    hide Tick;
    DivModUnique(jiffies * 1_000_000, hz, jiffies * t, 0);
  }

  /** A value as unsigned long. */
  function Wrap(w: Width, x: int): nat { x % Modulus(w) }

  /** os_query_time, as a function of the wrapped jiffies. */
  function QueryTime(w: Width, hz: nat, jiffies: nat): nat
    requires 0 < hz <= 1_000_000
  {
    Wrap(w, jiffies * Tick(hz))
  }

  /** hpt_time_after: the difference of the two casts to int is positive. */
  predicate TimeAfter(a: int, b: int)
  {
    0 < Low32(a - b) < TWO31
  }

  /** The kernel's time_after_eq on two unsigned longs. */
  predicate Reached(w: Width, jiffies: int, expires: int)
  {
    Wrap(w, jiffies - expires) < Modulus(w) / 2
  }

  /** A timer with this expiry, set at startJ, is due exactly when more than `delay` jiffies have gone. */
  ghost predicate DueExactlyAfter(w: Width, expires: int, startJ: nat, delay: nat)
  {
    forall nowJ: nat {:trigger Wrap(w, nowJ)} ::
      startJ <= nowJ < startJ + Modulus(w) / 2 ==>
        (Reached(w, Wrap(w, nowJ), expires) <==> nowJ - startJ > delay)
  }

  /** A timer with this expiry, set at startJ, is due exactly when more than the interval has passed. */
  ghost predicate DueAfterInterval(w: Width, hz: nat, expires: int, startJ: nat, interval: nat)
    requires hz > 0
  {
    forall nowJ: nat {:trigger Wrap(w, nowJ)} ::
      startJ <= nowJ < startJ + Modulus(w) / 2 ==>
        (Reached(w, Wrap(w, nowJ), expires) <==> Microseconds(hz, nowJ - startJ) > interval)
  }

  lemma DelayIsInterval(w: Width, hz: nat, expires: int, startJ: nat, interval: nat)
    requires Divides(hz) && DueExactlyAfter(w, expires, startJ, interval / Tick(hz))
    ensures DueAfterInterval(w, hz, expires, startJ, interval)
  {
    hide Tick, Wrap, Modulus, Reached, Microseconds;
    forall nowJ: nat | startJ <= nowJ < startJ + Modulus(w) / 2
      ensures Reached(w, Wrap(w, nowJ), expires) <==> Microseconds(hz, nowJ - startJ) > interval
    {
      WholeMicroseconds(hz, nowJ - startJ);
      ExceedsIff(interval, Tick(hz), nowJ - startJ);
    }
  }

  lemma ExceedsIff(interval: nat, tick: nat, jiffies: nat)
    requires tick > 0
    ensures jiffies > interval / tick <==> jiffies * tick > interval
  {
    QuotientNonNegative(interval, tick);
    if jiffies > interval / tick {
      MulMono(interval / tick + 1, jiffies, tick);
    } else {
      MulMono(jiffies, interval / tick, tick);
      assert interval == interval / tick * tick + interval % tick;
    }
  }

  /** The timer_list of a vbus. */
  class VbusTimer {
    const width: Width
    const hz: nat
    var armed: bool
    var expires: nat

    constructor (width: Width, hz: nat)
      ensures this.width == width && this.hz == hz && !armed
    {
      this.width, this.hz := width, hz;
      armed, expires := false, 0;
    }

    /** os_request_timer; an earlier request of the vbus is dropped. */
    method RequestTimer(jiffies: nat, interval: Word32, ghost startJ: nat)
      requires 0 < hz <= 1_000_000 && jiffies == Wrap(width, startJ)
      requires interval / Tick(hz) < Modulus(width) / 2
      modifies this
      ensures armed && DueExactlyAfter(width, expires, startJ, interval / Tick(hz))
      ensures Divides(hz) ==> DueAfterInterval(width, hz, expires, startJ, interval)
    {
      hide Wrap, Tick, Modulus, Reached;
      armed := false;
      QuotientNonNegative(interval, Tick(hz));
      expires := Wrap(width, jiffies + 1 + interval / Tick(hz));
      armed := true;
      forall nowJ: nat | startJ <= nowJ < startJ + Modulus(width) / 2
        ensures Reached(width, Wrap(width, nowJ), expires) <==> nowJ - startJ > interval / Tick(hz)
      {
        ReachedIffElapsed(width, startJ, nowJ, interval / Tick(hz));
      }
      if Divides(hz) {
        DelayIsInterval(width, hz, expires, startJ, interval);
      }
    }
  }

  lemma QuotientNonNegative(n: nat, d: nat)
    requires d > 0
    ensures n / d >= 0 && n < (n / d + 1) * d
  {
    assert n == n / d * d + n % d;
    assert (n / d + 1) * d == n / d * d + d;
    MulCancelLess(0, n / d + 1, d);
  }

  lemma WrapSub(w: Width, x: int, y: int)
    ensures Wrap(w, Wrap(w, x) - y) == Wrap(w, x - y)
    ensures Wrap(w, x - Wrap(w, y)) == Wrap(w, x - y)
  {
    var m := Modulus(w);
    ModAddMultiple(x % m - y, x / m, m);
    assert x == x / m * m + x % m;
    ModAddMultiple(x - y, y / m, m);
    assert y == y / m * m + y % m;
    assert x - y + y / m * m == x - y % m;
    assert x % m - y + x / m * m == x - y;
  }

  lemma WrapMul(w: Width, x: int, k: int)
    ensures Wrap(w, Wrap(w, x) * k) == Wrap(w, x * k)
  {
    var m := Modulus(w);
    assert x == x / m * m + x % m;
    assert x % m * k + x / m * k * m == x * k;
    ModAddMultiple(x % m * k, x / m * k, m);
  }

  lemma LowOfWrap(w: Width, x: int)
    ensures Low32(Wrap(w, x)) == Low32(x)
  {
    if w == Bits64 {
      ModAddMultiple(x % TWO64, x / TWO64 * TWO32, TWO32);
      assert x == x % TWO64 + x / TWO64 * TWO32 * TWO32;
    }
  }

  lemma LowOfDifference(w: Width, a: int, b: int)
    ensures Low32(Wrap(w, a) - Wrap(w, b)) == Low32(a - b)
  {
    hide Wrap, Low32;
    LowOfWrap(w, Wrap(w, a) - Wrap(w, b));
    LowOfWrap(w, a - b);
    WrapSub(w, a, Wrap(w, b));
    WrapSub(w, a, b);
  }

  /** Modulo 2^w, a difference of less than half a period is recognised as ahead or behind. */
  lemma HalfPeriod(w: Width, d: int)
    requires -(Modulus(w) as int) <= 2 * d < Modulus(w)
    ensures Wrap(w, d) < Modulus(w) / 2 <==> d >= 0
  {
    if d < 0 {
      DivModUnique(d, Modulus(w), -1, d + Modulus(w));
    } else {
      DivModUnique(d, Modulus(w), 0, d);
    }
  }

  lemma ReachedIffElapsed(w: Width, startJ: nat, nowJ: nat, delay: nat)
    requires startJ <= nowJ < startJ + Modulus(w) / 2 && delay < Modulus(w) / 2
    ensures Reached(w, Wrap(w, nowJ), Wrap(w, Wrap(w, startJ) + 1 + delay)) <==> nowJ - startJ > delay
  {
    hide Wrap;
    var due := startJ + 1 + delay;
    WrapSub(w, startJ, -1 - delay);
    assert startJ - (-1 - delay) == due;
    WrapSub(w, nowJ, Wrap(w, due));
    WrapSub(w, nowJ, due);
    HalfPeriod(w, nowJ - due);
  }

  /** The wrapped readings compare like the true elapsed time, modulo 32 bits. */
  lemma AfterIffElapsed(w: Width, hz: nat, startJ: nat, nowJ: nat, interval: Word32)
    requires 0 < hz <= 1_000_000
    ensures TimeAfter(QueryTime(w, hz, Wrap(w, nowJ)), Wrap(w, QueryTime(w, hz, Wrap(w, startJ)) + interval))
            <==> 0 < Low32((nowJ - startJ) * Tick(hz) - interval) < TWO31
  {
    hide Wrap, Low32, Tick;
    var a, b := nowJ * Tick(hz), startJ * Tick(hz);
    WrapMul(w, startJ, Tick(hz));
    WrapMul(w, nowJ, Tick(hz));
    var i: int := interval;
    WrapSub(w, b, -i);
    LowOfDifference(w, a, b + interval);
    Distribute(nowJ, startJ, Tick(hz));
    assert b - (-i) == b + interval;
    assert a - (b + interval) == (nowJ - startJ) * Tick(hz) - interval;
  }

  lemma Distribute(x: int, y: int, k: int)
    ensures (x - y) * k == x * k - y * k
  {
  }

  /** os_query_time tells the microseconds since boot, modulo the width of unsigned long. */
  lemma ClockTellsMicroseconds(w: Width, hz: nat, nowJ: nat)
    requires Divides(hz)
    ensures QueryTime(w, hz, Wrap(w, nowJ)) == Wrap(w, Microseconds(hz, nowJ))
  {
    hide Tick, Wrap, Microseconds;
    WholeMicroseconds(hz, nowJ);
    WrapMul(w, nowJ, Tick(hz));
  }

  /**
   * When the requested timer has fired, more than the interval has passed on the driver's clock,
   * whatever wrapped in between. hpt_time_after says so if and only if the lateness in clock
   * microseconds, modulo 2^32, is neither zero nor 2^31 or more.
   */
  lemma FiredTimerInTicks(w: Width, hz: nat, expires: int, startJ: nat, nowJ: nat, interval: Word32)
    requires 0 < hz <= 1_000_000 && DueExactlyAfter(w, expires, startJ, interval / Tick(hz))
    requires startJ <= nowJ < startJ + Modulus(w) / 2 && Reached(w, Wrap(w, nowJ), expires)
    ensures var late := (nowJ - startJ) * Tick(hz) - interval;
            && late > 0
            && (TimeAfter(QueryTime(w, hz, Wrap(w, nowJ)), Wrap(w, QueryTime(w, hz, Wrap(w, startJ)) + interval))
                <==> 0 < late % TWO32 < TWO31)
            && (late < TWO32 ==>
                  (TimeAfter(QueryTime(w, hz, Wrap(w, nowJ)), Wrap(w, QueryTime(w, hz, Wrap(w, startJ)) + interval))
                   <==> late < TWO31))
  {
    hide Tick, Wrap, TimeAfter, QueryTime, Reached, Modulus;
    AfterIffElapsed(w, hz, startJ, nowJ, interval);
    ExceedsIff(interval, Tick(hz), nowJ - startJ);
  }

  /** The same in true time, wherever a jiffy is a whole number of microseconds. */
  lemma FiredTimerIsAfter(w: Width, hz: nat, expires: int, startJ: nat, nowJ: nat, interval: Word32)
    requires Divides(hz) && DueExactlyAfter(w, expires, startJ, interval / Tick(hz))
    requires startJ <= nowJ < startJ + Modulus(w) / 2 && Reached(w, Wrap(w, nowJ), expires)
    ensures var late := Microseconds(hz, nowJ - startJ) - interval;
            && late > 0
            && (TimeAfter(QueryTime(w, hz, Wrap(w, nowJ)), Wrap(w, QueryTime(w, hz, Wrap(w, startJ)) + interval))
                <==> 0 < late % TWO32 < TWO31)
  {
    hide Tick, Wrap, TimeAfter, QueryTime, Reached, Modulus, DueExactlyAfter, Microseconds;
    FiredTimerInTicks(w, hz, expires, startJ, nowJ, interval);
    WholeMicroseconds(hz, nowJ - startJ);
  }

  /** So it does for every lateness below 2^31 microseconds, the first time it errs being 2^31. */
  lemma FreshTimerIsAfter(w: Width, hz: nat, expires: int, startJ: nat, nowJ: nat, interval: Word32)
    requires Divides(hz) && DueExactlyAfter(w, expires, startJ, interval / Tick(hz))
    requires startJ <= nowJ < startJ + Modulus(w) / 2 && Reached(w, Wrap(w, nowJ), expires)
    requires Microseconds(hz, nowJ - startJ) - interval < TWO32
    ensures TimeAfter(QueryTime(w, hz, Wrap(w, nowJ)), Wrap(w, QueryTime(w, hz, Wrap(w, startJ)) + interval))
            <==> Microseconds(hz, nowJ - startJ) - interval < TWO31
  {
    hide Tick, Wrap, TimeAfter, QueryTime, Reached, Modulus, DueExactlyAfter, Microseconds;
    FiredTimerIsAfter(w, hz, expires, startJ, nowJ, interval);
  }

  /** Two instances at HZ 1000: a timer late by just over 2^31, which is missed, and one by just over 2^32. */
  lemma LateTimers()
    ensures !TimeAfter(QueryTime(Bits64, 1000, 2147485), QueryTime(Bits64, 1000, 0) + 1000)
    ensures TimeAfter(QueryTime(Bits64, 1000, 4294969), QueryTime(Bits64, 1000, 0) + 1000)
  {
  }
}
