/** Timestamps: `std::chrono::round` to a precision, counted in nanoseconds again. */
module Rounding {
  import opened Arith

  const INT64_MIN := -0x8000_0000_0000_0000
  const INT64_MAX := 0x7fff_ffff_ffff_ffff

  predicate IsInt64(x: int) {
    INT64_MIN <= x <= INT64_MAX
  }

  datatype Precision = Nanosecond | Microsecond | Millisecond | Second | Minute | Hour

  /** Nanoseconds per tick. */
  function Unit(precision: Precision): (unit: int)
    ensures unit > 0
  {
    match precision
    case Nanosecond => 1
    case Microsecond => 1_000
    case Millisecond => 1_000_000
    case Second => 1_000_000_000
    case Minute => 60_000_000_000
    case Hour => 3_600_000_000_000
  }

  /** The two ticks around `t` are `floor` and the next; the nearer wins, and a tie goes to the even one. */
  function RoundTicks(t: int, unit: int): int
    requires unit > 0
  {
    var t0 := t / unit;
    var t1 := t0 + 1;
    var diff0, diff1 := t - t0 * unit, t1 * unit - t;
    if diff0 == diff1 then (if t0 % 2 == 1 then t1 else t0)
    else if diff0 < diff1 then t0 else t1
  }

  function Round(t: int, unit: int): int
    requires unit > 0
  {
    RoundTicks(t, unit) * unit
  }

  /** What `AppendTimestamp` prints, unless it is zero. */
  function Count(t: int, precision: Precision): int {
    if precision.Nanosecond? then t else Round(t, Unit(precision))
  }

  /** `n` ticks are the nearest to `t`, and on a tie `n` is even. */
  predicate IsNearest(n: int, t: int, unit: int) {
    && -unit <= 2 * (n * unit - t) <= unit
    && (2 * (n * unit - t) == unit || 2 * (n * unit - t) == -unit ==> n % 2 == 0)
  }

  lemma FloorBounds(t: int, unit: int)
    requires unit > 0
    ensures (t / unit) * unit <= t < (t / unit + 1) * unit == (t / unit) * unit + unit
  {
  }

  /** There is exactly one nearest number of ticks, and `RoundTicks` finds it. */
  lemma RoundIsNearest(t: int, unit: int, n: int)
    requires unit > 0
    ensures IsNearest(n, t, unit) <==> n == RoundTicks(t, unit)
  {
    var t0 := t / unit;
    FloorBounds(t, unit);
    if n <= t0 - 1 {
      MulMono(n, t0 - 1, unit);
      assert (t0 - 1) * unit == t0 * unit - unit;
      if n <= t0 - 2 {
        MulMono(n, t0 - 2, unit);
        assert (t0 - 2) * unit == t0 * unit - 2 * unit;
      }
    } else if n >= t0 + 2 {
      MulMono(t0 + 2, n, unit);
      assert (t0 + 2) * unit == t0 * unit + 2 * unit;
    }
  }

  lemma TicksApart(n: int, m: int, unit: int)
    requires unit > 0 && n < m
    ensures m * unit >= n * unit + unit
    ensures m >= n + 2 ==> m * unit >= n * unit + 2 * unit
  {
    MulMono(1, m - n, unit);
    assert (m - n) * unit == m * unit - n * unit;
    if m >= n + 2 { MulMono(2, m - n, unit); }
  }

  lemma RoundMonotone(s: int, t: int, unit: int)
    requires unit > 0 && s <= t
    ensures Round(s, unit) <= Round(t, unit)
  {
    var m, n := RoundTicks(s, unit), RoundTicks(t, unit);
    RoundIsNearest(s, unit, m);
    RoundIsNearest(t, unit, n);
    // in the wrong order both would sit on one tie, one tick apart, and both be even
    if m > n { TicksApart(n, m, unit); } else { MulMono(m, n, unit); }
  }

  lemma RoundIdempotent(t: int, unit: int)
    requires unit > 0
    ensures Round(Round(t, unit), unit) == Round(t, unit)
  {
    var n := RoundTicks(t, unit);
    RoundIsNearest(n * unit, unit, n);
  }

  /** How many of the next finer unit make one: the standard's ratios of durations. */
  lemma UnitsNest()
    ensures Unit(Nanosecond) == 1 && Unit(Microsecond) == 1000 * Unit(Nanosecond)
    ensures Unit(Millisecond) == 1000 * Unit(Microsecond) && Unit(Second) == 1000 * Unit(Millisecond)
    ensures Unit(Minute) == 60 * Unit(Second) && Unit(Hour) == 60 * Unit(Minute)
  {
  }

  /** What is printed is the multiple of the unit that is nearest to the time, an even multiple on a tie. */
  lemma CountIsNearest(t: int, precision: Precision, n: int)
    ensures Count(t, Nanosecond) == t
    ensures precision != Nanosecond ==>
              (Count(t, precision) == n * Unit(precision) <==> IsNearest(n, t, Unit(precision)))
  {
    var unit := Unit(precision);
    var m := RoundTicks(t, unit);
    RoundIsNearest(t, unit, n);
    if m < n { TicksApart(m, n, unit); } else if n < m { TicksApart(n, m, unit); }
  }

  lemma CountMonotone(s: int, t: int, precision: Precision)
    requires s <= t
    ensures Count(s, precision) <= Count(t, precision)
  {
    RoundMonotone(s, t, Unit(precision));
  }

  lemma CountIdempotent(t: int, precision: Precision)
    ensures Count(Count(t, precision), precision) == Count(t, precision)
  {
    RoundIdempotent(t, Unit(precision));
  }

  /** The count is zero exactly when the time is within half a tick of zero, ties included. */
  lemma OmittedIff(t: int, precision: Precision)
    ensures Count(t, precision) == 0 <==> -Unit(precision) <= 2 * t <= Unit(precision)
  {
    var unit := Unit(precision);
    RoundIsNearest(t, unit, 0);
    var n := RoundTicks(t, unit);
    if n >= 1 { MulMono(1, n, unit); } else if n <= -1 { MulMono(n, -1, unit); }
  }

  /** The unit tests' time of 1h 2min 3s 4ms 5us 6ns at every precision. */
  lemma UnitTestTimes()
    ensures var t := 3_723_004_005_006;
            && Count(t, Nanosecond) == t
            && Count(t, Microsecond) == 3_723_004_005_000
            && Count(t, Millisecond) == 3_723_004_000_000
            && Count(t, Second) == 3_723_000_000_000
            && Count(t, Minute) == 3_720_000_000_000
            && Count(t, Hour) == 3_600_000_000_000
  {
  }

  // ------------------------------------------------------------------ overflow

  /** Every number the rounding forms fits into 64 bits. */
  predicate Representable(t: int, unit: int)
    requires unit > 0
  {
    var t0 := t / unit;
    && IsInt64(t) && IsInt64(t0 * unit) && IsInt64((t0 + 1) * unit)
    && IsInt64(t - t0 * unit) && IsInt64((t0 + 1) * unit - t)
    && IsInt64(Round(t, unit))
  }

  /** Exactly the times from the first whole tick up to, not including, the last one are safe. */
  lemma RepresentableIff(t: int, unit: int)
    requires unit > 0 && IsInt64(t) && unit <= INT64_MAX
    ensures Representable(t, unit) <==>
              -(-INT64_MIN / unit) * unit <= t < (INT64_MAX / unit) * unit
  {
    var t0, low, high := t / unit, -(-INT64_MIN / unit), INT64_MAX / unit;
    FloorBounds(t, unit);
    FloorBounds(-INT64_MIN, unit);
    FloorBounds(INT64_MAX, unit);
    assert low * unit == -((-INT64_MIN / unit) * unit);
    if low * unit <= t {
      if t0 < low { MulMono(t0 + 1, low, unit); }
      MulMono(low, t0, unit);
    } else {
      if t0 >= low { MulMono(low, t0, unit); }
      MulMono(t0, low - 1, unit);
      assert (low - 1) * unit == low * unit - unit;
    }
    if t < high * unit {
      if t0 >= high { MulMono(high, t0, unit); }
      MulMono(t0 + 1, high, unit);
    } else {
      if t0 < high { MulMono(t0 + 1, high, unit); }
      MulMono(high + 1, t0 + 1, unit);
      assert (high + 1) * unit == high * unit + unit;
    }
  }

  /** In particular no time a whole tick inside the range overflows. */
  lemma RepresentableInside(t: int, unit: int)
    requires 0 < unit <= 0x7fff_ffff_ffff_ffff
    requires -0x8000_0000_0000_0000 + unit <= t <= 0x7fff_ffff_ffff_ffff - unit
    ensures Representable(t, unit)
  {
    RepresentableIff(t, unit);
    FloorBounds(-INT64_MIN, unit);
    FloorBounds(INT64_MAX, unit);
    assert -(-INT64_MIN / unit) * unit == -((-INT64_MIN / unit) * unit);
  }
}
