/** The Go timestamp of package `api` (api/timestamp.go): package functions over
    `int64` millisecond counts and a value type `Timestamp{ms int64}` whose methods
    return fresh values. Go's `%` and `/` truncate toward zero like C++, but Go
    integer arithmetic wraps around on overflow instead of being undefined, so the
    model computes every sum and product with `Wrap64`. Go's `int` is 64 bits. */
module ApiTimestamp {
  import opened Ints
  import opened TimeUnits

  datatype Timestamp = Timestamp(ms: int64)

  /** Milliseconds elapsed since midnight: the truncating remainder, moved into
      `[0, day)` when it is negative. */
  function SinceZero(milliseconds: int64): (r: int64)
    ensures 0 <= r < MillisecondsPerDay
    ensures (milliseconds - r) % MillisecondsPerDay == 0
  {
    var elapsed := TMod(milliseconds, MillisecondsPerDay);
    TruncateToMultiple(milliseconds, MillisecondsPerDay);
    if elapsed < 0 then
      ModShift(milliseconds - elapsed, -1, MillisecondsPerDay);
      elapsed + MillisecondsPerDay
    else
      elapsed
  }

  /** Midnight of the day holding `milliseconds`, rounding down for negative counts
      too; the subtraction wraps only within one day of the most negative `int64`. */
  function ZeroHour(milliseconds: int64): (r: int64)
    ensures InInt64(milliseconds - SinceZero(milliseconds)) ==>
              r % MillisecondsPerDay == 0 && r <= milliseconds < r + MillisecondsPerDay
  {
    var elapsed := SinceZero(milliseconds);
    Wrap64(milliseconds - elapsed)
  }

  /** Once no wrap-around intervenes, `ZeroHour` is idempotent. */
  lemma {:induction false} ZeroHourIdempotent(milliseconds: int64)
    requires InInt64(milliseconds - SinceZero(milliseconds))
    ensures ZeroHour(ZeroHour(milliseconds)) == ZeroHour(milliseconds)
  {
    var z := ZeroHour(milliseconds);
    TModOfMultiple(z, MillisecondsPerDay);
    assert SinceZero(z) == 0;
  }

  /** At the most negative `int64` the subtraction in `ZeroHour` wraps around to a
      large positive count. */
  lemma {:induction false} ZeroHourWrapsAtMinimum()
    ensures SinceZero(INT64_MIN) == 60_424_192
    ensures ZeroHour(INT64_MIN) == 9_223_372_036_794_351_616
    ensures ZeroHour(INT64_MIN) > INT64_MIN
  {
    DivModUnique(-INT64_MIN, MillisecondsPerDay, 106_751_991_167, 25_975_808);
  }

  /** `ms - ms % day` with truncating `%`. */
  function StartOfDay(t: Timestamp): (r: Timestamp)
    ensures r.ms % MillisecondsPerDay == 0
    ensures t.ms >= 0 ==> 0 <= r.ms <= t.ms < r.ms + MillisecondsPerDay
    ensures t.ms < 0 ==> r.ms - MillisecondsPerDay < t.ms <= r.ms <= 0
  {
    TruncateToMultiple(t.ms, MillisecondsPerDay);
    Timestamp(t.ms - TMod(t.ms, MillisecondsPerDay))
  }

  /** `StartOfDay` and `ZeroHour` agree on non-negative counts and differ by a whole
      day on every negative count that is not a whole number of days. */
  lemma {:induction false} StartOfDayVersusZeroHour(t: Timestamp)
    ensures t.ms >= 0 ==> StartOfDay(t).ms == ZeroHour(t.ms)
    ensures t.ms < 0 && t.ms % MillisecondsPerDay != 0 && InInt64(t.ms - SinceZero(t.ms)) ==>
              StartOfDay(t).ms == ZeroHour(t.ms) + MillisecondsPerDay
  {
    var r := TMod(t.ms, MillisecondsPerDay);
    if t.ms < 0 && t.ms % MillisecondsPerDay != 0 && InInt64(t.ms - SinceZero(t.ms)) {
      if r == 0 {
        TruncateToMultiple(t.ms, MillisecondsPerDay);
        assert false;
      }
      assert SinceZero(t.ms) == r + MillisecondsPerDay;
      assert ZeroHour(t.ms) == t.ms - r - MillisecondsPerDay;
    }
  }

  /** The wrapped `ts += ...` chain of `Today` and `Offset`. Its result depends only
      on the exact total modulo 2^64. */
  function AddClock(base: int64, hour: int64, minute: int64, second: int64, millisecond: int64): (r: int64)
    ensures r == Wrap64(base + ClockMillis(hour, minute, second, millisecond))
  {
    var h := hour * MillisecondsPerHour;
    var m := minute * MillisecondsPerMinute;
    var s := second * MillisecondsPerSecond;
    var ts1 := Wrap64(base + Wrap64(h));
    WrapStep(base, base, h);
    var ts2 := Wrap64(ts1 + Wrap64(m));
    WrapStep(ts1, base + h, m);
    var ts3 := Wrap64(ts2 + Wrap64(s));
    WrapStep(ts2, base + h + m, s);
    WrapStep(ts3, base + h + m + s, millisecond);
    Wrap64(ts3 + millisecond)
  }

  /** Clock time h:m:s.x on the day of `t`. */
  function Today(t: Timestamp, hour: int64, minute: int64, second: int64, millisecond: int64): (r: Timestamp)
    ensures r.ms == Wrap64(StartOfDay(t).ms + ClockMillis(hour, minute, second, millisecond))
    ensures InInt64(StartOfDay(t).ms + ClockMillis(hour, minute, second, millisecond)) ==>
              r.ms - StartOfDay(t).ms == ClockMillis(hour, minute, second, millisecond)
  {
    Timestamp(AddClock(StartOfDay(t).ms, hour, minute, second, millisecond))
  }

  /** `Since` delegates to `Today`. */
  function Since(t: Timestamp, hour: int64, minute: int64, second: int64, millisecond: int64): (r: Timestamp)
    ensures r.ms == Wrap64(StartOfDay(t).ms + ClockMillis(hour, minute, second, millisecond))
  {
    Today(t, hour, minute, second, millisecond)
  }

  /** `t` moved by h hours, m minutes, s seconds and x milliseconds. */
  function Offset(t: Timestamp, hour: int64, minute: int64, second: int64, millisecond: int64): (r: Timestamp)
    ensures r.ms == Wrap64(t.ms + ClockMillis(hour, minute, second, millisecond))
    ensures InInt64(t.ms + ClockMillis(hour, minute, second, millisecond)) ==>
              r.ms - t.ms == ClockMillis(hour, minute, second, millisecond)
  {
    Timestamp(AddClock(t.ms, hour, minute, second, millisecond))
  }

  /** The pre-market time 09:00:00.000 of the day of `t`; it wraps only on the last,
      partial day before the largest `int64`. */
  function PreMarketTime(t: Timestamp): (r: Timestamp)
    ensures r == Since(t, PreMarketHour, PreMarketMinute, PreMarketSecond, 0)
    ensures InInt64(StartOfDay(t).ms + 9 * MillisecondsPerHour) ==>
              r.ms == StartOfDay(t).ms + 9 * MillisecondsPerHour
  {
    Since(t, PreMarketHour, PreMarketMinute, PreMarketSecond, 0)
  }

  /** The test case of the Go suite: an offset of 2h30m moves by exactly 9,000,000 ms
      whenever the sum stays in range. */
  lemma {:induction false} OffsetTwoHoursThirty(t: Timestamp)
    requires InInt64(t.ms + 9_000_000)
    ensures Offset(t, 2, 30, 0, 0).ms - t.ms == 2 * MillisecondsPerHour + 30 * MillisecondsPerMinute
  {
  }

  function Floor(t: Timestamp): (r: Timestamp)
    ensures r.ms % MillisecondsPerMinute == 0
    ensures t.ms >= 0 ==> 0 <= r.ms <= t.ms < r.ms + MillisecondsPerMinute
    ensures t.ms < 0 ==> r.ms - MillisecondsPerMinute < t.ms <= r.ms <= 0
  {
    TruncateToMultiple(t.ms, MillisecondsPerMinute);
    Timestamp(t.ms - TMod(t.ms, MillisecondsPerMinute))
  }

  /** `ts - ts % minute + 59999`, wrapping past the largest `int64`. */
  function Ceil(t: Timestamp): (r: Timestamp)
    ensures r.ms == Wrap64(Floor(t).ms + (MillisecondsPerMinute - 1))
    ensures InInt64(Floor(t).ms + (MillisecondsPerMinute - 1)) ==>
              r.ms - Floor(t).ms == MillisecondsPerMinute - 1
    ensures t.ms >= 0 && InInt64(Floor(t).ms + (MillisecondsPerMinute - 1)) ==> Floor(t).ms <= t.ms <= r.ms
  {
    Timestamp(Wrap64(t.ms - TMod(t.ms, MillisecondsPerMinute) + (MillisecondsPerMinute - 1)))
  }

  function IsEmpty(t: Timestamp): (r: bool)
    ensures r <==> t == Timestamp(0)
  {
    t.ms == 0
  }

  function IsSameDate(t: Timestamp, other: Timestamp): (r: bool)
    ensures r <==> TDiv(t.ms, MillisecondsPerDay) == TDiv(other.ms, MillisecondsPerDay)
  {
    var day1 := TDiv(t.ms, MillisecondsPerDay);
    var day2 := TDiv(other.ms, MillisecondsPerDay);
    day1 == day2
  }

  /** Same-date is an equivalence relation. */
  lemma {:induction false} IsSameDateIsEquivalence(a: Timestamp, b: Timestamp, c: Timestamp)
    ensures IsSameDate(a, a)
    ensures IsSameDate(a, b) <==> IsSameDate(b, a)
    ensures IsSameDate(a, b) && IsSameDate(b, c) ==> IsSameDate(a, c)
  {
  }

  function Equal(t: Timestamp, other: Timestamp): bool { t.ms == other.ms }
  function NotEqual(t: Timestamp, other: Timestamp): bool { t.ms != other.ms }
  function Less(t: Timestamp, other: Timestamp): bool { t.ms < other.ms }
  function Greater(t: Timestamp, other: Timestamp): bool { t.ms > other.ms }
  function LessOrEqual(t: Timestamp, other: Timestamp): bool { t.ms <= other.ms }
  function GreaterOrEqual(t: Timestamp, other: Timestamp): bool { t.ms >= other.ms }

  /** The comparison methods are the integer order on the millisecond count. */
  lemma {:induction false} ComparisonsMatchIntegerOrder(a: Timestamp, b: Timestamp)
    ensures Equal(a, b) <==> a == b
    ensures NotEqual(a, b) <==> a != b
    ensures Less(a, b) <==> a.ms < b.ms
    ensures Greater(a, b) <==> Less(b, a)
    ensures LessOrEqual(a, b) <==> !Greater(a, b)
    ensures GreaterOrEqual(a, b) <==> !Less(a, b)
  {
  }

  function AsTimestamp(t: Timestamp): int64 { t.ms }
  function FromTimestamp(ts: int64): Timestamp { Timestamp(ts) }

  /** Converting to the native `int64` and back is the identity, both ways round. */
  lemma {:induction false} AsFromTimestampRoundTrip(t: Timestamp, ts: int64)
    ensures FromTimestamp(AsTimestamp(t)) == t
    ensures AsTimestamp(FromTimestamp(ts)) == ts
  {
  }
}
