/** The millisecond timestamp of the `exchange` namespace (src/timestamp.cpp): a value
    type around one `int64_t` count of local milliseconds. Every operation returns a new
    timestamp computed from the count with C++ integer arithmetic: `%` and `/` truncate
    toward zero, and signed overflow is undefined, so the operations that add offsets
    require that no intermediate sum leaves the `int64_t` range. */
module ExchangeTimestamp {
  import opened Ints
  import opened TimeUnits

  datatype Timestamp = Timestamp(ms: int64)

  /** The `ts += ...` chain of today/since/offset stays within `int64_t` at every step. */
  predicate ClockFits(base: int, hour: int32, minute: int32, second: int32, millisecond: int32) {
    && InInt64(base + hour * MillisecondsPerHour)
    && InInt64(base + hour * MillisecondsPerHour + minute * MillisecondsPerMinute)
    && InInt64(base + hour * MillisecondsPerHour + minute * MillisecondsPerMinute
               + second * MillisecondsPerSecond)
    && InInt64(base + ClockMillis(hour, minute, second, millisecond))
  }

  /** The accumulation shared by today, since and offset: starting from `base`, add
      the hours, minutes, seconds and milliseconds one after the other. */
  function AddClock(base: int64, hour: int32, minute: int32, second: int32, millisecond: int32): (r: int64)
    requires ClockFits(base, hour, minute, second, millisecond)
    ensures r - base == ClockMillis(hour, minute, second, millisecond)
  {
    var ts1: int64 := base + hour * MillisecondsPerHour;
    var ts2: int64 := ts1 + minute * MillisecondsPerMinute;
    var ts3: int64 := ts2 + second * MillisecondsPerSecond;
    ts3 + millisecond
  }

  /** Midnight of the day holding `t`, computed as `ms - ms % day` with C++'s
      truncating `%`: for a negative count it rounds up toward zero. */
  function StartOfDay(t: Timestamp): (r: Timestamp)
    ensures r.ms % MillisecondsPerDay == 0
    ensures t.ms >= 0 ==> 0 <= r.ms <= t.ms < r.ms + MillisecondsPerDay
    ensures t.ms < 0 ==> r.ms - MillisecondsPerDay < t.ms <= r.ms <= 0
  {
    TruncateToMultiple(t.ms, MillisecondsPerDay);
    Timestamp(t.ms - TMod(t.ms, MillisecondsPerDay))
  }

  /** The clock time h:m:s.x on the day of `t`. */
  function Today(t: Timestamp, hour: int32, minute: int32, second: int32, millisecond: int32): (r: Timestamp)
    requires ClockFits(StartOfDay(t).ms, hour, minute, second, millisecond)
    ensures r.ms - StartOfDay(t).ms == ClockMillis(hour, minute, second, millisecond)
    ensures t.ms >= 0 && 0 <= ClockMillis(hour, minute, second, millisecond) < MillisecondsPerDay
            ==> IsSameDate(r, t) && StartOfDay(r) == StartOfDay(t)
  {
    var r := Timestamp(AddClock(StartOfDay(t).ms, hour, minute, second, millisecond));
    if t.ms >= 0 && 0 <= ClockMillis(hour, minute, second, millisecond) < MillisecondsPerDay then
      SameDayFromStart(t, r); r
    else
      r
  }

  /** `since` has the same body as `today`. */
  function Since(t: Timestamp, hour: int32, minute: int32, second: int32, millisecond: int32): (r: Timestamp)
    requires ClockFits(StartOfDay(t).ms, hour, minute, second, millisecond)
    ensures r.ms - StartOfDay(t).ms == ClockMillis(hour, minute, second, millisecond)
    ensures t.ms >= 0 && 0 <= ClockMillis(hour, minute, second, millisecond) < MillisecondsPerDay
            ==> IsSameDate(r, t) && StartOfDay(r) == StartOfDay(t)
  {
    var r := Timestamp(AddClock(StartOfDay(t).ms, hour, minute, second, millisecond));
    if t.ms >= 0 && 0 <= ClockMillis(hour, minute, second, millisecond) < MillisecondsPerDay then
      SameDayFromStart(t, r); r
    else
      r
  }

  /** `t` shifted by h hours, m minutes, s seconds and x milliseconds. */
  function Offset(t: Timestamp, hour: int32, minute: int32, second: int32, millisecond: int32): (r: Timestamp)
    requires ClockFits(t.ms, hour, minute, second, millisecond)
    ensures r.ms - t.ms == ClockMillis(hour, minute, second, millisecond)
  {
    Timestamp(AddClock(t.ms, hour, minute, second, millisecond))
  }

  /** The instance `pre_market_time()`: 09:00:00.000 on the day of `t`. */
  function PreMarketTime(t: Timestamp): (r: Timestamp)
    requires ClockFits(StartOfDay(t).ms, PreMarketHour, PreMarketMinute, PreMarketSecond, 0)
    ensures r == Since(t, PreMarketHour, PreMarketMinute, PreMarketSecond, 0)
    ensures r.ms == StartOfDay(t).ms + 9 * MillisecondsPerHour
    ensures t.ms >= 0 ==> IsSameDate(r, t)
  {
    Since(t, PreMarketHour, PreMarketMinute, PreMarketSecond, 0)
  }

  /** Second 0, millisecond 0 of the minute of `t` (toward zero for negative counts). */
  function Floor(t: Timestamp): (r: Timestamp)
    ensures r.ms % MillisecondsPerMinute == 0
    ensures t.ms >= 0 ==> 0 <= r.ms <= t.ms < r.ms + MillisecondsPerMinute
    ensures t.ms < 0 ==> r.ms - MillisecondsPerMinute < t.ms <= r.ms <= 0
  {
    TruncateToMultiple(t.ms, MillisecondsPerMinute);
    Timestamp(t.ms - TMod(t.ms, MillisecondsPerMinute))
  }

  /** Second 59, millisecond 999 of the minute of `t`. */
  function Ceil(t: Timestamp): (r: Timestamp)
    requires InInt64(Floor(t).ms + (MillisecondsPerMinute - 1))
    ensures r.ms - Floor(t).ms == MillisecondsPerMinute - 1
    ensures t.ms >= 0 ==> Floor(t).ms <= t.ms <= r.ms
  {
    TruncateToMultiple(t.ms, MillisecondsPerMinute);
    Timestamp(t.ms - TMod(t.ms, MillisecondsPerMinute) + (MillisecondsPerMinute - 1))
  }

  /** The zero timestamp is the empty one. */
  function Empty(t: Timestamp): (r: bool)
    ensures r <==> t == Timestamp(0)
  {
    t.ms == 0
  }

  /** Same date: equal truncated day numbers `ms / day`. */
  function IsSameDate(t: Timestamp, other: Timestamp): (r: bool)
    ensures r <==> TDiv(t.ms, MillisecondsPerDay) == TDiv(other.ms, MillisecondsPerDay)
  {
    var day1 := TDiv(t.ms, MillisecondsPerDay);
    var day2 := TDiv(other.ms, MillisecondsPerDay);
    day1 == day2
  }

  function Equal(t: Timestamp, rhs: Timestamp): bool { t.ms == rhs.ms }
  function NotEqual(t: Timestamp, rhs: Timestamp): bool { t.ms != rhs.ms }
  function Less(t: Timestamp, rhs: Timestamp): bool { t.ms < rhs.ms }
  function Greater(t: Timestamp, rhs: Timestamp): bool { t.ms > rhs.ms }
  function LessOrEqual(t: Timestamp, rhs: Timestamp): bool { t.ms <= rhs.ms }
  function GreaterOrEqual(t: Timestamp, rhs: Timestamp): bool { t.ms >= rhs.ms }

  /** A clock reading inside one day, added to midnight, stays on that day. */
  lemma {:induction false} SameDayFromStart(t: Timestamp, r: Timestamp)
    requires t.ms >= 0 && StartOfDay(t).ms <= r.ms < StartOfDay(t).ms + MillisecondsPerDay
    ensures IsSameDate(r, t) && StartOfDay(r) == StartOfDay(t)
  {
    var s := StartOfDay(t).ms;
    var k := s / MillisecondsPerDay;
    assert s == k * MillisecondsPerDay;
    DayNumber(t.ms, k);
    DayNumber(r.ms, k);
  }

  /** A non-negative count within day `k` has truncated day number `k`. */
  lemma {:induction false} DayNumber(x: int, k: int)
    requires k >= 0 && k * MillisecondsPerDay <= x < k * MillisecondsPerDay + MillisecondsPerDay
    ensures TDiv(x, MillisecondsPerDay) == k
    ensures x - TMod(x, MillisecondsPerDay) == k * MillisecondsPerDay
  {
    DivModUnique(x, MillisecondsPerDay, k, x - k * MillisecondsPerDay);
  }

  /** Same-date is an equivalence, and on non-negative counts it holds exactly when
      the two timestamps share their start of day. */
  lemma {:induction false} IsSameDateIsEquivalence(a: Timestamp, b: Timestamp, c: Timestamp)
    ensures IsSameDate(a, a)
    ensures IsSameDate(a, b) <==> IsSameDate(b, a)
    ensures IsSameDate(a, b) && IsSameDate(b, c) ==> IsSameDate(a, c)
    ensures a.ms >= 0 && b.ms >= 0 ==> (IsSameDate(a, b) <==> StartOfDay(a) == StartOfDay(b))
  {
    if a.ms >= 0 && b.ms >= 0 {
      DayNumber(a.ms, TDiv(a.ms, MillisecondsPerDay));
      DayNumber(b.ms, TDiv(b.ms, MillisecondsPerDay));
      if StartOfDay(a) == StartOfDay(b) {
        MulCancel(TDiv(a.ms, MillisecondsPerDay), TDiv(b.ms, MillisecondsPerDay), MillisecondsPerDay);
      }
    }
  }

  lemma {:induction false} MulCancel(x: int, y: int, m: int)
    requires m > 0 && x * m == y * m
    ensures x == y
  {
    DivModUnique(x * m, m, x, 0);
    DivModUnique(y * m, m, y, 0);
  }

  /** The six comparison operators are the integer order on the millisecond count:
      `==` is equality of timestamps and exactly one of `<`, `==`, `>` holds. */
  lemma {:induction false} ComparisonsAreTotalOrder(a: Timestamp, b: Timestamp)
    ensures Equal(a, b) <==> a == b
    ensures NotEqual(a, b) <==> !Equal(a, b)
    ensures LessOrEqual(a, b) <==> Less(a, b) || Equal(a, b)
    ensures GreaterOrEqual(a, b) <==> LessOrEqual(b, a)
    ensures Greater(a, b) <==> Less(b, a)
    ensures (Less(a, b) && !Equal(a, b) && !Greater(a, b)) || (!Less(a, b) && Equal(a, b) && !Greater(a, b))
            || (!Less(a, b) && !Equal(a, b) && Greater(a, b))
  {
  }

  /** Floor and ceil bracket a non-negative timestamp within its minute. */
  lemma {:induction false} FloorCeilBracket(t: Timestamp)
    requires t.ms >= 0 && InInt64(Floor(t).ms + (MillisecondsPerMinute - 1))
    ensures Floor(t).ms <= t.ms <= Ceil(t).ms
    ensures Ceil(t).ms - Floor(t).ms == 59_999
    ensures Floor(Ceil(t)) == Floor(t)
  {
    var f := Floor(t).ms;
    var k := f / MillisecondsPerMinute;
    assert f == k * MillisecondsPerMinute;
    DivModUnique(Ceil(t).ms, MillisecondsPerMinute, k, MillisecondsPerMinute - 1);
  }
}
