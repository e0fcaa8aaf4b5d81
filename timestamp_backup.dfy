/** The alternative implementation of `exchange::timestamp` in src/timestamp_backup.cpp.
    It keeps the same value type as src/timestamp.cpp (one `int64_t` millisecond
    count) and the same `empty` and comparison operators, but floors and ceils to whole
    seconds, adds an offset in one sum, parses by checking separator positions, and
    renders the zero timestamp as fixed strings. The calendar conversions (`mktime`,
    `localtime`) are not modelled: the broken-down local time a rendering prints is a
    parameter, and parsing yields the digit fields it would hand to `std::stoi`. */
module BackupTimestamp {
  import opened Ints
  import opened TimeUnits
  import opened Wrappers
  import E = ExchangeTimestamp

  type Timestamp = E.Timestamp

  /** Whole seconds toward zero: `(ms / 1000) * 1000`. */
  function Floor(t: Timestamp): (r: Timestamp)
    ensures r.ms % MillisecondsPerSecond == 0
    ensures t.ms >= 0 ==> 0 <= r.ms <= t.ms < r.ms + MillisecondsPerSecond
    ensures t.ms < 0 ==> r.ms - MillisecondsPerSecond < t.ms <= r.ms <= 0
  {
    var q := TDiv(t.ms, MillisecondsPerSecond);
    ModShift(0, q, MillisecondsPerSecond);
    E.Timestamp(q * MillisecondsPerSecond)
  }

  /** `((ms + 999) / 1000) * 1000`; the addition must not overflow. */
  function Ceil(t: Timestamp): (r: Timestamp)
    requires t.ms + 999 <= INT64_MAX
    ensures r.ms % MillisecondsPerSecond == 0
    ensures t.ms >= 0 ==> t.ms <= r.ms < t.ms + MillisecondsPerSecond
  {
    var q := TDiv(t.ms + 999, MillisecondsPerSecond);
    ModShift(0, q, MillisecondsPerSecond);
    E.Timestamp(q * MillisecondsPerSecond)
  }

  /** On a negative count the truncating division makes `Ceil` jump past the next
      whole second: -1000 is already whole, yet it is moved to 0. */
  lemma {:induction false} CeilOvershootsNegative()
    ensures Ceil(E.Timestamp(-1000)).ms == 0
    ensures Ceil(E.Timestamp(-1500)).ms == 0
  {
  }

  /** Rounding up to whole seconds for every count: the truncating quotient already
      rounds a negative count up. */
  function CeilToSecond(t: Timestamp): (r: Timestamp)
    requires t.ms + 999 <= INT64_MAX
    ensures r.ms % MillisecondsPerSecond == 0
    ensures t.ms <= r.ms < t.ms + MillisecondsPerSecond
    ensures t.ms >= 0 ==> r == Ceil(t)
  {
    if t.ms >= 0 then Ceil(t) else Floor(t)
  }

  /** `ms_ + offset_ms`, where the offset is summed in `int64_t` (products of an `int`
      and a millisecond constant never overflow) and only the final sum can. */
  function Offset(t: Timestamp, hour: int32, minute: int32, second: int32, millisecond: int32): (r: Timestamp)
    requires InInt64(t.ms + ClockMillis(hour, minute, second, millisecond))
    ensures r.ms - t.ms == ClockMillis(hour, minute, second, millisecond)
  {
    var offsetMs: int64 := hour * MillisecondsPerHour + minute * MillisecondsPerMinute
                           + second * MillisecondsPerSecond + millisecond;
    E.Timestamp(t.ms + offsetMs)
  }

  // ---------------------------------------------------------------- parsing

  datatype ParseError = EmptyString | InvalidDateFormat(input: string) | InvalidTimeFormat(input: string)

  /** The digit fields `parse` cuts out of its input. */
  datatype DateFields =
    | DateTime(year: string, month: string, day: string, hour: string, minute: string, second: string)
    | DateOnly(year: string, month: string, day: string)

  datatype TimeFields = TimeFields(hour: string, minute: string, second: string)

  /** "YYYY-MM-DD HH:MM:SS": at least 19 characters, '-' at 4 and 7, ':' at 13 and 16. */
  predicate IsDateTimeLayout(s: string) {
    |s| >= 19 && s[4] == '-' && s[7] == '-' && s[13] == ':' && s[16] == ':'
  }

  /** "YYYY-MM-DD": at least 10 characters, '-' at 4 and 7. */
  predicate IsDateLayout(s: string) {
    |s| >= 10 && s[4] == '-' && s[7] == '-'
  }

  /** "HH:MM:SS": at least 8 characters, ':' at 2 and 5. */
  predicate IsTimeLayout(s: string) {
    |s| >= 8 && s[2] == ':' && s[5] == ':'
  }

  /** `parse`: reject the empty string, then try the date-time layout, then the date
      layout. Everything of at least 10 characters with '-' at 4 and 7 passes the
      layout check, whatever its other characters are; the fields then go to
      `std::stoi`, which is not modelled. */
  function Parse(s: string): (r: Result<DateFields, ParseError>)
    ensures r == Err(EmptyString) <==> s == []
    ensures r.Ok? <==> IsDateLayout(s)
    ensures r.Ok? ==> (r.value.DateTime? <==> IsDateTimeLayout(s))
    ensures s != [] && !IsDateLayout(s) ==> r == Err(InvalidDateFormat(s))
  {
    if s == [] then
      Err(EmptyString)
    else if IsDateTimeLayout(s) then
      Ok(DateTime(s[0..4], s[5..7], s[8..10], s[11..13], s[14..16], s[17..19]))
    else if IsDateLayout(s) then
      Ok(DateOnly(s[0..4], s[5..7], s[8..10]))
    else
      Err(InvalidDateFormat(s))
  }

  /** `parse_time`: the time layout, or an error (the empty string included). */
  function ParseTime(s: string): (r: Result<TimeFields, ParseError>)
    ensures r.Ok? <==> IsTimeLayout(s)
    ensures !r.Ok? ==> r == Err(InvalidTimeFormat(s))
  {
    if IsTimeLayout(s) then
      Ok(TimeFields(s[0..2], s[3..5], s[6..8]))
    else
      Err(InvalidTimeFormat(s))
  }

  /** The malformed input of the unit test is rejected. */
  lemma {:induction false} ParseRejectsInvalidDate()
    ensures Parse("invalid-date") == Err(InvalidDateFormat("invalid-date"))
  {
  }

  // -------------------------------------------------------------- rendering

  /** The broken-down local time `localtime` would produce (years from 0 on). */
  datatype LocalTime = LocalTime(year: nat, month: nat, day: nat, hour: nat, minute: nat, second: nat)

  function DigitChar(d: nat): char
    requires d < 10
  {
    "0123456789"[d]
  }

  predicate IsDigits(s: string) {
    forall i :: 0 <= i < |s| ==> '0' <= s[i] <= '9'
  }

  function Pow10(k: nat): (r: nat)
    ensures r >= 1
  {
    if k == 0 then 1 else 10 * Pow10(k - 1)
  }

  /** The decimal digits of `n`, as `operator<<` writes them. */
  function Digits(n: nat): (r: string)
    ensures 1 <= |r| && IsDigits(r)
    decreases n
  {
    if n < 10 then [DigitChar(n)] else Digits(n / 10) + [DigitChar(n % 10)]
  }

  lemma {:induction false} DigitsLength(n: nat, k: nat)
    requires 1 <= k && n < Pow10(k)
    ensures |Digits(n)| <= k
    decreases n
  {
    if n >= 10 {
      DigitsLength(n / 10, k - 1);
    }
  }

  /** `std::setw(width)` with fill '0' in front of the digits of `n`. */
  function Pad(n: nat, width: nat): (r: string)
    ensures IsDigits(r)
    ensures |r| == if |Digits(n)| < width then width else |Digits(n)|
  {
    var d := Digits(n);
    if |d| < width then seq(width - |d|, _ => '0') + d else d
  }

  /** `toString()`: "YYYY-MM-DD HH:MM:SS", or the epoch text for the empty timestamp. */
  function ToString(t: Timestamp, local: LocalTime): (r: string)
    ensures E.Empty(t) ==> r == "1970-01-01 00:00:00"
    ensures !E.Empty(t) ==> r == OnlyDate(t, local) + " " + OnlyTime(t, local)
  {
    if E.Empty(t) then "1970-01-01 00:00:00"
    else
      Pad(local.year, 4) + "-" + Pad(local.month, 2) + "-" + Pad(local.day, 2) + " "
      + Pad(local.hour, 2) + ":" + Pad(local.minute, 2) + ":" + Pad(local.second, 2)
  }

  /** `only_date()`: "YYYY-MM-DD". */
  function OnlyDate(t: Timestamp, local: LocalTime): string {
    if E.Empty(t) then "1970-01-01"
    else Pad(local.year, 4) + "-" + Pad(local.month, 2) + "-" + Pad(local.day, 2)
  }

  /** `only_time()`: "HH:MM:SS". */
  function OnlyTime(t: Timestamp, local: LocalTime): string {
    if E.Empty(t) then "00:00:00"
    else Pad(local.hour, 2) + ":" + Pad(local.minute, 2) + ":" + Pad(local.second, 2)
  }

  /** `yyyymmdd()`: "YYYYMMDD". */
  function Yyyymmdd(t: Timestamp, local: LocalTime): string {
    if E.Empty(t) then "19700101"
    else Pad(local.year, 4) + Pad(local.month, 2) + Pad(local.day, 2)
  }

  function WithoutDashes(s: string): (r: string)
    ensures forall i :: 0 <= i < |r| ==> r[i] != '-'
  {
    if s == [] then [] else (if s[0] == '-' then [] else [s[0]]) + WithoutDashes(s[1..])
  }

  lemma {:induction false} WithoutDashesAppend(a: string, b: string)
    ensures WithoutDashes(a + b) == WithoutDashes(a) + WithoutDashes(b)
  {
    if a == [] {
      assert a + b == b;
    } else {
      assert (a + b)[0] == a[0];
      assert (a + b)[1..] == a[1..] + b;
      WithoutDashesAppend(a[1..], b);
    }
  }

  lemma {:induction false} WithoutDashesOfDigits(s: string)
    requires IsDigits(s)
    ensures WithoutDashes(s) == s
  {
    if s != [] {
      WithoutDashesOfDigits(s[1..]);
    }
  }

  /** Dropping the dashes of "Y-M-D" leaves "YMD". */
  lemma {:induction false} DateWithoutDashes(y: string, m: string, d: string)
    requires IsDigits(y) && IsDigits(m) && IsDigits(d)
    ensures WithoutDashes(y + "-" + m + "-" + d) == y + m + d
  {
    WithoutDashesOfDigits(y);
    DropDash(y + "-" + m, d);
    DropDash(y, m);
  }

  /** The dash between a text and a run of digits is dropped, the digits kept. */
  lemma {:induction false} DropDash(a: string, b: string)
    requires IsDigits(b)
    ensures WithoutDashes(a + "-" + b) == WithoutDashes(a) + b
  {
    var dash := "-";
    assert WithoutDashes(dash) == [] by {
      assert dash[1..] == [];
    }
    WithoutDashesOfDigits(b);
    WithoutDashesAppend(a + dash, b);
    WithoutDashesAppend(a, dash);
  }

  lemma {:induction false} EpochFields()
    ensures Pad(1970, 4) == "1970" && Pad(1, 2) == "01" && Pad(0, 2) == "00"
  {
    assert Digits(19) == "19";
    assert Digits(197) == "197";
    assert Digits(1970) == "1970";
    assert seq(1, _ => '0') == "0";
  }

  /** The empty timestamp prints exactly what a non-empty timestamp whose local
      time is the epoch, 1970-01-01 00:00:00, would print, in all four renderings. */
  lemma {:induction false} EmptyRendersEpoch(t: Timestamp, local: LocalTime)
    requires E.Empty(t)
    ensures var epoch := LocalTime(1970, 1, 1, 0, 0, 0);
            var one := E.Timestamp(1);
            && ToString(t, local) == ToString(one, epoch)
            && OnlyDate(t, local) == OnlyDate(one, epoch)
            && OnlyTime(t, local) == OnlyTime(one, epoch)
            && Yyyymmdd(t, local) == Yyyymmdd(one, epoch)
  {
    EpochFields();
    EpochTexts(Pad(1970, 4), Pad(1, 2), Pad(0, 2));
  }

  /** The epoch's fields laid out in the four renderings. */
  lemma {:induction false} EpochTexts(y: string, mo: string, z: string)
    requires y == "1970" && mo == "01" && z == "00"
    ensures y + "-" + mo + "-" + mo == "1970-01-01"
    ensures z + ":" + z + ":" + z == "00:00:00"
    ensures y + mo + mo == "19700101"
    ensures y + "-" + mo + "-" + mo + " " + z + ":" + z + ":" + z == "1970-01-01 00:00:00"
  {
  }

  /** In both the empty and the non-empty case the four renderings agree with one
      another: the date-time text is the date, a space and the time, and the compact
      date is the date without its dashes. */
  lemma {:induction false} RenderingsAgree(t: Timestamp, local: LocalTime)
    ensures ToString(t, local) == OnlyDate(t, local) + " " + OnlyTime(t, local)
    ensures Yyyymmdd(t, local) == WithoutDashes(OnlyDate(t, local))
  {
    if E.Empty(t) {
      assert "1970-01-01" == "1970" + "-" + "01" + "-" + "01";
      DateWithoutDashes("1970", "01", "01");
    } else {
      DateWithoutDashes(Pad(local.year, 4), Pad(local.month, 2), Pad(local.day, 2));
    }
  }

  /** A local time whose fields fit their printed widths. */
  predicate FitsLayout(local: LocalTime) {
    local.year < 10000 && local.month < 100 && local.day < 100
    && local.hour < 100 && local.minute < 100 && local.second < 100
  }

  /** Fields that fit their layout print at exactly their widths. */
  lemma {:induction false} FieldWidths(local: LocalTime)
    requires FitsLayout(local)
    ensures |Pad(local.year, 4)| == 4 && |Pad(local.month, 2)| == 2 && |Pad(local.day, 2)| == 2
    ensures |Pad(local.hour, 2)| == 2 && |Pad(local.minute, 2)| == 2 && |Pad(local.second, 2)| == 2
  {
    DigitsLength(local.year, 4);
    DigitsLength(local.month, 2);
    DigitsLength(local.day, 2);
    DigitsLength(local.hour, 2);
    DigitsLength(local.minute, 2);
    DigitsLength(local.second, 2);
  }

  /** `parse` reads back the fields `toString` prints. */
  lemma {:induction false} ParseInvertsToString(t: Timestamp, local: LocalTime)
    requires !E.Empty(t) && FitsLayout(local)
    ensures Parse(ToString(t, local)) == Ok(DateTime(Pad(local.year, 4), Pad(local.month, 2),
              Pad(local.day, 2), Pad(local.hour, 2), Pad(local.minute, 2), Pad(local.second, 2)))
  {
    FieldWidths(local);
    DateTimeText(Pad(local.year, 4), Pad(local.month, 2), Pad(local.day, 2),
                 Pad(local.hour, 2), Pad(local.minute, 2), Pad(local.second, 2));
  }

  /** Fields of the printed widths, laid out as `toString` lays them out, are cut
      back out by `parse`. */
  lemma {:induction false} DateTimeText(y: string, mo: string, d: string, h: string, mi: string, se: string)
    requires |y| == 4 && |mo| == 2 && |d| == 2 && |h| == 2 && |mi| == 2 && |se| == 2
    ensures Parse(y + "-" + mo + "-" + d + " " + h + ":" + mi + ":" + se) == Ok(DateTime(y, mo, d, h, mi, se))
  {
    var s := y + "-" + mo + "-" + d + " " + h + ":" + mi + ":" + se;
    assert |s| == 19;
    assert s[0..4] == y && s[4] == '-' && s[5..7] == mo && s[7] == '-' && s[8..10] == d;
    assert s[11..13] == h && s[13] == ':' && s[14..16] == mi && s[16] == ':' && s[17..19] == se;
  }

  /** `parse` reads back the date `only_date` prints. */
  lemma {:induction false} ParseInvertsOnlyDate(t: Timestamp, local: LocalTime)
    requires !E.Empty(t) && FitsLayout(local)
    ensures Parse(OnlyDate(t, local)) == Ok(DateOnly(Pad(local.year, 4), Pad(local.month, 2), Pad(local.day, 2)))
  {
    FieldWidths(local);
    DateText(Pad(local.year, 4), Pad(local.month, 2), Pad(local.day, 2));
  }

  /** Fields laid out as `only_date` lays them out are cut back out by `parse`. */
  lemma {:induction false} DateText(y: string, mo: string, d: string)
    requires |y| == 4 && |mo| == 2 && |d| == 2
    ensures Parse(y + "-" + mo + "-" + d) == Ok(DateOnly(y, mo, d))
  {
    var s := y + "-" + mo + "-" + d;
    assert s[0..4] == y && s[4] == '-' && s[5..7] == mo && s[7] == '-' && s[8..10] == d;
  }

  /** `parse_time` reads back the time `only_time` prints. */
  lemma {:induction false} ParseTimeInvertsOnlyTime(t: Timestamp, local: LocalTime)
    requires !E.Empty(t) && FitsLayout(local)
    ensures ParseTime(OnlyTime(t, local)) == Ok(TimeFields(Pad(local.hour, 2), Pad(local.minute, 2), Pad(local.second, 2)))
  {
    FieldWidths(local);
    TimeText(Pad(local.hour, 2), Pad(local.minute, 2), Pad(local.second, 2));
  }

  /** Fields laid out as `only_time` lays them out are cut back out by `parse_time`. */
  lemma {:induction false} TimeText(h: string, mi: string, se: string)
    requires |h| == 2 && |mi| == 2 && |se| == 2
    ensures ParseTime(h + ":" + mi + ":" + se) == Ok(TimeFields(h, mi, se))
  {
    var s := h + ":" + mi + ":" + se;
    assert s[0..2] == h && s[2] == ':' && s[3..5] == mi && s[5] == ':' && s[6..8] == se;
  }
}
