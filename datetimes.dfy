/** Python `datetime` values and the two datetime helper files of the
    repository (src/utils/datetime_helpers.py and
    lib/utils/datetime_helpers.py).

    A `DateTime` is a civil date and wall-clock time with an optional fixed
    UTC offset. Arithmetic follows Python's rule for aware datetimes: adding
    a `timedelta` moves the wall clock and keeps the `tzinfo`. Day ordinals
    follow `date.toordinal()` (0001-01-01 is day 1). */
module DateTimes {
  import opened Wrappers
  import PyStrings

  datatype Date = Date(year: int, month: int, day: int)

  /** A fixed offset from UTC, in minutes. */
  datatype Tz = Tz(offsetMinutes: int)

  datatype DateTime = DateTime(date: Date, hour: int, minute: int, second: int,
                               micro: int, tz: Option<Tz>)

  const MaxYear := 9999
  const MicrosPerMinute := 60_000_000
  const MicrosPerHour := 3_600_000_000
  const MicrosPerDay := 86_400_000_000

  predicate IsLeap(y: int) {
    y % 4 == 0 && (y % 100 != 0 || y % 400 == 0)
  }

  function DaysInMonth(y: int, m: int): int {
    if m == 2 then (if IsLeap(y) then 29 else 28)
    else if m == 4 || m == 6 || m == 9 || m == 11 then 30
    else 31
  }

  predicate ValidDate(d: Date) {
    1 <= d.year <= MaxYear && 1 <= d.month <= 12 && 1 <= d.day <= DaysInMonth(d.year, d.month)
  }

  predicate Valid(t: DateTime) {
    ValidDate(t.date) && 0 <= t.hour < 24 && 0 <= t.minute < 60 && 0 <= t.second < 60
    && 0 <= t.micro < 1_000_000
  }

  // ------------------------------------------------------------ day ordinals

  function DaysBeforeYear(y: int): int {
    var p := y - 1;
    p * 365 + p / 4 - p / 100 + p / 400
  }

  /** Days of year `y` before the first of month `m`. */
  function DaysBeforeMonth(y: int, m: int): int
    requires 1 <= m <= 12
  {
    var leap := if m > 2 && IsLeap(y) then 1 else 0;
    leap + (if m == 1 then 0 else if m == 2 then 31 else if m == 3 then 59
            else if m == 4 then 90 else if m == 5 then 120 else if m == 6 then 151
            else if m == 7 then 181 else if m == 8 then 212 else if m == 9 then 243
            else if m == 10 then 273 else if m == 11 then 304 else 334)
  }

  /** `d.toordinal()`. */
  function DayNumber(d: Date): int
    requires 1 <= d.month <= 12
  {
    DaysBeforeYear(d.year) + DaysBeforeMonth(d.year, d.month) + d.day
  }

  /** `d + timedelta(days=1)`; past 9999-12-31 Python raises OverflowError. */
  function NextDay(d: Date): (r: Result<Date>)
    requires ValidDate(d)
    ensures r.Err? <==> d == Date(MaxYear, 12, 31)
    ensures r.Err? ==> r.error == OverflowError
    ensures r.Ok? ==> ValidDate(r.value) && DayNumber(r.value) == DayNumber(d) + 1
  {
    if d.day < DaysInMonth(d.year, d.month) then Ok(Date(d.year, d.month, d.day + 1))
    else if d.month < 12 then Ok(Date(d.year, d.month + 1, 1))
    else if d.year < MaxYear then
      YearLength(d.year);
      Ok(Date(d.year + 1, 1, 1))
    else Err(OverflowError)
  }

  /** The days of December 31 of year `y` close the year: the ordinal of the
      next January 1 is one past it. */
  lemma YearLength(y: int)
    requires 1 <= y
    ensures DaysBeforeYear(y + 1) == DaysBeforeYear(y) + DaysBeforeMonth(y, 12) + 31
  {
    DivStep(y, 4);
    DivStep(y, 100);
    DivStep(y, 400);
    if y % 400 == 0 {
      DivModUnique(y, 100, 4 * (y / 400), 0);
    }
    if y % 100 == 0 {
      DivModUnique(y, 4, 25 * (y / 100), 0);
    }
  }

  /** Stepping `y - 1` to `y` raises `y / k` by one exactly at multiples of `k`. */
  lemma DivStep(y: int, k: int)
    requires y >= 1 && k > 0
    ensures y / k - (y - 1) / k == if y % k == 0 then 1 else 0
  {
    var q, r := (y - 1) / k, (y - 1) % k;
    if r == k - 1 {
      DivModUnique(y, k, q + 1, 0);
    } else {
      DivModUnique(y, k, q, r + 1);
    }
  }

  /** Quotient and remainder are the only ones: `a == q * k + s` with
      `0 <= s < k` fixes `a / k` and `a % k`. */
  lemma DivModUnique(a: int, k: int, q: int, s: int)
    requires k > 0 && a == q * k + s && 0 <= s < k
    ensures a / k == q && a % k == s
  {
    var q2, s2 := a / k, a % k;
    assert a == q2 * k + s2;
    var d := q - q2;
    assert d * k == s2 - s;
    if d > 0 {
      MulAtLeast(d, k);
    } else if d < 0 {
      assert (-d) * k == -(d * k);
      MulAtLeast(-d, k);
    }
  }

  lemma {:induction false} MulAtLeast(d: int, k: int)
    requires d >= 1 && k > 0
    ensures d * k >= k
    decreases d
  {
    if d > 1 {
      MulAtLeast(d - 1, k);
      assert d * k == (d - 1) * k + k;
    }
  }

  // ------------------------------------------------------------ instants

  /** Wall-clock microseconds since 0001-01-01 00:00 on the datetime's own
      clock (the offset is not applied: both helper files keep the tzinfo
      and never compare datetimes of different zones). */
  function Micros(t: DateTime): int
    requires 1 <= t.date.month <= 12
  {
    ((DayNumber(t.date) - 1) * 24 + t.hour) * MicrosPerHour
    + t.minute * MicrosPerMinute + t.second * 1_000_000 + t.micro
  }

  /** Hours since 0001-01-01 00:00 of the hour `t` falls in: the integer
      the engine groups tweets by. */
  function HourOrdinal(t: DateTime): (h: int)
    requires Valid(t)
    ensures h * MicrosPerHour <= Micros(t) < (h + 1) * MicrosPerHour
    ensures h / 24 == DayNumber(t.date) - 1 && h % 24 == t.hour
  {
    TimeOfDayBound(t);
    (DayNumber(t.date) - 1) * 24 + t.hour
  }

  /** The time-of-day part of a valid datetime is less than a day. */
  lemma TimeOfDayBound(t: DateTime)
    requires Valid(t)
    ensures 0 <= t.minute * MicrosPerMinute + t.second * 1_000_000 + t.micro < MicrosPerHour
  {
  }

  /** `t + timedelta(hours=1)`: the same minutes, one hour later on the wall
      clock, rolling over into the next day after 23:xx. */
  function AddHour(t: DateTime): (r: Result<DateTime>)
    requires Valid(t)
    ensures r.Ok? ==> Valid(r.value) && Micros(r.value) == Micros(t) + MicrosPerHour
    ensures r.Ok? ==> r.value.tz == t.tz
    ensures r.Err? <==> t.hour == 23 && t.date == Date(MaxYear, 12, 31)
  {
    if t.hour < 23 then Ok(t.(hour := t.hour + 1))
    else
      var next :- NextDay(t.date);
      Ok(t.(date := next, hour := 0))
  }

  // ---------------------------------------- src/utils/datetime_helpers.py

  /** `round_to_hour`: minutes, seconds and microseconds set to zero. */
  function RoundToHour(t: DateTime): (r: DateTime)
    requires Valid(t)
    ensures Valid(r)
    ensures r.date == t.date && r.hour == t.hour && r.tz == t.tz
    ensures r.minute == 0 && r.second == 0 && r.micro == 0
    ensures Micros(r) <= Micros(t) < Micros(r) + MicrosPerHour
  {
    TimeOfDayBound(t);
    t.(minute := 0, second := 0, micro := 0)
  }

  /** Rounding an already rounded datetime changes nothing. */
  lemma RoundToHourIdempotent(t: DateTime)
    requires Valid(t)
    ensures RoundToHour(RoundToHour(t)) == RoundToHour(t)
  {
  }

  /** Python's `a // b` (rounds towards minus infinity). */
  function FloorDiv(a: int, b: int): (q: int)
    requires b != 0
    ensures b > 0 ==> q * b <= a < q * b + b
    ensures b < 0 ==> q * b >= a > q * b + b
  {
    if b > 0 then a / b else (-a) / (-b)
  }

  /** `round_to_hour_slots(t, k)`: the hour becomes `(t.hour // k) * k`,
      everything below the hour zero. `k == 0` divides by zero. A negative `k`
      rounds the hour up instead of down, and an hour past 23 is refused by
      `datetime.replace`. */
  function RoundToHourSlots(t: DateTime, k: int): (r: Result<DateTime>)
    requires Valid(t)
    ensures k == 0 <==> r == Err(ZeroDivisionError)
    ensures k > 0 ==> r.Ok?
    ensures r.Ok? ==> Valid(r.value) && r.value.date == t.date && r.value.tz == t.tz
    ensures r.Ok? ==> r.value.minute == 0 && r.value.second == 0 && r.value.micro == 0
    ensures k > 0 ==> r.value.hour % k == 0 && r.value.hour <= t.hour < r.value.hour + k
    ensures k < 0 && r.Ok? ==> r.value.hour % -k == 0 && r.value.hour + k < t.hour <= r.value.hour
  {
    if k == 0 then Err(ZeroDivisionError)
    else
      var h := FloorDiv(t.hour, k) * k;
      SlotHour(t.hour, k);
      assert k > 0 ==> 0 <= h < 24;
      if 0 <= h < 24 then Ok(t.(hour := h, minute := 0, second := 0, micro := 0))
      else Err(ValueError)
  }

  /** `(hour // k) * k` is a multiple of `k` within `k` of `hour`: at or
      below it for a positive `k`, at or above it for a negative one. */
  lemma SlotHour(hour: int, k: int)
    requires k != 0
    ensures var h := FloorDiv(hour, k) * k;
            (k > 0 ==> h % k == 0 && h <= hour < h + k)
            && (k < 0 ==> h % -k == 0 && h + k < hour <= h)
            && (k > 0 && hour >= 0 ==> h >= 0)
  {
    var q := FloorDiv(hour, k);
    if k > 0 {
      DivModUnique(q * k, k, q, 0);
      if hour >= 0 {
        assert q == hour / k && q >= 0;
        if q >= 1 {
          MulAtLeast(q, k);
        }
      }
    } else {
      assert q * k == (-q) * (-k);
      DivModUnique(q * k, -k, -q, 0);
    }
  }

  /** With a negative width the hour can land past 23: `(1 // -30) * -30`
      is 30. */
  lemma RoundToHourSlotsNegative()
    ensures RoundToHourSlots(DateTime(Date(2021, 3, 1), 1, 0, 0, 0, None), -30) == Err(ValueError)
  {
    assert FloorDiv(1, -30) == -1;
  }

  /** Slotting an already slotted datetime again keeps it. */
  lemma RoundToHourSlotsIdempotent(t: DateTime, k: int)
    requires Valid(t) && k > 0
    ensures RoundToHourSlots(RoundToHourSlots(t, k).value, k) == RoundToHourSlots(t, k)
  {
    var r := RoundToHourSlots(t, k).value;
    DivModUnique(r.hour, k, FloorDiv(t.hour, k), 0);
  }

  /** Midnight at the start of `d`, in zone `tz`. */
  function Midnight(d: Date, tz: Option<Tz>): DateTime {
    DateTime(d, 0, 0, 0, 0, tz)
  }

  /** `day_wrapping_datetimes(day)`: midnight of `day` and midnight of the
      following day, both with `day`'s tzinfo. */
  function DayWrappingDatetimes(day: DateTime): (r: Result<(DateTime, DateTime)>)
    requires Valid(day)
    ensures r.Err? <==> day.date == Date(MaxYear, 12, 31)
    ensures r.Ok? ==> r.value.0 == Midnight(day.date, day.tz) && r.value.1.tz == day.tz
    ensures r.Ok? ==> Valid(r.value.0) && Valid(r.value.1)
    ensures r.Ok? ==> Micros(r.value.0) <= Micros(day) < Micros(r.value.1)
    ensures r.Ok? ==> Micros(r.value.1) == Micros(r.value.0) + MicrosPerDay
  {
    TimeOfDayBound(day);
    var next :- NextDay(day.date);
    Ok((Midnight(day.date, day.tz), Midnight(next, day.tz)))
  }

  /** The windows of consecutive days abut: the end of day `d`'s window is
      the start of the window of the day after. */
  lemma DayWindowsAbut(day: DateTime)
    requires Valid(day) && DayWrappingDatetimes(day).Ok?
    ensures var w := DayWrappingDatetimes(day).value;
            var n := DayWrappingDatetimes(day).value.1;
            n.date != Date(MaxYear, 12, 31) ==> DayWrappingDatetimes(n).value.0 == w.1
  {
  }

  // ---------------------------------------- lib/utils/datetime_helpers.py

  /** The half-up `round_to_hour` of the lib package: floor to the hour, then
      add one hour when the minute is 30 or more. */
  function RoundToNearestHour(t: DateTime): (r: Result<DateTime>)
    requires Valid(t)
    ensures t.minute < 30 ==> r == Ok(RoundToHour(t))
    ensures t.minute >= 30 ==> r == AddHour(RoundToHour(t))
    ensures r.Ok? ==> Valid(r.value) && r.value.tz == t.tz
    ensures r.Ok? ==> r.value.minute == 0 && r.value.second == 0 && r.value.micro == 0
    ensures r.Ok? ==> Micros(t) - 30 * MicrosPerMinute < Micros(r.value) <= Micros(t) + 30 * MicrosPerMinute
    ensures r.Err? <==> t.minute >= 30 && t.hour == 23 && t.date == Date(MaxYear, 12, 31)
  {
    var floor := RoundToHour(t);
    TimeOfDayBound(t);
    if t.minute < 30 then Ok(floor) else AddHour(floor)
  }

  /** 23:30 or later rounds to midnight of the next day. */
  lemma RoundToNearestHourRollover(t: DateTime)
    requires Valid(t) && t.hour == 23 && t.minute >= 30 && t.date != Date(MaxYear, 12, 31)
    ensures RoundToNearestHour(t) == Ok(Midnight(NextDay(t.date).value, t.tz))
  {
  }

  /** The lib `round_to_hour_slots`: slot the half-up rounded hour. */
  function RoundToNearestHourSlots(t: DateTime, k: int): (r: Result<DateTime>)
    requires Valid(t)
    ensures k == 0 && RoundToNearestHour(t).Ok? ==> r == Err(ZeroDivisionError)
    ensures r.Ok? ==> Valid(r.value)
    ensures k > 0 && r.Ok? ==> r.value.hour % k == 0
    ensures r.Ok? ==> RoundToNearestHour(t).Ok?
                      && r == RoundToHourSlots(RoundToNearestHour(t).value, k)
  {
    var rounded :- RoundToNearestHour(t);
    RoundToHourSlots(rounded, k)
  }

  /** 05:30 lands in the 06:00 six-hour slot, where the src helper would
      have put it in the 00:00 slot. */
  lemma HalfPastFiveSlot()
    ensures RoundToNearestHourSlots(DateTime(Date(2021, 3, 1), 5, 30, 0, 0, None), 6)
            == Ok(DateTime(Date(2021, 3, 1), 6, 0, 0, 0, None))
    ensures RoundToHourSlots(DateTime(Date(2021, 3, 1), 5, 30, 0, 0, None), 6)
            == Ok(DateTime(Date(2021, 3, 1), 0, 0, 0, 0, None))
  {
  }

  // ------------------------------------------------------------ isoformat

  function Pow10(k: nat): (p: nat)
    ensures p >= 1
  {
    if k == 0 then 1 else 10 * Pow10(k - 1)
  }

  /** A number below `10^k` needs at most `k` digits. */
  lemma {:induction false} NatToStringLength(n: nat, k: nat)
    requires k >= 1 && n < Pow10(k)
    ensures |PyStrings.NatToString(n)| <= k
  {
    if n >= 10 {
      NatToStringLength(n / 10, k - 1);
    }
  }

  /** `n` in decimal, left-padded with zeros to `width` characters. */
  function ZeroPad(n: nat, width: nat): (r: string)
    ensures |r| >= width
    ensures width >= 1 && n < Pow10(width) ==> |r| == width
    ensures PyStrings.AllDigits(r) && PyStrings.DigitsValue(r) == n
  {
    var s := PyStrings.NatToString(n);
    assert width >= 1 && n < Pow10(width) ==> |s| <= width by {
      if width >= 1 && n < Pow10(width) { NatToStringLength(n, width); }
    }
    PyStrings.DigitsOfNat(n);
    if |s| >= width then s
    else
      var z := seq(width - |s|, _ => '0');
      PyStrings.LeadingZeros(z, s);
      z + s
  }

  /** The number a field of `isoformat()` text denotes, when it is a run of
      digits. */
  function FieldValue(s: string): Option<nat> {
    if PyStrings.AllDigits(s) then Some(PyStrings.DigitsValue(s))
    else None
  }

  /** `z` is the `+HH:MM` or `-HH:MM` text of a UTC offset of `offset` minutes. */
  predicate OffsetReads(z: string, offset: int) {
    |z| == 6 && (z[0] == '+' || z[0] == '-') && z[3] == ':'
    && (z[0] == '-' <==> offset < 0)
    && FieldValue(z[1..3]).Some? && FieldValue(z[4..6]).Some?
    && FieldValue(z[4..6]).value < 60
    && (if offset < 0 then -offset else offset)
       == FieldValue(z[1..3]).value * 60 + FieldValue(z[4..6]).value
  }

  /** A UTC offset `timezone` accepts: strictly within a day either way. */
  predicate ValidTz(tz: Option<Tz>) {
    tz.Some? ==> -1440 < tz.value.offsetMinutes < 1440
  }

  /** `t.isoformat()`: `YYYY-MM-DDTHH:MM:SS`, then `.ffffff` when there are
      microseconds, then `+HH:MM` for an aware datetime. */
  function IsoFormat(t: DateTime): (r: string)
    requires Valid(t)
    ensures t.micro == 0 && t.tz.None? ==> |r| == 19
    ensures |r| >= 19 && r[4] == '-' && r[7] == '-' && r[10] == 'T' && r[13] == ':' && r[16] == ':'
  {
    ClockText(t) + FracText(t.micro) + ZoneText(t.tz)
  }

  /** `YYYY-MM-DDTHH:MM:SS`: every field zero-padded to its fixed width. */
  function ClockText(t: DateTime): (r: string)
    requires Valid(t)
    ensures |r| == 19 && r[4] == '-' && r[7] == '-' && r[10] == 'T' && r[13] == ':' && r[16] == ':'
    ensures FieldValue(r[0..4]) == Some(t.date.year) && FieldValue(r[5..7]) == Some(t.date.month)
    ensures FieldValue(r[8..10]) == Some(t.date.day) && FieldValue(r[11..13]) == Some(t.hour)
    ensures FieldValue(r[14..16]) == Some(t.minute) && FieldValue(r[17..19]) == Some(t.second)
  {
    assert Pow10(2) == 100 && Pow10(4) == 10000;
    var y, mo, d := ZeroPad(t.date.year, 4), ZeroPad(t.date.month, 2), ZeroPad(t.date.day, 2);
    var h, mi, sec := ZeroPad(t.hour, 2), ZeroPad(t.minute, 2), ZeroPad(t.second, 2);
    ClockPieces(y, mo, d, h, mi, sec);
    y + "-" + mo + "-" + d + "T" + h + ":" + mi + ":" + sec
  }

  /** Where the six fixed-width fields sit in the text. */
  lemma ClockPieces(y: string, mo: string, d: string, h: string, mi: string, sec: string)
    requires |y| == 4 && |mo| == 2 && |d| == 2 && |h| == 2 && |mi| == 2 && |sec| == 2
    ensures var r := y + "-" + mo + "-" + d + "T" + h + ":" + mi + ":" + sec;
      |r| == 19 && r[0..4] == y && r[5..7] == mo && r[8..10] == d
      && r[11..13] == h && r[14..16] == mi && r[17..19] == sec
      && r[4] == '-' && r[7] == '-' && r[10] == 'T' && r[13] == ':' && r[16] == ':'
  {
  }

  /** `.ffffff` when there are microseconds, nothing otherwise. */
  function FracText(micro: int): (r: string)
    requires 0 <= micro < 1_000_000
    ensures micro == 0 ==> r == ""
    ensures micro != 0 ==> |r| == 7 && r[0] == '.' && FieldValue(r[1..]) == Some(micro)
  {
    assert Pow10(6) == 1_000_000;
    if micro != 0 then
      var f := ZeroPad(micro, 6);
      assert ("." + f)[1..] == f;
      "." + f
    else ""
  }

  /** `+HH:MM` or `-HH:MM` for an aware datetime, nothing for a naive one. */
  function ZoneText(tz: Option<Tz>): (r: string)
    ensures tz.None? ==> r == ""
    ensures tz.Some? && ValidTz(tz) ==> OffsetReads(r, tz.value.offsetMinutes)
  {
    match tz
    case None => ""
    case Some(z) =>
      var a := if z.offsetMinutes < 0 then -z.offsetMinutes else z.offsetMinutes;
      var hh, mm := ZeroPad(a / 60, 2), ZeroPad(a % 60, 2);
      assert Pow10(2) == 100;
      var r := (if z.offsetMinutes < 0 then "-" else "+") + hh + ":" + mm;
      assert ValidTz(tz) ==> r[1..3] == hh && r[4..6] == mm;
      r
  }

  /** Reading `isoformat()` back: each date and time field sits at its fixed
      position as zero-padded digits denoting that field; a `.` and the six
      digits of the microseconds follow exactly when there are any; an aware
      datetime ends with the text of its offset. */
  lemma IsoFormatFields(t: DateTime)
    requires Valid(t) && ValidTz(t.tz)
    ensures var r := IsoFormat(t);
      |r| == 19 + (if t.micro != 0 then 7 else 0) + (if t.tz.Some? then 6 else 0)
      && FieldValue(r[0..4]) == Some(t.date.year) && FieldValue(r[5..7]) == Some(t.date.month)
      && FieldValue(r[8..10]) == Some(t.date.day) && FieldValue(r[11..13]) == Some(t.hour)
      && FieldValue(r[14..16]) == Some(t.minute) && FieldValue(r[17..19]) == Some(t.second)
      && (t.micro != 0 ==> r[19] == '.' && FieldValue(r[20..26]) == Some(t.micro))
      && (t.tz.Some? ==> OffsetReads(r[|r| - 6..], t.tz.value.offsetMinutes))
  {
    var r := IsoFormat(t);
    var c, frac, zone := ClockText(t), FracText(t.micro), ZoneText(t.tz);
    assert r == c + frac + zone;
    InFirst(c, frac, zone, 0, 4);
    InFirst(c, frac, zone, 5, 7);
    InFirst(c, frac, zone, 8, 10);
    InFirst(c, frac, zone, 11, 13);
    InFirst(c, frac, zone, 14, 16);
    InFirst(c, frac, zone, 17, 19);
    if t.micro != 0 {
      InMiddle(c, frac, zone, 1, 7);
      assert frac[1..7] == frac[1..];
      assert r[20..26] == frac[1..];
      assert r[19] == frac[0];
    }
    if t.tz.Some? {
      assert r[|r| - 6..] == zone;
    }
  }

  /** A slice of the first of three joined texts. */
  lemma InFirst(a: string, b: string, c: string, i: nat, j: nat)
    requires i <= j <= |a|
    ensures (a + b + c)[i..j] == a[i..j]
  {
  }

  /** A slice of the middle one of three joined texts. */
  lemma InMiddle(a: string, b: string, c: string, i: nat, j: nat)
    requires i <= j <= |b|
    ensures (a + b + c)[|a| + i..|a| + j] == b[i..j]
  {
    assert forall k :: |a| + i <= k < |a| + j ==> (a + b + c)[k] == b[k - |a|];
  }

  /** Different datetimes give different `isoformat()` texts. */
  lemma IsoFormatInjective(t1: DateTime, t2: DateTime)
    requires Valid(t1) && ValidTz(t1.tz) && Valid(t2) && ValidTz(t2.tz)
    ensures IsoFormat(t1) == IsoFormat(t2) ==> t1 == t2
  {
    IsoFormatFields(t1);
    IsoFormatFields(t2);
    if IsoFormat(t1) == IsoFormat(t2) {
      var r := IsoFormat(t1);
      assert t1.date == t2.date && t1.hour == t2.hour && t1.minute == t2.minute && t1.second == t2.second;
      assert (t1.micro != 0) == (t2.micro != 0) && t1.tz.Some? == t2.tz.Some?;
      if t1.micro != 0 {
        assert Some(t1.micro) == FieldValue(r[20..26]) == Some(t2.micro);
      }
      if t1.tz.Some? {
        OffsetReadsUnique(r[|r| - 6..], t1.tz.value.offsetMinutes, t2.tz.value.offsetMinutes);
        assert t1.tz == t2.tz;
      }
    }
  }

  /** The text of an offset names one offset only. */
  lemma OffsetReadsUnique(z: string, o1: int, o2: int)
    requires OffsetReads(z, o1) && OffsetReads(z, o2)
    ensures o1 == o2
  {
  }
}
