/** Proleptic Gregorian calendar arithmetic in the terms ECMAScript defines
    it (section 21.4.1 of ECMA-262: DayFromYear, MakeDay, MakeTime, MakeDate,
    TimeClip), and the civil date-time records the scraper's dates become. */
module Civil {

  const MsPerMinute := 60000
  const MsPerHour := 3600000
  const MsPerDay := 86400000
  /** TimeClip: a JavaScript `Date` holds at most 8.64e15 milliseconds either side of the epoch. */
  const MaxTimeValue := 8640000000000000

  predicate IsLeapYear(y: int) {
    y % 4 == 0 && (y % 100 != 0 || y % 400 == 0)
  }

  function DaysInYear(y: int): int {
    if IsLeapYear(y) then 366 else 365
  }

  function DaysInMonth(y: int, m: int): int
    requires 1 <= m <= 12
  {
    if m == 2 then (if IsLeapYear(y) then 29 else 28)
    else if m == 4 || m == 6 || m == 9 || m == 11 then 30
    else 31
  }

  /** Days of year `y` before the first of month `m` (month 13 stands for the next year). */
  function DaysBeforeMonth(y: int, m: int): int
    requires 1 <= m <= 13
  {
    var common := [0, 31, 59, 90, 120, 151, 181, 212, 243, 273, 304, 334, 365];
    common[m - 1] + (if m > 2 && IsLeapYear(y) then 1 else 0)
  }

  /** ECMAScript DayFromYear: the day number of 1 January of year `y`
      (floor division, which is what `/` is on a positive divisor). */
  function DayFromYear(y: int): int {
    365 * (y - 1970) + (y - 1969) / 4 - (y - 1901) / 100 + (y - 1601) / 400
  }

  /** ECMAScript MakeDay for a month in range: the day number of day `d` of
      month `m`, where `d` may run past the end of the month. */
  function DayNumber(y: int, m: int, d: int): int
    requires 1 <= m <= 12
  {
    DayFromYear(y) + DaysBeforeMonth(y, m) + d - 1
  }

  predicate ValidDate(y: int, m: int, d: int) {
    1 <= m <= 12 && 1 <= d <= DaysInMonth(y, m)
  }

  /** A date and time of day, field by field; `month` counts from 1. */
  datatype DateTime = DateTime(year: int, month: int, day: int, hour: int, minute: int, second: int, ms: int)

  predicate Valid(t: DateTime) {
    && ValidDate(t.year, t.month, t.day)
    && 0 <= t.hour < 24 && 0 <= t.minute < 60 && 0 <= t.second < 60 && 0 <= t.ms < 1000
  }

  /** MakeDate(MakeDay(..), MakeTime(..)): the milliseconds since the epoch the
      fields denote. Out-of-range hours, minutes and days simply add up, as in `Date.UTC`. */
  function TimeValue(t: DateTime): int
    requires 1 <= t.month <= 12
  {
    DayNumber(t.year, t.month, t.day) * MsPerDay
      + t.hour * MsPerHour + t.minute * MsPerMinute + t.second * 1000 + t.ms
  }

  /** TimeClip accepts the value: the `Date` is valid. */
  predicate InRange(t: DateTime)
    requires 1 <= t.month <= 12
  {
    -MaxTimeValue <= TimeValue(t) <= MaxTimeValue
  }

  lemma DaysBeforeNextMonth(y: int, m: int)
    requires 1 <= m <= 12
    ensures DaysBeforeMonth(y, m + 1) == DaysBeforeMonth(y, m) + DaysInMonth(y, m)
  {
  }

  /** One year after another: DayFromYear advances by the length of the year. */
  lemma DayFromYearStep(y: int)
    ensures DayFromYear(y + 1) == DayFromYear(y) + DaysInYear(y)
  {
    Step4(y);
    Step100(y);
    Step400(y);
    var a4 := if y % 4 == 0 then 1 else 0;
    var a100 := if y % 100 == 0 then 1 else 0;
    var a400 := if y % 400 == 0 then 1 else 0;
    assert DayFromYear(y + 1) == DayFromYear(y) + 365 + a4 - a100 + a400;
    if y % 100 == 0 {
      Mod100Mod4(y);
    }
    if y % 400 == 0 {
      Mod400Mod100(y);
    }
  }

  lemma Mod100Mod4(y: int)
    requires y % 100 == 0
    ensures y % 4 == 0
  {
    var q := y / 100;
    assert y == 4 * (25 * q);
  }

  lemma Mod400Mod100(y: int)
    requires y % 400 == 0
    ensures y % 100 == 0
  {
    var q := y / 400;
    assert y == 100 * (4 * q);
  }

  lemma Step4(y: int)
    ensures (y + 1 - 1969) / 4 == (y - 1969) / 4 + (if y % 4 == 0 then 1 else 0)
  {
    var a := y - 1969;
    var q, r := a / 4, a % 4;
    assert a == 4 * q + r && 0 <= r < 4;
    if r == 3 {
      assert a + 1 == 4 * (q + 1);
    } else {
      assert a + 1 == 4 * q + (r + 1);
    }
  }

  lemma Step100(y: int)
    ensures (y + 1 - 1901) / 100 == (y - 1901) / 100 + (if y % 100 == 0 then 1 else 0)
  {
    var a := y - 1901;
    var q, r := a / 100, a % 100;
    assert a == 100 * q + r && 0 <= r < 100;
    if r == 99 {
      assert a + 1 == 100 * (q + 1);
    } else {
      assert a + 1 == 100 * q + (r + 1);
    }
  }

  lemma Step400(y: int)
    ensures (y + 1 - 1601) / 400 == (y - 1601) / 400 + (if y % 400 == 0 then 1 else 0)
  {
    var a := y - 1601;
    var q, r := a / 400, a % 400;
    assert a == 400 * q + r && 0 <= r < 400;
    if r == 399 {
      assert a + 1 == 400 * (q + 1);
    } else {
      assert a + 1 == 400 * q + (r + 1);
    }
  }

  lemma {:induction false} DayFromYearMonotone(a: int, b: int)
    requires a < b
    ensures DayFromYear(a) + DaysInYear(a) <= DayFromYear(b)
    decreases b - a
  {
    DayFromYearStep(a);
    if a + 1 < b {
      DayFromYearMonotone(a + 1, b);
    }
  }

  /** A valid date lies inside its own year. */
  lemma DayNumberInYear(y: int, m: int, d: int)
    requires ValidDate(y, m, d)
    ensures DayFromYear(y) <= DayNumber(y, m, d) < DayFromYear(y + 1)
  {
    DayFromYearStep(y);
    DaysBeforeNextMonth(y, m);
    MonthsBeforeYearEnd(y, m + 1);
  }

  lemma {:induction false} MonthsBeforeYearEnd(y: int, m: int)
    requires 1 <= m <= 13
    ensures DaysBeforeMonth(y, m) <= DaysInYear(y)
  {
  }

  lemma {:induction false} DaysBeforeMonthMonotone(y: int, m: int, n: int)
    requires 1 <= m < n <= 12
    ensures DaysBeforeMonth(y, m) + DaysInMonth(y, m) <= DaysBeforeMonth(y, n)
  {
  }

  /** Distinct valid dates have distinct day numbers: the civil record and
      ECMAScript's day count are two descriptions of the same day. */
  lemma DayNumberInjective(y1: int, m1: int, d1: int, y2: int, m2: int, d2: int)
    requires ValidDate(y1, m1, d1) && ValidDate(y2, m2, d2)
    requires DayNumber(y1, m1, d1) == DayNumber(y2, m2, d2)
    ensures y1 == y2 && m1 == m2 && d1 == d2
  {
    DayNumberInYear(y1, m1, d1);
    DayNumberInYear(y2, m2, d2);
    if y1 < y2 {
      DayFromYearMonotone(y1, y2);
      DayFromYearStep(y1);
    } else if y2 < y1 {
      DayFromYearMonotone(y2, y1);
      DayFromYearStep(y2);
    }
    assert y1 == y2;
    if m1 < m2 {
      DaysBeforeMonthMonotone(y1, m1, m2);
    } else if m2 < m1 {
      DaysBeforeMonthMonotone(y1, m2, m1);
    }
  }

  /** Two valid date-times with the same time value are the same record. */
  lemma TimeValueInjective(s: DateTime, t: DateTime)
    requires Valid(s) && Valid(t)
    requires TimeValue(s) == TimeValue(t)
    ensures s == t
  {
    var ds, dt := DayNumber(s.year, s.month, s.day), DayNumber(t.year, t.month, t.day);
    var ts := s.hour * MsPerHour + s.minute * MsPerMinute + s.second * 1000 + s.ms;
    var tt := t.hour * MsPerHour + t.minute * MsPerMinute + t.second * 1000 + t.ms;
    assert 0 <= ts < MsPerDay && 0 <= tt < MsPerDay;
    assert (ds - dt) * MsPerDay == tt - ts;
    assert ds == dt;
    DayNumberInjective(s.year, s.month, s.day, t.year, t.month, t.day);
    assert ts == tt;
  }

  /** The calendar day before a valid date. */
  function PrevDay(y: int, m: int, d: int): (r: (int, int, int))
    requires ValidDate(y, m, d)
    ensures ValidDate(r.0, r.1, r.2)
    ensures DayNumber(r.0, r.1, r.2) == DayNumber(y, m, d) - 1
  {
    if d > 1 then (y, m, d - 1)
    else if m > 1 then
      DaysBeforeNextMonth(y, m - 1);
      (y, m - 1, DaysInMonth(y, m - 1))
    else
      DayFromYearStep(y - 1);
      (y - 1, 12, 31)
  }

  /** The next calendar day, rolling over the month and the year where the
      day was the last. */
  function NextDay(y: int, m: int, d: int): (r: (int, int, int))
    requires ValidDate(y, m, d)
    ensures ValidDate(r.0, r.1, r.2)
    ensures DayNumber(r.0, r.1, r.2) == DayNumber(y, m, d) + 1
    ensures y <= r.0 <= y + 1
  {
    if d < DaysInMonth(y, m) then (y, m, d + 1)
    else if m < 12 then
      DaysBeforeNextMonth(y, m);
      (y, m + 1, 1)
    else
      DayFromYearStep(y);
      (y + 1, 1, 1)
  }

  /** The previous day and the next day undo each other. */
  lemma PrevNextDay(y: int, m: int, d: int)
    requires ValidDate(y, m, d)
    ensures var n := NextDay(y, m, d); PrevDay(n.0, n.1, n.2) == (y, m, d)
  {
    var n := NextDay(y, m, d);
    var p := PrevDay(n.0, n.1, n.2);
    DayNumberInjective(p.0, p.1, p.2, y, m, d);
  }

  /** `Date.UTC(y, m - 1, d, h - 1, min)` for valid local fields: one hour
      earlier, which from hour 0 is 23:min of the previous day (rolling back
      the month and the year where the day was the first). */
  function MinusOneHour(t: DateTime): (r: DateTime)
    requires Valid(t)
    ensures Valid(r)
    ensures TimeValue(r) == TimeValue(t.(hour := t.hour - 1))
    ensures TimeValue(r) == TimeValue(t) - MsPerHour
    ensures r.minute == t.minute && r.second == t.second && r.ms == t.ms
    ensures t.hour >= 1 ==> r.year == t.year && r.month == t.month && r.day == t.day && r.hour == t.hour - 1
    ensures t.hour == 0 ==> r.hour == 23 && (r.year, r.month, r.day) == PrevDay(t.year, t.month, t.day)
  {
    if t.hour >= 1 then t.(hour := t.hour - 1)
    else
      var p := PrevDay(t.year, t.month, t.day);
      t.(year := p.0, month := p.1, day := p.2, hour := 23)
  }

  /** The day-of-month overflow of ECMAScript MakeDay for a day of at most 31:
      31 April is 1 May, 30 February 2021 is 2 March. */
  function RollDay(y: int, m: int, d: int): (r: (int, int, int))
    requires 1 <= m <= 12 && 1 <= d <= 31
    ensures ValidDate(r.0, r.1, r.2) && r.0 == y
    ensures DayNumber(r.0, r.1, r.2) == DayNumber(y, m, d)
    ensures ValidDate(y, m, d) ==> r == (y, m, d)
  {
    if d <= DaysInMonth(y, m) then (y, m, d)
    else
      DaysBeforeNextMonth(y, m);
      (y, m + 1, d - DaysInMonth(y, m))
  }

  /** The year `Date.UTC` uses for the year it is given: years 0 to 99 mean
      1900 to 1999 (MakeFullYear, section 21.4.3.4 of ECMA-262). */
  function FullYear(y: int): int {
    if 0 <= y <= 99 then 1900 + y else y
  }

  /** `Date.UTC` of the year, month, day and time fields of a valid date-time:
      the same fields, except that a year from 0 to 99 is moved to 1900 to 1999,
      where a 29 February that the new year lacks becomes 1 March. */
  function UtcFields(t: DateTime): (r: DateTime)
    requires Valid(t) && InRange(t)
    ensures Valid(r) && InRange(r)
    ensures TimeValue(r) == TimeValue(t.(year := FullYear(t.year)))
    ensures r.hour == t.hour && r.minute == t.minute && r.second == t.second && r.ms == t.ms
    ensures !(0 <= t.year <= 99) ==> r == t
    ensures 0 <= t.year <= 99 ==> 1900 <= r.year <= 1999
    ensures 0 <= t.year <= 99 && ValidDate(1900 + t.year, t.month, t.day) ==> r == t.(year := 1900 + t.year)
  {
    if 0 <= t.year <= 99 then
      var d := RollDay(1900 + t.year, t.month, t.day);
      CenturyFields(t, d);
      t.(year := d.0, month := d.1, day := d.2)
    else t
  }

  /** The fields of a date-time from year 0 to 99 with the year moved on by
      1900 and the day rolled into that year's calendar. */
  lemma CenturyFields(t: DateTime, d: (int, int, int))
    requires Valid(t) && InRange(t) && 0 <= t.year <= 99
    requires d == RollDay(1900 + t.year, t.month, t.day)
    ensures var r := t.(year := d.0, month := d.1, day := d.2);
            && Valid(r) && InRange(r) && 1900 <= r.year <= 1999
            && TimeValue(r) == TimeValue(t.(year := 1900 + t.year))
            && (ValidDate(1900 + t.year, t.month, t.day) ==> r == t.(year := 1900 + t.year))
  {
    CenturyInRange(1900 + t.year, t.month, t.day,
                   t.hour * MsPerHour + t.minute * MsPerMinute + t.second * 1000 + t.ms);
  }

  /** Every date-time from year 0 to 1999 is well inside TimeClip's bounds. */
  lemma CenturyInRange(y: int, m: int, d: int, rest: int)
    requires 0 <= y <= 1999 && 1 <= m <= 12 && 1 <= d <= 31 && 0 <= rest < MsPerDay
    ensures -MaxTimeValue <= DayNumber(y, m, d) * MsPerDay + rest <= MaxTimeValue
  {
    assert -720000 <= DayFromYear(y) <= 11000;
    assert 0 <= DaysBeforeMonth(y, m) <= 335;
    var day := DayNumber(y, m, d);
    assert -720000 <= day <= 12000;
  }

  /** Every date-time from year 0 to 9999 is well inside TimeClip's bounds. */
  lemma FourDigitInRange(y: int, m: int, d: int, rest: int)
    requires 0 <= y <= 9999 && 1 <= m <= 12 && 1 <= d <= 31 && 0 <= rest < MsPerDay
    ensures -MaxTimeValue <= DayNumber(y, m, d) * MsPerDay + rest <= MaxTimeValue
  {
    assert -720000 <= DayFromYear(y) <= 3000000;
    assert 0 <= DaysBeforeMonth(y, m) <= 335;
    var day := DayNumber(y, m, d);
    assert -720000 <= day <= 3001000;
  }

  /** The first day of January of the year after the last `Date`, and of the
      year of the first: a `Date` within TimeClip has a six-digit year at most. */
  lemma InRangeYear(t: DateTime)
    requires Valid(t) && InRange(t)
    ensures -271821 <= t.year <= 275760
  {
    DayNumberInYear(t.year, t.month, t.day);
    var day := DayNumber(t.year, t.month, t.day);
    assert day * MsPerDay <= TimeValue(t) < day * MsPerDay + MsPerDay;
    if t.year > 275760 {
      DayFromYearMonotone(275760, t.year);
      DayFromYearStep(275760);
    }
    if t.year < -271821 {
      DayFromYearMonotone(t.year, -271821);
      DayFromYearStep(t.year);
    }
  }

  /** Midnight of a day that holds a valid `Date` is itself valid: TimeClip's
      bounds fall on midnights. */
  lemma MidnightInRange(t: DateTime)
    requires Valid(t) && InRange(t)
    ensures InRange(t.(hour := 0, minute := 0, second := 0, ms := 0))
  {
    var day := DayNumber(t.year, t.month, t.day);
    MidnightBound(day, t.hour * MsPerHour + t.minute * MsPerMinute + t.second * 1000 + t.ms);
  }

  lemma MidnightBound(day: int, rest: int)
    requires 0 <= rest < MsPerDay
    requires -MaxTimeValue <= day * MsPerDay + rest
    ensures -MaxTimeValue <= day * MsPerDay
  {
  }

  lemma MultipleOfMinute(k: int)
    ensures (k * MsPerMinute) % MsPerMinute == 0
  {
  }

  /** The clock's fields with seconds and milliseconds left out: the run
      stamp, truncated to the minute. */
  function TruncateToMinute(t: DateTime): (r: DateTime)
    requires Valid(t)
    ensures Valid(r)
    ensures r.year == t.year && r.month == t.month && r.day == t.day
    ensures r.hour == t.hour && r.minute == t.minute
    ensures r.second == 0 && r.ms == 0
    ensures TimeValue(r) % MsPerMinute == 0
    ensures TimeValue(r) <= TimeValue(t) < TimeValue(r) + MsPerMinute
    ensures InRange(t) ==> InRange(r)
  {
    var r := t.(second := 0, ms := 0);
    var k := DayNumber(t.year, t.month, t.day) * 1440 + t.hour * 60 + t.minute;
    assert TimeValue(r) == k * MsPerMinute;
    MultipleOfMinute(k);
    assert InRange(t) ==> InRange(r) by {
      if InRange(t) {
        MidnightInRange(t);
      }
    }
    r
  }
}
