/** Proleptic Gregorian calendar arithmetic behind the booking calendar.

    Months are numbered 0..11 and days from 1, as JavaScript's `Date`
    reports them. `Normalize(y, m, d)` is the local date that `new Date(y, m, d)`
    denotes: the month carries into the year by floor division, and the day
    counts forward (or backward, for d < 1) from the 1st of that month.
    Time of day, time zones and daylight saving are not part of a `Date`
    here: it is a calendar day. */
module Gregorian {
  import opened Wrappers

  datatype Date = Date(year: int, month: int, day: int)

  predicate IsLeapYear(y: int) {
    y % 4 == 0 && (y % 100 != 0 || y % 400 == 0)
  }

  function DaysInMonth(y: int, m: int): (n: int)
    requires 0 <= m < 12
    ensures 28 <= n <= 31
  {
    if m == 1 then (if IsLeapYear(y) then 29 else 28)
    else if m == 3 || m == 5 || m == 8 || m == 10 then 30
    else 31
  }

  /** A real calendar day: a month 0..11 and a day within that month. */
  predicate Valid(d: Date) {
    0 <= d.month < 12 && 1 <= d.day <= DaysInMonth(d.year, d.month)
  }

  /** Days from 0000-01-01 to January 1st of year y (negative before it).
      The three quotients count the multiples of 4, 100 and 400 in [0, y). */
  function DaysBeforeYear(y: int): int {
    365 * y + (y + 3) / 4 - (y + 99) / 100 + (y + 399) / 400
  }

  /** Days from January 1st to the 1st of month m. */
  function DaysBeforeMonth(y: int, m: int): int
    requires 0 <= m < 12
  {
    var common :=
      if m == 0 then 0 else if m == 1 then 31 else if m == 2 then 59
      else if m == 3 then 90 else if m == 4 then 120 else if m == 5 then 151
      else if m == 6 then 181 else if m == 7 then 212 else if m == 8 then 243
      else if m == 9 then 273 else if m == 10 then 304 else 334;
    common + (if m >= 2 && IsLeapYear(y) then 1 else 0)
  }

  /** The day's position on the line of days, 0000-01-01 being day 0. */
  function DayNumber(d: Date): int
    requires 0 <= d.month < 12
  {
    DaysBeforeYear(d.year) + DaysBeforeMonth(d.year, d.month) + d.day - 1
  }

  /** `getDay()`: 0 for Sunday up to 6 for Saturday; 0000-01-01 was a
      Saturday in the proleptic Gregorian calendar. */
  function Weekday(d: Date): (r: int)
    requires 0 <= d.month < 12
    ensures 0 <= r < 7
  {
    (DayNumber(d) + 6) % 7
  }

  /** The 1st of the month after (y, m). */
  function NextMonthStart(y: int, m: int): (r: Date)
    requires 0 <= m < 12
    ensures Valid(r) && r.day == 1
  {
    if m == 11 then Date(y + 1, 0, 1) else Date(y, m + 1, 1)
  }

  /** The 1st of the month before (y, m). */
  function PrevMonthStart(y: int, m: int): (r: Date)
    requires 0 <= m < 12
    ensures Valid(r) && r.day == 1
  {
    if m == 0 then Date(y - 1, 11, 1) else Date(y, m - 1, 1)
  }

  /** Between consecutive years lie 365 days, 366 after a leap year. */
  lemma YearLength(y: int)
    ensures DaysBeforeYear(y + 1) - DaysBeforeYear(y) == if IsLeapYear(y) then 366 else 365
  {
    assert (y + 4) / 4 - (y + 3) / 4 == if y % 4 == 0 then 1 else 0;
    assert (y + 100) / 100 - (y + 99) / 100 == if y % 100 == 0 then 1 else 0;
    assert (y + 400) / 400 - (y + 399) / 400 == if y % 400 == 0 then 1 else 0;
  }

  /** The 1st of the next month is the month's length after the 1st of this one. */
  lemma NextMonthDayNumber(y: int, m: int)
    requires 0 <= m < 12
    ensures DayNumber(NextMonthStart(y, m)) == DayNumber(Date(y, m, 1)) + DaysInMonth(y, m)
  {
    if m == 11 {
      YearLength(y);
    }
  }

  /** The 1st of the previous month is that month's length before the 1st of this one. */
  lemma PrevMonthDayNumber(y: int, m: int)
    requires 0 <= m < 12
    ensures var p := PrevMonthStart(y, m);
      DayNumber(p) + DaysInMonth(p.year, p.month) == DayNumber(Date(y, m, 1))
  {
    var p := PrevMonthStart(y, m);
    NextMonthDayNumber(p.year, p.month);
  }

  /** Counting forward from the 1st of (y, m) when the day is at least 1. */
  function Forward(y: int, m: int, d: int): (r: Date)
    requires 0 <= m < 12 && 1 <= d
    ensures Valid(r)
    ensures DayNumber(r) == DayNumber(Date(y, m, 1)) + d - 1
    decreases d
  {
    var n := DaysInMonth(y, m);
    if d <= n then Date(y, m, d)
    else
      var next := NextMonthStart(y, m);
      NextMonthDayNumber(y, m);
      Forward(next.year, next.month, d - n)
  }

  /** Counting backward from the 1st of (y, m) when the day is below 1. */
  function Backward(y: int, m: int, d: int): (r: Date)
    requires 0 <= m < 12 && d < 1
    ensures Valid(r)
    ensures DayNumber(r) == DayNumber(Date(y, m, 1)) + d - 1
    decreases -d
  {
    var prev := PrevMonthStart(y, m);
    var d' := d + DaysInMonth(prev.year, prev.month);
    PrevMonthDayNumber(y, m);
    if d' >= 1 then Date(prev.year, prev.month, d')
    else Backward(prev.year, prev.month, d')
  }

  /** `new Date(y, m, d)` as a calendar day: a valid date lying d - 1 days
      after the 1st of month m of year y, the month first carried into the
      year with floor division. */
  function Normalize(y: int, m: int, d: int): (r: Date)
    ensures Valid(r)
    ensures DayNumber(r) == DayNumber(Date(y + m / 12, m % 12, 1)) + d - 1
  {
    var y', m' := y + m / 12, m % 12;
    if d < 1 then Backward(y', m', d) else Forward(y', m', d)
  }

  /** A valid date is its own normal form. */
  lemma NormalizeValid(d: Date)
    requires Valid(d)
    ensures Normalize(d.year, d.month, d.day) == d
  {
    assert d.month / 12 == 0 && d.month % 12 == d.month;
    assert Forward(d.year, d.month, d.day) == d;
  }

  /** A day up to four weeks before the 1st lands in the previous month. */
  lemma NormalizeIntoPrevMonth(y: int, m: int, d: int)
    requires 0 <= m < 12 && -27 <= d < 1
    ensures var p := PrevMonthStart(y, m);
      Normalize(y, m, d) == Date(p.year, p.month, d + DaysInMonth(p.year, p.month))
    ensures Normalize(y, m, d).month != m
  {
    assert m / 12 == 0 && m % 12 == m;
  }

  /** A day within the month is left as it is. */
  lemma NormalizeWithinMonth(y: int, m: int, d: int)
    requires 0 <= m < 12 && 1 <= d <= DaysInMonth(y, m)
    ensures Normalize(y, m, d) == Date(y, m, d)
  {
    assert m / 12 == 0 && m % 12 == m;
  }

  /** A day up to four weeks past the month's end lands in the next month. */
  lemma NormalizeIntoNextMonth(y: int, m: int, d: int)
    requires 0 <= m < 12 && DaysInMonth(y, m) < d <= DaysInMonth(y, m) + 28
    ensures var n := NextMonthStart(y, m);
      Normalize(y, m, d) == Date(n.year, n.month, d - DaysInMonth(y, m))
    ensures Normalize(y, m, d).month != m
  {
    assert m / 12 == 0 && m % 12 == m;
    ForwardIntoNextMonth(y, m, d);
  }

  lemma ForwardIntoNextMonth(y: int, m: int, d: int)
    requires 0 <= m < 12 && DaysInMonth(y, m) < d <= DaysInMonth(y, m) + 28
    ensures var n := NextMonthStart(y, m);
      Forward(y, m, d) == Date(n.year, n.month, d - DaysInMonth(y, m))
  {
    var n := NextMonthStart(y, m);
    assert d - DaysInMonth(y, m) <= DaysInMonth(n.year, n.month);
  }

  /** Day 0 of the next month is the last day of this month: the month
      length read off as `new Date(y, m + 1, 0).getDate()`. */
  lemma DayZeroIsLastDay(y: int, m: int)
    requires 0 <= m < 12
    ensures Normalize(y, m + 1, 0) == Date(y, m, DaysInMonth(y, m))
  {
  }

  /** February has 29 days exactly in leap years; every month has 28 to 31. */
  lemma FebruaryLength(y: int)
    ensures DaysInMonth(y, 1) == 29 <==> IsLeapYear(y)
    ensures DaysInMonth(y, 1) == 28 <==> !IsLeapYear(y)
  {
  }

  /** Consecutive day numbers fall on consecutive weekdays. */
  lemma WeekdayStep(a: Date, b: Date)
    requires 0 <= a.month < 12 && 0 <= b.month < 12
    ensures Weekday(b) == (Weekday(a) + DayNumber(b) - DayNumber(a)) % 7
  {
    var x, y := DayNumber(a) + 6, DayNumber(b) + 6;
    ModShift(y, x / 7);
    assert x % 7 + y - x == y - 7 * (x / 7);
  }

  lemma ModShift(y: int, k: int)
    ensures (y - 7 * k) % 7 == y % 7
  {
    assert y - 7 * k == 7 * (y / 7 - k) + y % 7;
  }

  /** 1 January 2024 was a Monday; 1 January 1970 a Thursday. */
  lemma WeekdayExamples()
    ensures Weekday(Date(2024, 0, 1)) == 1
    ensures Weekday(Date(1970, 0, 1)) == 4
  {
  }
}
