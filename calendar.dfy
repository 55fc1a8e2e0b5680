/** The part of JavaScript's `Date` the range picker relies on: a calendar date in the
    proleptic Gregorian calendar (months counted from 0), `setMonth` and `setDate` with their
    overflow into neighbouring months, and `getDay`. Time of day and time zones are not
    modelled. */
module Calendar {

  datatype Date = Date(year: int, month: int, day: int)

  predicate IsLeap(year: int) {
    year % 4 == 0 && (year % 100 != 0 || year % 400 == 0)
  }

  function DaysIn(year: int, month: int): (n: int)
    requires 0 <= month < 12
    ensures 28 <= n <= 31
  {
    if month == 1 then (if IsLeap(year) then 29 else 28)
    else if month == 3 || month == 5 || month == 8 || month == 10 then 30
    else 31
  }

  predicate Valid(d: Date) {
    0 <= d.month < 12 && 1 <= d.day <= DaysIn(d.year, d.month)
  }

  /** Months since year 0: consecutive months have consecutive indices. */
  function MonthIndex(d: Date): int {
    12 * d.year + d.month
  }

  /** The first day of the month after `d`'s. */
  function FirstOfNextMonth(d: Date): (r: Date)
    requires Valid(d)
    ensures Valid(r) && r.day == 1 && MonthIndex(r) == MonthIndex(d) + 1
  {
    if d.month == 11 then Date(d.year + 1, 0, 1) else Date(d.year, d.month + 1, 1)
  }

  /** The last day of the month before `d`'s. */
  function LastOfPrevMonth(d: Date): (r: Date)
    requires Valid(d)
    ensures Valid(r) && MonthIndex(r) == MonthIndex(d) - 1
    ensures r.day == DaysIn(r.year, r.month)
  {
    if d.month == 0 then Date(d.year - 1, 11, 31) else Date(d.year, d.month - 1, DaysIn(d.year, d.month - 1))
  }

  /** `date.setMonth(month)`: the month may be outside 0..11 and moves the year; the day of
      the month is kept, and a day the new month does not have runs on into the next one. */
  function SetMonth(d: Date, month: int): (r: Date)
    requires Valid(d)
    ensures Valid(r)
    ensures r.day == d.day ==> MonthIndex(r) == 12 * d.year + month
    ensures r.day != d.day ==> MonthIndex(r) == 12 * d.year + month + 1 && r.day == d.day - DaysIn(d.year + month / 12, month % 12)
  {
    var target := Date(d.year + month / 12, month % 12, 1);
    if d.day <= DaysIn(target.year, target.month) then target.(day := d.day)
    else
      var next := FirstOfNextMonth(target);
      next.(day := d.day - DaysIn(target.year, target.month))
  }

  /** `date.setDate(day)` for the days the widgets use: 0 is the last day of the previous
      month, one past the end is the first day of the next month. */
  function SetDate(d: Date, day: int): (r: Date)
    requires Valid(d) && 0 <= day <= DaysIn(d.year, d.month) + 1
    ensures Valid(r)
  {
    if day == 0 then LastOfPrevMonth(d)
    else if day == DaysIn(d.year, d.month) + 1 then FirstOfNextMonth(d)
    else d.(day := day)
  }

  /** The part of Sakamoto's weekday formula that depends on the year and month only (`/` is
      floor division for a positive divisor). */
  function MonthOffset(year: int, month: int): int
    requires 0 <= month < 12
  {
    var t := [0, 3, 2, 5, 0, 3, 5, 1, 4, 6, 2, 4];
    var y := if month < 2 then year - 1 else year;
    y + y / 4 - y / 100 + y / 400 + t[month]
  }

  /** `date.getDay()`: 0 for Sunday through 6 for Saturday. */
  function Weekday(d: Date): (w: int)
    requires Valid(d)
    ensures 0 <= w < 7
  {
    (MonthOffset(d.year, d.month) + d.day) % 7
  }

  /** The weekday moves on by one from each day to the next within a month. */
  lemma WeekdayNextDay(d: Date)
    requires Valid(d) && d.day < DaysIn(d.year, d.month)
    ensures Weekday(d.(day := d.day + 1)) == (Weekday(d) + 1) % 7
  {
    var x := MonthOffset(d.year, d.month) + d.day;
    assert Weekday(d.(day := d.day + 1)) == (x + 1) % 7;
    ModSevenNext(x);
  }

  lemma ModSevenNext(x: int)
    ensures (x + 1) % 7 == (x % 7 + 1) % 7
  {
    var q, r := x / 7, x % 7;
    assert x == 7 * q + r && 0 <= r < 7;
    if r == 6 {
      assert x + 1 == 7 * (q + 1);
    } else {
      assert x + 1 == 7 * q + (r + 1);
    }
  }
}
