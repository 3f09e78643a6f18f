/**
 The proleptic Gregorian day count behind JavaScript's `Date` (ECMA-262, section 21.4.1):
 `Date.UTC` on one side, `getUTCFullYear`/`getUTCMonth`/`getUTCDate` on the other. Days are
 counted from 1 January 1970, months run from 1 to 12.
 */
module Gregorian {

  datatype Date = Date(year: int, month: int, day: int)

  const DAY: int := 86_400_000
  const HOUR: int := 3_600_000
  const MINUTE: int := 60_000
  const SECOND: int := 1_000

  predicate IsLeap(y: int) {
    y % 4 == 0 && (y % 100 != 0 || y % 400 == 0)
  }

  /** Days of the year that come before the given month (1 to 12); month 13 gives the year's length. */
  function DaysBeforeMonth(m: int, leap: bool): int
    requires 1 <= m <= 13
  {
    (match m
     case 1 => 0 case 2 => 31 case 3 => 59 case 4 => 90 case 5 => 120 case 6 => 151 case 7 => 181
     case 8 => 212 case 9 => 243 case 10 => 273 case 11 => 304 case 12 => 334 case _ => 365)
    + (if leap && m > 2 then 1 else 0)
  }

  function DaysInMonth(y: int, m: int): int
    requires 1 <= m <= 12
  {
    DaysBeforeMonth(m + 1, IsLeap(y)) - DaysBeforeMonth(m, IsLeap(y))
  }

  predicate ValidDate(d: Date) {
    1 <= d.month <= 12 && 1 <= d.day <= DaysInMonth(d.year, d.month)
  }

  /** DayFromYear of ECMA-262: the day number of 1 January. */
  function DayFromYear(y: int): int {
    365 * (y - 1970) + (y - 1969) / 4 - (y - 1901) / 100 + (y - 1601) / 400
  }

  /** The day number of a date whose month is in range; the day of the month is simply counted on. */
  function DayNumber(d: Date): int
    requires 1 <= d.month <= 12
  {
    DayFromYear(d.year) + DaysBeforeMonth(d.month, IsLeap(d.year)) + d.day - 1
  }

  /** MakeDay of ECMA-262: months outside 1..12 carry into the year. */
  function MakeDay(y: int, m: int, d: int): int {
    DayNumber(Date(y + (m - 1) / 12, (m - 1) % 12 + 1, d))
  }

  /** `Date.UTC` reads the years 0 to 99 as 1900 to 1999. */
  function FullYear(y: int): int {
    if 0 <= y <= 99 then 1900 + y else y
  }

  /** `Date.UTC`, with the month counted from 1. */
  function Utc(y: int, m: int, d: int, hour: int, minute: int, second: int): int {
    MakeDay(FullYear(y), m, d) * DAY + hour * HOUR + minute * MINUTE + second * SECOND
  }

  /** Calendar order. */
  predicate Earlier(a: Date, b: Date) {
    a.year < b.year
    || (a.year == b.year && (a.month < b.month || (a.month == b.month && a.day < b.day)))
  }

  lemma Step4(y: int)
    ensures (y - 1968) / 4 - (y - 1969) / 4 == if y % 4 == 0 then 1 else 0
  {
  }

  lemma Step100(y: int)
    ensures (y - 1900) / 100 - (y - 1901) / 100 == if y % 100 == 0 then 1 else 0
  {
  }

  lemma Step400(y: int)
    ensures (y - 1600) / 400 - (y - 1601) / 400 == if y % 400 == 0 then 1 else 0
    ensures y % 400 == 0 ==> y % 100 == 0
    ensures y % 100 == 0 ==> y % 4 == 0
  {
    assert y == 100 * (y / 100) + y % 100 == 4 * (25 * (y / 100)) + y % 100;
    assert y == 400 * (y / 400) + y % 400 == 100 * (4 * (y / 400)) + y % 400;
  }

  lemma YearLength(y: int)
    ensures DayFromYear(y + 1) == DayFromYear(y) + DaysBeforeMonth(13, IsLeap(y))
  {
    Step4(y);
    Step100(y);
    Step400(y);
  }

  lemma DayQuotient(w: int, q: int, r: int)
    requires w == q * DAY + r && 0 <= r < DAY
    ensures w / DAY == q && w % DAY == r
  {
  }

  lemma SecondRemainder(w: int, q: int, r: int)
    requires w == q * SECOND + r && 0 <= r < SECOND
    ensures w % SECOND == r
  {
  }

  lemma {:induction false} YearsAscend(a: int, b: int)
    requires a <= b
    ensures DayFromYear(a) + 365 * (b - a) <= DayFromYear(b) <= DayFromYear(a) + 366 * (b - a)
    decreases b - a
  {
    hide DayFromYear;
    if a < b {
      YearsAscend(a, b - 1);
      YearLength(b - 1);
    }
  }

  /** For a month in range nothing carries. */
  lemma NoCarry(y: int, m: int, d: int)
    requires 1 <= m <= 12
    ensures MakeDay(y, m, d) == DayNumber(Date(y, m, d))
  {
    hide DayNumber;
    assert (m - 1) / 12 == 0 && (m - 1) % 12 + 1 == m;
  }

  lemma MonthsAscend(m: int, k: int, leap: bool)
    requires 1 <= m <= k <= 12
    ensures 0 <= DaysBeforeMonth(m, leap) < DaysBeforeMonth(m + 1, leap) <= DaysBeforeMonth(k + 1, leap)
            <= DaysBeforeMonth(13, leap)
  {
  }

  /** A valid date lies inside its own year. */
  lemma WithinYear(d: Date)
    requires ValidDate(d)
    ensures DayFromYear(d.year) <= DayNumber(d) < DayFromYear(d.year + 1)
  {
    hide DayFromYear;
    YearLength(d.year);
    MonthsAscend(d.month, d.month, IsLeap(d.year));
  }

  /** The year holding day `n`, searched upward from a year known not to be too late. */
  function YearFrom(n: int, y: int): (r: int)
    requires DayFromYear(y) <= n
    ensures DayFromYear(r) <= n < DayFromYear(r + 1)
    decreases n - DayFromYear(y)
  {
    YearLength(y);
    if n < DayFromYear(y + 1) then y else YearFrom(n, y + 1)
  }

  /** YearFromTime of ECMA-262. */
  function YearOfDay(n: int): (r: int)
    ensures DayFromYear(r) <= n < DayFromYear(r + 1)
  {
    var early := 1969 + (if n < 0 then n / 365 else 0);
    assert DayFromYear(early) <= n by {
      YearsAscend(early, 1970);
      assert DayFromYear(1970) == 0;
    }
    YearFrom(n, early)
  }

  function MonthOfDayInYear(k: int, leap: bool): (m: int)
    requires 0 <= k < DaysBeforeMonth(13, leap)
    ensures 1 <= m <= 12 && DaysBeforeMonth(m, leap) <= k < DaysBeforeMonth(m + 1, leap)
  {
    var shift := if leap then 1 else 0;
    if k < 31 then 1 else if k < 59 + shift then 2 else if k < 90 + shift then 3
    else if k < 120 + shift then 4 else if k < 151 + shift then 5 else if k < 181 + shift then 6
    else if k < 212 + shift then 7 else if k < 243 + shift then 8 else if k < 273 + shift then 9
    else if k < 304 + shift then 10 else if k < 334 + shift then 11 else 12
  }

  /** The calendar date of day `n`: what the `getUTC...` accessors read. Its number is `n` again. */
  function DateOfDay(n: int): (d: Date)
    ensures ValidDate(d) && DayNumber(d) == n
  {
    var y := YearOfDay(n);
    var k := n - DayFromYear(y);
    YearLength(y);
    var m := MonthOfDayInYear(k, IsLeap(y));
    Date(y, m, k - DaysBeforeMonth(m, IsLeap(y)) + 1)
  }

  lemma EarlierYear(a: Date, b: Date)
    requires ValidDate(a) && ValidDate(b) && a.year < b.year
    ensures DayNumber(a) < DayNumber(b)
  {
    hide DayFromYear, DayNumber, ValidDate;
    WithinYear(a);
    WithinYear(b);
    YearsAscend(a.year + 1, b.year);
  }

  lemma EarlierInYear(a: Date, b: Date)
    requires ValidDate(a) && ValidDate(b) && a.year == b.year
    requires a.month < b.month || (a.month == b.month && a.day < b.day)
    ensures DayNumber(a) < DayNumber(b)
  {
    hide DayFromYear;
    if a.month < b.month {
      MonthsAscend(a.month, b.month - 1, IsLeap(a.year));
    }
  }

  lemma EarlierIsLess(a: Date, b: Date)
    requires ValidDate(a) && ValidDate(b) && Earlier(a, b)
    ensures DayNumber(a) < DayNumber(b)
  {
    hide DayNumber, ValidDate;
    if a.year < b.year {
      EarlierYear(a, b);
    } else {
      EarlierInYear(a, b);
    }
  }

  /** Day numbers follow calendar order. */
  lemma DayNumbersFollowDates(a: Date, b: Date)
    requires ValidDate(a) && ValidDate(b)
    ensures Earlier(a, b) <==> DayNumber(a) < DayNumber(b)
  {
    hide DayNumber, ValidDate;
    if Earlier(a, b) {
      EarlierIsLess(a, b);
    } else if Earlier(b, a) {
      EarlierIsLess(b, a);
    } else {
      assert a == b;
    }
  }

  /** Every valid date is read back from its day number. */
  lemma DayRoundTrip(d: Date)
    requires ValidDate(d)
    ensures DateOfDay(DayNumber(d)) == d
  {
    hide DayNumber, DateOfDay;
    var e := DateOfDay(DayNumber(d));
    DayNumbersFollowDates(d, e);
    DayNumbersFollowDates(e, d);
  }

  /** Different days have different dates. */
  lemma DatesAreDays(a: int, b: int)
    ensures DateOfDay(a) == DateOfDay(b) <==> a == b
  {
    hide DateOfDay, DayNumber;
    assert DayNumber(DateOfDay(a)) == a && DayNumber(DateOfDay(b)) == b;
  }

  /** The first day of the month after `m`; month 13 is January of the next year. */
  function NextMonth(y: int, m: int): Date {
    if m == 12 then Date(y + 1, 1, 1) else Date(y, m + 1, 1)
  }

  lemma NextMonthCarries(y: int, m: int)
    requires 1 <= m <= 12
    ensures MakeDay(y, m + 1, 1) == DayNumber(NextMonth(y, m))
  {
    hide DayNumber;
    assert m == 12 ==> m / 12 == 1 && m % 12 == 0;
    assert m < 12 ==> m / 12 == 0 && m % 12 == m;
  }

  /** A month is the run of days from its first to the day before the next month's first. */
  lemma MonthIsDayRun(y: int, m: int, n: int)
    requires 1 <= m <= 12
    ensures (DateOfDay(n).year == y && DateOfDay(n).month == m)
            <==> DayNumber(Date(y, m, 1)) <= n < DayNumber(NextMonth(y, m))
  {
    hide DayNumber, DateOfDay;
    var d := DateOfDay(n);
    DayNumbersFollowDates(d, Date(y, m, 1));
    DayNumbersFollowDates(d, NextMonth(y, m));
  }
}
