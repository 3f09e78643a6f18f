/**
 Pay periods, from the 1st to the 15th and from the 16th to the end of a month, and what a time sheet
 pays in one: the regular time of its days and the overtime of the weeks that end in it.
 */
module PayPeriods {
  import opened Gregorian
  import opened LocalTime
  import opened Text
  import opened ShiftLog
  import opened TimeLogEngine
  import opened TimeSheetDays
  import opened TimeSheet
  import Dashboard = AppointmentDashboard
  import CalendarNotifications

  // ----- Which days make a period

  predicate FirstHalf(n: int) {
    DateOfDay(n).day <= 15
  }

  function MonthStart(n: int): int {
    DayNumber(Date(DateOfDay(n).year, DateOfDay(n).month, 1))
  }

  function NextMonthStart(n: int): int {
    DayNumber(NextMonth(DateOfDay(n).year, DateOfDay(n).month))
  }

  /** First day, first day no longer in it, and pay day of the period of day `n`. */
  function FirstDay(n: int): int {
    if FirstHalf(n) then MonthStart(n) else MonthStart(n) + 15
  }

  function EndDay(n: int): int {
    if FirstHalf(n) then MonthStart(n) + 15 else NextMonthStart(n)
  }

  function PayDay(n: int): int {
    if FirstHalf(n) then MonthStart(n) + 19 else NextMonthStart(n) + 4
  }

  lemma MonthLength(y: int, m: int)
    requires 1 <= m <= 12
    ensures DayNumber(NextMonth(y, m)) - DayNumber(Date(y, m, 1)) == DaysInMonth(y, m) >= 28
  {
    if m == 12 {
      YearLength(y);
    }
    hide DayFromYear;
  }

  lemma DayOfMonth(n: int)
    ensures n == MonthStart(n) + DateOfDay(n).day - 1
    ensures MonthStart(n) <= n < NextMonthStart(n)
    ensures MonthStart(n) + 28 <= NextMonthStart(n)
  {
    hide DateOfDay;
    var d := DateOfDay(n);
    MonthIsDayRun(d.year, d.month, n);
    MonthLength(d.year, d.month);
  }

  /** Days of one month share its start, and are told apart by their number. */
  lemma SameMonth(n: int, k: int)
    ensures MonthStart(n) <= k < NextMonthStart(n)
       <==> MonthStart(k) == MonthStart(n) && NextMonthStart(k) == NextMonthStart(n)
  {
    hide DateOfDay, DayNumber;
    var d := DateOfDay(n);
    MonthIsDayRun(d.year, d.month, k);
    DayOfMonth(n);
    DayOfMonth(k);
  }

  /** A day lies in its own period, which is paid after it has ended. */
  lemma PeriodHoldsItsDay(n: int)
    ensures FirstDay(n) <= n < EndDay(n) < PayDay(n)
    ensures EndDay(n) - FirstDay(n) >= 13
  {
    hide DateOfDay, MonthStart, NextMonthStart;
    DayOfMonth(n);
  }

  /** Two days are in the same period exactly when one lies within the bounds of the other's. */
  lemma PeriodsPartitionDays(n: int, k: int)
    ensures FirstDay(n) <= k < EndDay(n)
       <==> FirstDay(k) == FirstDay(n) && EndDay(k) == EndDay(n) && PayDay(k) == PayDay(n)
  {
    hide DateOfDay, MonthStart, NextMonthStart;
    DayOfMonth(n);
    DayOfMonth(k);
    SameMonth(n, k);
  }

  lemma NextMonthBegins(n: int)
    ensures DateOfDay(NextMonthStart(n)).day == 1
  {
    hide DateOfDay, DayNumber;
    DayRoundTrip(NextMonth(DateOfDay(n).year, DateOfDay(n).month));
  }

  /** One period begins where the one before ends. */
  lemma PeriodsAbut(n: int)
    ensures FirstDay(EndDay(n)) == EndDay(n)
  {
    hide MonthStart, NextMonthStart, DateOfDay;
    DayOfMonth(n);
    DayOfMonth(EndDay(n));
    if FirstHalf(n) {
      SameMonth(n, EndDay(n));
    } else {
      NextMonthBegins(n);
    }
  }

  // ----- The bounds as instants

  datatype Bounds = Bounds(periodStart: int, periodEnd: int, payDayDate: int)

  function BoundsOf(z: Zone, n: int): Bounds {
    Bounds(Midnight(z, FirstDay(n)), Midnight(z, EndDay(n)), Midnight(z, PayDay(n)))
  }

  lemma DayInMonth(y: int, m: int, d: int)
    requires 1 <= m <= 12
    ensures DayNumber(Date(y, m, d)) == DayNumber(Date(y, m, 1)) + d - 1
  {
    hide DayFromYear, DaysBeforeMonth;
  }

  lemma ZerothDay(y: int, m: int)
    ensures MakeDay(y, m, 0) == MakeDay(y, m, 1) - 1
  {
  }

  /** Day 0 of the next month is the last of this one. */
  lemma LastDayEndsMonth(n: int)
    ensures var d := DateOfDay(n);
      DayNumber(Date(d.year, d.month, DateOfDay(MakeDay(d.year, d.month + 1, 0)).day)) + 1 == NextMonthStart(n)
  {
    hide DateOfDay, DayNumber;
    var d := DateOfDay(n);
    var last := MakeDay(d.year, d.month + 1, 0);
    NextMonthCarries(d.year, d.month);
    ZerothDay(d.year, d.month + 1);
    MonthLength(d.year, d.month);
    MonthIsDayRun(d.year, d.month, last);
    assert DayNumber(DateOfDay(last)) == last;
  }

  lemma StartIsRecent(n: int)
    requires DateOfDay(n).year > 100
    ensures MonthStart(n) > Dashboard.YEAR_100
  {
    hide DateOfDay, DayNumber;
    DayNumbersFollowDates(Date(100, 1, 1), Date(DateOfDay(n).year, DateOfDay(n).month, 1));
  }

  method GetPayPeriodBounds(z: Zone, t: int) returns (b: Bounds)
    requires Mountain(z) && DateOfDay(DayOf(z, t)).year > 100
    ensures b == BoundsOf(z, DayOf(z, t))
  {
    hide DateOfDay, DayNumber, Midnight, DayOf, MakeDay;
    Dashboard.YearReaches100(DayOf(z, t));
    var n := LocalDay(z, t);
    var local := DateOfDay(n);
    var lastDayOfMonth := DateOfDay(MakeDay(local.year, local.month + 1, 0)).day;
    LastDayEndsMonth(n);
    StartIsRecent(n);
    DayOfMonth(n);
    if local.day <= 15 {
      var start := CalendarNotifications.ZoneMidnightUtc(z, DayNumber(Date(local.year, local.month, 1)));
      DayInMonth(local.year, local.month, 15);
      var end := CalendarNotifications.ZoneMidnightUtc(z, DayNumber(Date(local.year, local.month, 15)) + 1);
      DayInMonth(local.year, local.month, 20);
      var pay := CalendarNotifications.ZoneMidnightUtc(z, DayNumber(Date(local.year, local.month, 20)));
      return Bounds(start, end, pay);
    }
    var nextMonth := if local.month == 12 then 1 else local.month + 1;
    var nextMonthYear := if local.month == 12 then local.year + 1 else local.year;
    DayInMonth(local.year, local.month, 16);
    var start := CalendarNotifications.ZoneMidnightUtc(z, DayNumber(Date(local.year, local.month, 16)));
    var end := CalendarNotifications.ZoneMidnightUtc(z, DayNumber(Date(local.year, local.month, lastDayOfMonth)) + 1);
    DayInMonth(nextMonthYear, nextMonth, 5);
    var pay := CalendarNotifications.ZoneMidnightUtc(z, DayNumber(Date(nextMonthYear, nextMonth, 5)));
    b := Bounds(start, end, pay);
  }

  lemma DateInMonth(y: int, m: int, d: int)
    requires ValidDate(Date(y, m, d))
    ensures DateOfDay(DayNumber(Date(y, m, 1)) + d - 1) == Date(y, m, d)
  {
    hide DateOfDay, DayNumber;
    DayInMonth(y, m, d);
    DayRoundTrip(Date(y, m, d));
  }

  /**
   The periods as the calendar has them: from the 1st to the 15th, paid on the 20th, and from the 16th
   to the last of the month, paid on the 5th of the next.
   */
  lemma PeriodDates(n: int)
    ensures var d := DateOfDay(n);
      && DateOfDay(FirstDay(n)) == Date(d.year, d.month, if d.day <= 15 then 1 else 16)
      && DateOfDay(EndDay(n) - 1) == Date(d.year, d.month, if d.day <= 15 then 15 else DaysInMonth(d.year, d.month))
      && DateOfDay(PayDay(n)) == if d.day <= 15 then Date(d.year, d.month, 20)
                                 else if d.month < 12 then Date(d.year, d.month + 1, 5) else Date(d.year + 1, 1, 5)
  {
    hide DateOfDay, DayNumber;
    var d := DateOfDay(n);
    DayOfMonth(n);
    MonthLength(d.year, d.month);
    DateInMonth(d.year, d.month, 1);
    DateInMonth(d.year, d.month, 15);
    DateInMonth(d.year, d.month, 16);
    DateInMonth(d.year, d.month, 20);
    DateInMonth(d.year, d.month, DaysInMonth(d.year, d.month));
    var next := NextMonth(d.year, d.month);
    MonthLength(next.year, next.month);
    DateInMonth(next.year, next.month, 5);
  }

  lemma SameMidnight(z: Zone, a: int, b: int)
    requires TwoOffsets(z)
    ensures Midnight(z, a) == Midnight(z, b) <==> a == b
  {
    if a < b {
      MidnightsAscend(z, a, b);
    } else if b < a {
      MidnightsAscend(z, b, a);
    }
  }

  /** An instant lies within the bounds of exactly the instants of its own period. */
  lemma PeriodsPartitionTime(z: Zone, s: int, t: int)
    requires TwoOffsets(z) && SwitchesAtTwo(z)
    ensures var b := BoundsOf(z, DayOf(z, s));
      b.periodStart <= t < b.periodEnd <==> BoundsOf(z, DayOf(z, t)) == b
    ensures BoundsOf(z, DayOf(z, t)).periodEnd < BoundsOf(z, DayOf(z, t)).payDayDate
  {
    hide FirstDay, EndDay, PayDay, Midnight, DayOf;
    var n, k := DayOf(z, s), DayOf(z, t);
    StartsAtMidnight(z, FirstDay(n), t);
    StartsAtMidnight(z, EndDay(n), t);
    PeriodsPartitionDays(n, k);
    PeriodHoldsItsDay(n);
    PeriodHoldsItsDay(k);
    MidnightsAscend(z, EndDay(k), PayDay(k));
    SameMidnight(z, FirstDay(n), FirstDay(k));
    SameMidnight(z, EndDay(n), EndDay(k));
  }

  /** The day a period is asked for by: the 10th for the first half of a month, the 20th for the second. */
  function Anchor(y: int, m: int, firstHalf: bool): int
    requires 1 <= m <= 12
  {
    DayNumber(Date(y, m, if firstHalf then 10 else 20))
  }

  lemma MonthStartOf(n: int)
    ensures MonthStart(n) == DayNumber(Date(DateOfDay(n).year, DateOfDay(n).month, 1))
  {
  }

  /** Asked for by its month and half, a period has the bounds that its own days have. */
  lemma AddressedPeriod(n: int)
    ensures var d := DateOfDay(n);
      var a := Anchor(d.year, d.month, d.day <= 15);
      FirstDay(a) == FirstDay(n) && EndDay(a) == EndDay(n) && PayDay(a) == PayDay(n)
  {
    hide DateOfDay, MonthStart, NextMonthStart, DayNumber;
    var d := DateOfDay(n);
    var a := Anchor(d.year, d.month, d.day <= 15);
    DayOfMonth(n);
    DayInMonth(d.year, d.month, if d.day <= 15 then 10 else 20);
    assert MonthStart(n) == DayNumber(Date(d.year, d.month, 1)) by { MonthStartOf(n); }
    SameMonth(n, a);
    DayOfMonth(a);
  }

  // ----- Regular time

  /** The loop over the keys, in whatever order they come. */
  method SumBetween(keys: set<int>, quantity: int -> int, first: int, end: int) returns (total: int)
    requires first <= end
    ensures total == SumDays(quantity, keys, first, end - first)
  {
    hide SumDays;
    total := 0;
    var todo := keys;
    NothingSeen(quantity, first, end - first);
    assert keys - todo == {};
    while todo != {}
      invariant todo <= keys
      invariant total == SumDays(quantity, keys - todo, first, end - first)
      decreases |todo|
    {
      EmptyOrNot(todo);
      var date :| date in todo;
      OneMoreDay(quantity, keys - todo, date, first, end - first);
      assert keys - (todo - {date}) == keys - todo + {date};
      if first <= date < end {
        total := total + quantity(date);
      }
      todo := todo - {date};
    }
    assert keys - {} == keys;
  }

  /** `sumRegularSecondsInPeriod`: the days from the period's first to before its end. */
  method SumRegularInPeriod(z: Zone, c: Calendar, b: Bounds) returns (total: int)
    requires Mountain(z) && DayOf(z, b.periodStart) >= Dashboard.YEAR_100 && b.periodStart <= b.periodEnd
    ensures DayOf(z, b.periodStart) <= DayOf(z, b.periodEnd)
    ensures total
         == SumDays(Totals(c), c.Keys, DayOf(z, b.periodStart), DayOf(z, b.periodEnd) - DayOf(z, b.periodStart))
  {
    hide DayOf, SumDays, TotalOn;
    DaysAscend(z, b.periodStart, b.periodEnd);
    var first := LocalDay(z, b.periodStart);
    var end := LocalDay(z, b.periodEnd);
    total := SumBetween(c.Keys, Totals(c), first, end);
  }

  /** What is paid as regular time for a period is exactly the time worked in it. */
  lemma RegularIsWorkedTime(z: Zone, log: Log, now: int, n: int)
    requires TwoOffsets(z) && SwitchesAtTwo(z) && WellFormed(log) && UpTo(log, now)
    requires BelowCap(log, now, BoundsOf(z, n).periodEnd)
    ensures var c, b := CalendarOf(z, log, now), BoundsOf(z, n);
      && DayOf(z, b.periodStart) <= DayOf(z, b.periodEnd)
      && SumDays(Totals(c), c.Keys, DayOf(z, b.periodStart), DayOf(z, b.periodEnd) - DayOf(z, b.periodStart))
         == PhaseTime(log, WORKING, now, b.periodStart, b.periodEnd)
  {
    hide CalendarOf, PhaseTime, Midnight, BelowCap, UpTo, Parse, InTime, SumDays, FirstDay, EndDay, PayDay, DayOf;
    PeriodHoldsItsDay(n);
    MidnightBeginsDay(z, FirstDay(n));
    MidnightBeginsDay(z, EndDay(n));
    DaysAddUp(z, log, now, FirstDay(n), EndDay(n) - FirstDay(n));
  }

  lemma BoundsInOrder(z: Zone, n: int)
    requires TwoOffsets(z) && SwitchesAtTwo(z)
    ensures BoundsOf(z, n).periodStart < BoundsOf(z, n).periodEnd < BoundsOf(z, n).payDayDate
  {
    hide FirstDay, EndDay, PayDay, Midnight;
    PeriodHoldsItsDay(n);
    MidnightsAscend(z, FirstDay(n), EndDay(n));
    MidnightsAscend(z, EndDay(n), PayDay(n));
  }

  // ----- Overtime

  const WEEKLY_OT_THRESHOLD: int := 40 * HOUR
  const WEEKLY_OVERAGE_FLAG: int := 43 * HOUR

  /** 16 August 2026, midnight in summer time. */
  const EFFECTIVE_DAY: int := DayNumber(Date(2026, 8, 16))
  const WEEKLY_OT_EFFECTIVE_FROM: int := EFFECTIVE_DAY * DAY + 6 * HOUR

  function Overtime(weeks: map<int, int>): int -> int {
    saturday => if saturday in weeks then Max(0, weeks[saturday] - WEEKLY_OT_THRESHOLD) else 0
  }

  function Premium(weeks: map<int, int>, first: int, end: int): int {
    if first <= end then SumDays(Overtime(weeks), weeks.Keys, first, end - first) else 0
  }

  function Flagged(weeks: map<int, int>): set<int> {
    set saturday | saturday in weeks && weeks[saturday] > WEEKLY_OVERAGE_FLAG
  }

  /** `weeks` are the calendar's entries that show a week's total. */
  method ComputeWeeklyOvertime(z: Zone, weeks: map<int, int>, b: Bounds, flagExempt: bool)
    returns (otPremium: int, flaggedWeeks: set<int>)
    requires Mountain(z) && DayOf(z, b.periodStart) >= Dashboard.YEAR_100 && b.periodStart <= b.periodEnd
    ensures flaggedWeeks == if flagExempt then {} else Flagged(weeks)
    ensures otPremium == if b.periodStart >= WEEKLY_OT_EFFECTIVE_FROM
                         then Premium(weeks, DayOf(z, b.periodStart), DayOf(z, b.periodEnd)) else 0
  {
    hide DayOf, SumDays, Overtime;
    DaysAscend(z, b.periodStart, b.periodEnd);
    var first := LocalDay(z, b.periodStart);
    var end := LocalDay(z, b.periodEnd);
    flaggedWeeks := if flagExempt then {} else Flagged(weeks);
    if b.periodStart < WEEKLY_OT_EFFECTIVE_FROM {
      return 0, flaggedWeeks;
    }
    otPremium := SumBetween(weeks.Keys, Overtime(weeks), first, end);
  }

  lemma MidnightAround(z: Zone, n: int)
    requires Mountain(z)
    ensures n * DAY + 6 * HOUR <= Midnight(z, n) <= n * DAY + 7 * HOUR
  {
  }

  lemma EffectiveDayIsSunday()
    ensures SaturdayOf(EFFECTIVE_DAY) - 6 == EFFECTIVE_DAY == FirstDay(EFFECTIVE_DAY)
  {
    hide DateOfDay;
    DayRoundTrip(Date(2026, 8, 16));
  }

  /** The rule begins with a pay period and with a week, so no week is paid overtime that began before it. */
  lemma OvertimeBeginsWithAWeek(z: Zone, n: int, saturday: int)
    requires Mountain(z) && SaturdayOf(saturday) == saturday
    requires BoundsOf(z, n).periodStart >= WEEKLY_OT_EFFECTIVE_FROM && FirstDay(n) <= saturday
    ensures SaturdayOf(EFFECTIVE_DAY) - 6 == EFFECTIVE_DAY == FirstDay(EFFECTIVE_DAY)
    ensures Midnight(z, saturday - 6) >= WEEKLY_OT_EFFECTIVE_FROM
  {
    hide FirstDay, EndDay, PayDay, DateOfDay, DayNumber, Midnight;
    EffectiveDayIsSunday();
    MidnightAround(z, FirstDay(n));
    assert FirstDay(n) >= EFFECTIVE_DAY;
    assert saturday - 6 >= EFFECTIVE_DAY;
    MidnightAround(z, saturday - 6);
  }
}
