/**
 What a pay period pays, from the calendar of its own window, against the time worked: in one period,
 in each of its weeks, and over periods that follow each other.
 */
module Payroll {
  import opened Text
  import opened Gregorian
  import opened LocalTime
  import opened ShiftLog
  import opened ShiftHandlers
  import opened TimeLogEngine
  import opened TimeSheetDays
  import opened TimeSheet
  import opened PayPeriods
  import opened PayrollWindow
  import Dashboard = AppointmentDashboard

  // ----- When the window loses nothing

  /** `NothingLost`, for the places at which the window begins and ends. */
  ghost predicate LosesNothing(z: Zone, log: Log, lookback: int, end: int, now: int, first: int, count: nat) {
    forall k, m, j | Splits(log, lookback, end, k, m, j) :: NothingLost(z, log, k, m, j, now, first, count)
  }

  lemma StartsOnce(log: Log, k: nat, n: nat, t: int)
    requires k <= |log| && n <= |log| && Starts(log, k, t) && Starts(log, n, t)
    ensures k == n
  {
    assert k < |log| ==> log[k].at >= t;
    assert n < |log| ==> log[n].at >= t;
  }

  lemma SplitsOnce(log: Log, lookback: int, end: int, k: nat, m: nat, j: nat, k': nat, m': nat, j': nat)
    requires Splits(log, lookback, end, k, m, j) && Splits(log, lookback, end, k', m', j')
    ensures k == k' && m == m' && j == j'
  {
    hide Window, OffFrom;
    StartsOnce(log, k, k', lookback);
    StartsOnce(log, j, j', end);
  }

  /** No range of days is paid for more than was worked; all of it is paid exactly if nothing is lost. */
  lemma PaidInFullExactlyWhen(z: Zone, log: Log, lookback: int, end: int, now: int, first: int, count: nat)
    requires TwoOffsets(z) && SwitchesAtTwo(z) && WellFormed(log) && UpTo(log, now)
    requires lookback <= end && Midnight(z, first + count) <= end
    requires BelowCap(Window(log, lookback, end), now, Midnight(z, first + count))
    ensures PaidFor(z, log, lookback, end, now, first, count) <= WorkedIn(z, log, now, first, count)
    ensures PaidFor(z, log, lookback, end, now, first, count) == WorkedIn(z, log, now, first, count)
       <==> LosesNothing(z, log, lookback, end, now, first, count)
  {
    hide WellFormed, UpTo, BelowCap, Window, Midnight, PaidFor, WorkedIn, NothingLost, Splits;
    var k, m, j := PaidIsWorkedExactlyWhen(z, log, lookback, end, now, first, count);
    forall k': nat, m': nat, j': nat | Splits(log, lookback, end, k', m', j')
      ensures k' == k && m' == m && j' == j
    {
      SplitsOnce(log, lookback, end, k, m, j, k', m', j');
    }
  }

  lemma OffAtSplit(log: Log, lookback: int, end: int, k: nat, m: nat, j: nat)
    requires InTime(log) && OffBefore(log, lookback) && Splits(log, lookback, end, k, m, j)
    ensures m == k && Parse(log[..k]) == Some(Off)
  {
    hide InTime, Since, Parse, Window;
    var n := SinceIsTail(log, lookback);
    StartsOnce(log, k, n, lookback);
  }

  lemma NothingWorkedBefore(head: Log, now: int, lo: int, hi: int)
    requires Parse(head) == Some(Off) && InTime(head) && UpTo(head, lo) && lo <= hi
    ensures PhaseTime(head, WORKING, now, lo, hi) == 0
  {
    if head != [] {
      FrontInTime(head);
      NothingYet(head[..|head| - 1], WORKING, head[|head| - 1].at, lo, hi);
    }
  }

  lemma HeadUpTo(log: Log, k: nat, t: int)
    requires InTime(log) && k <= |log| && Starts(log, k, t)
    ensures InTime(log[..k]) && UpTo(log[..k], t)
  {
  }

  lemma NoStray(z: Zone, rest: Log, now: int, first: int, count: nat)
    ensures FreeDays(z, rest, [], now, first, count)
  {
    hide Midnight, PhaseTime;
    assert Breaks([], now) == [];
    forall day ensures Stray(z, [], now, day) == 0 {
    }
  }

  lemma HeadIsUpTo(head: Log, s: int, t: int)
    requires UpTo(head, s) && s <= t
    ensures UpTo(head, t)
  {
  }

  /** Nothing is lost if nobody is on shift at the look-back and the days begin no earlier. */
  lemma OffLosesNothing(z: Zone, log: Log, lookback: int, end: int, now: int, first: int, count: nat)
    requires TwoOffsets(z) && WellFormed(log) && OffBefore(log, lookback) && lookback <= Midnight(z, first)
    ensures LosesNothing(z, log, lookback, end, now, first, count)
  {
    hide InTime, OffBefore, Midnight, PhaseTime, FreeDays, Window, Parse, OffFrom;
    var lo, hi := Midnight(z, first), Midnight(z, first + count);
    if count > 0 {
      MidnightsAscend(z, first, first + count);
    }
    forall k: nat, m: nat, j: nat | Splits(log, lookback, end, k, m, j)
      ensures NothingLost(z, log, k, m, j, now, first, count)
    {
      OffAtSplit(log, lookback, end, k, m, j);
      HeadUpTo(log, k, lookback);
      HeadIsUpTo(log[..k], lookback, lo);
      NothingWorkedBefore(log[..k], now, lo, hi);
      assert log[k..m] == [];
      NoStray(z, log[m..j], now, first, count);
    }
  }

  lemma HeadReaches(log: Log, m: nat, now: int)
    requires InTime(log) && UpTo(log, now) && m <= |log|
    ensures UpTo(log[..m], now)
  {
    if m > 0 && m < |log| {
      assert log[m - 1].at <= log[|log| - 1].at;
    }
  }

  lemma {:induction false} GrowsPast(log: Log, k: nat, i: nat, lookback: int, t: int, lo: int, hi: int)
    requires 0 < k <= i <= |log| && InTime(log) && log[k - 1].at < lookback < t
    requires Parse(log[..k]) == Some(On) && (k < i ==> log[k].at > lookback)
    requires lo <= lookback < hi
    ensures PhaseTime(log[..i], WORKING, t, lo, hi) > 0
    decreases i
  {
    var head := log[..i];
    assert head[..|head| - 1] == log[..i - 1] && head[|head| - 1] == log[i - 1];
    hide Parse;
    if i == k {
      PhaseTimeIsPositive(log[..i - 1], WORKING, log[i - 1].at, lo, hi);
    } else {
      assert log[k].at <= log[i - 1].at;
      GrowsPast(log, k, i - 1, lookback, log[i - 1].at, lo, hi);
    }
  }

  lemma WorkReachesPast(log: Log, k: nat, m: nat, j: nat, lookback: int, end: int, now: int, lo: int, hi: int)
    requires 0 < k <= m <= j <= |log|
    requires Starts(log, k, lookback) && InTime(log) && UpTo(log, now)
    requires Parse(log[..k]) == Some(On) && (k < |log| ==> log[k].at > lookback)
    requires lo <= lookback < hi <= end && lookback < now
    ensures PhaseTime(log[..m], WORKING, now, lo, hi) > 0
  {
    hide Parse, PhaseTime, InTime;
    HeadReaches(log, m, now);
    GrowsPast(log, k, m, lookback, now, lo, hi);
  }

  /** Someone at work at the look-back loses time of every range of days that the look-back lies in. */
  lemma WorkAcrossIsLost(z: Zone, log: Log, lookback: int, end: int, now: int, first: int, count: nat, k: nat)
    requires TwoOffsets(z) && SwitchesAtTwo(z) && WellFormed(log) && UpTo(log, now)
    requires Midnight(z, first) <= lookback < Midnight(z, first + count) <= end && lookback < now
    requires BelowCap(Window(log, lookback, end), now, Midnight(z, first + count))
    requires 0 < k <= |log| && Starts(log, k, lookback) && Parse(log[..k]) == Some(On)
    requires k < |log| ==> log[k].at > lookback
    ensures PaidFor(z, log, lookback, end, now, first, count) < WorkedIn(z, log, now, first, count)
  {
    var lo, hi := Midnight(z, first), Midnight(z, first + count);
    hide Midnight, BelowCap, UpTo, InTime, PaidFor, WorkedIn, FreeDays, PhaseTime, Window;
    var k', m, j := PaidIsWorkedExactlyWhen(z, log, lookback, end, now, first, count);
    StartsOnce(log, k, k', lookback);
    WorkReachesPast(log, k, m, j, lookback, end, now, lo, hi);
  }

  // ----- Weeks

  /** The time over the threshold, for the week that ends on the day, if one does. */
  function Over(saturday: int, week: int): int {
    if SaturdayOf(saturday) == saturday then Max(0, week - WEEKLY_OT_THRESHOLD) else 0
  }

  /** The overtime a calendar shows for the weeks ending on the days of a range. */
  function SumOver(c: Calendar, first: int, count: nat): int {
    if count == 0 then 0
    else
      var day := first + count - 1;
      SumOver(c, first, count - 1) + Over(day, SumDays(Totals(c), c.Keys, day - 6, 7))
  }

  /** The overtime according to the time worked. */
  function SumOwed(z: Zone, log: Log, now: int, first: int, count: nat): int {
    if count == 0 then 0
    else
      var day := first + count - 1;
      SumOwed(z, log, now, first, count - 1) + Over(day, WorkedIn(z, log, now, day - 6, 7))
  }

  lemma WeekOver(c: Calendar, weeks: map<int, int>, day: int)
    requires Totalled(c, c.Keys, weeks)
    ensures (if day in weeks then Overtime(weeks)(day) else 0) == Over(day, SumDays(Totals(c), c.Keys, day - 6, 7))
  {
    hide SumDays, Worked;
    assert WeekIs(c, c.Keys, weeks, day);
  }

  /** The weeks' totals give the premium that the calendar's days give. */
  lemma {:induction false} PremiumIsWeekly(c: Calendar, weeks: map<int, int>, first: int, count: nat)
    requires Totalled(c, c.Keys, weeks)
    ensures Premium(weeks, first, first + count) == SumOver(c, first, count)
    ensures SumDays(Overtime(weeks), weeks.Keys, first, count) == SumOver(c, first, count)
  {
    hide Totalled, Over, Overtime;
    if count > 0 {
      PremiumIsWeekly(c, weeks, first, count - 1);
      WeekOver(c, weeks, first + count - 1);
    }
  }

  /** The week ending on the day is paid in full, or has no overtime either way. */
  ghost predicate WeekInFull(z: Zone, log: Log, lookback: int, end: int, now: int, day: int) {
    SaturdayOf(day) == day
    ==> WorkedIn(z, log, now, day - 6, 7) <= WEEKLY_OT_THRESHOLD || LosesNothing(z, log, lookback, end, now, day - 6, 7)
  }

  ghost predicate WeeksInFull(
    z: Zone, log: Log, lookback: int, end: int, now: int, first: int, count: nat)
  {
    forall day | first <= day < first + count :: WeekInFull(z, log, lookback, end, now, day)
  }

  lemma OneMoreWeek(z: Zone, log: Log, lookback: int, end: int, now: int, first: int, count: nat)
    requires count > 0
    ensures WeeksInFull(z, log, lookback, end, now, first, count)
       <==> (WeeksInFull(z, log, lookback, end, now, first, count - 1)
             && WeekInFull(z, log, lookback, end, now, first + count - 1))
  {
    hide WeekInFull;
  }

  lemma WeekIsInFullExactlyWhen(z: Zone, log: Log, lookback: int, end: int, now: int, day: int)
    requires TwoOffsets(z) && SwitchesAtTwo(z) && WellFormed(log) && UpTo(log, now)
    requires lookback <= end && Midnight(z, day + 1) <= end
    requires BelowCap(Window(log, lookback, end), now, Midnight(z, day + 1))
    ensures var paid, owed := PaidFor(z, log, lookback, end, now, day - 6, 7), WorkedIn(z, log, now, day - 6, 7);
      && Over(day, paid) <= Over(day, owed)
      && (Over(day, paid) == Over(day, owed) <==> WeekInFull(z, log, lookback, end, now, day))
  {
    hide WellFormed, UpTo, BelowCap, Window, Midnight, PaidFor, WorkedIn, LosesNothing;
    PaidInFullExactlyWhen(z, log, lookback, end, now, day - 6, 7);
  }

  /**
   The overtime premium never exceeds what is owed for the time worked. It is exactly that if and only if
   each week ending in the range has no overtime to lose or lost nothing.
   */
  lemma {:induction false} PremiumIsOwedExactlyWhen(
    z: Zone, log: Log, lookback: int, end: int, now: int, first: int, count: nat)
    requires TwoOffsets(z) && SwitchesAtTwo(z) && WellFormed(log) && UpTo(log, now)
    requires lookback <= end && Midnight(z, first + count) <= end
    requires BelowCap(Window(log, lookback, end), now, Midnight(z, first + count))
    ensures var c := CalendarOf(z, Window(log, lookback, end), now);
      && SumOver(c, first, count) <= SumOwed(z, log, now, first, count)
      && (SumOver(c, first, count) == SumOwed(z, log, now, first, count)
          <==> WeeksInFull(z, log, lookback, end, now, first, count))
  {
    hide WellFormed, UpTo, BelowCap, Window, Midnight, CalendarOf, WorkedIn, Over, WeekInFull, SumDays;
    if count > 0 {
      var last := first + count - 1;
      MidnightsAscend(z, last, last + 1);
      BelowCapEarlier(Window(log, lookback, end), now, Midnight(z, last), Midnight(z, last + 1));
      PremiumIsOwedExactlyWhen(z, log, lookback, end, now, first, count - 1);
      WeekIsInFullExactlyWhen(z, log, lookback, end, now, last);
      OneMoreWeek(z, log, lookback, end, now, first, count);
      hide WeeksInFull;
    }
  }

  // ----- One period and its look-back

  /** Six times 24 hours, whatever the clocks do. */
  function LookbackOf(z: Zone, n: int): int {
    BoundsOf(z, n).periodStart - 6 * DAY
  }

  function WindowOf(z: Zone, log: Log, n: int): Log {
    Window(log, LookbackOf(z, n), BoundsOf(z, n).periodEnd)
  }

  function DaysIn(n: int): (count: nat)
    ensures FirstDay(n) + count == EndDay(n)
  {
    PeriodHoldsItsDay(n);
    EndDay(n) - FirstDay(n)
  }

  /** The regular time of the period of day `n`. */
  function RegularFor(z: Zone, log: Log, now: int, n: int): int
    requires TwoOffsets(z) && SwitchesAtTwo(z)
  {
    PaidFor(z, log, LookbackOf(z, n), BoundsOf(z, n).periodEnd, now, FirstDay(n), DaysIn(n))
  }

  function PremiumFor(z: Zone, log: Log, now: int, n: int): int
    requires TwoOffsets(z) && SwitchesAtTwo(z)
  {
    if BoundsOf(z, n).periodStart >= WEEKLY_OT_EFFECTIVE_FROM
    then SumOver(CalendarOf(z, WindowOf(z, log, n), now), FirstDay(n), DaysIn(n)) else 0
  }

  /**
   The look-back reaches the Sunday of the first week that ends in the period, unless that week ends on
   the period's first day and the clocks went back in it.
   */
  lemma LookbackReachesSundayExactlyWhen(z: Zone, n: int)
    requires Mountain(z)
    ensures var first := FirstDay(n);
      var sunday := SaturdayOf(first) - 6;
      LookbackOf(z, n) <= Midnight(z, sunday)
      <==> !(SaturdayOf(first) == first && z.offset(Midnight(z, sunday)) > z.offset(Midnight(z, first)))
  {
    hide FirstDay, EndDay, PayDay, Midnight;
    var first := FirstDay(n);
    var sunday := SaturdayOf(first) - 6;
    MidnightIsUnique(z, first, Midnight(z, first));
    MidnightIsUnique(z, sunday, Midnight(z, sunday));
    assert first - 6 <= sunday;
    if sunday > first - 6 {
      assert sunday * DAY >= first * DAY - 5 * DAY;
    }
  }

  lemma LooksBackToSunday(z: Zone, n: int)
    requires Mountain(z) && z.offset(Midnight(z, FirstDay(n) - 6)) == z.offset(Midnight(z, FirstDay(n)))
    ensures LookbackOf(z, n) == Midnight(z, FirstDay(n) - 6)
  {
    hide FirstDay, EndDay, PayDay, Midnight;
    MidnightIsUnique(z, FirstDay(n), Midnight(z, FirstDay(n)));
    MidnightIsUnique(z, FirstDay(n) - 6, Midnight(z, FirstDay(n) - 6));
  }

  lemma MidnightsNotDown(z: Zone, a: int, b: int)
    requires TwoOffsets(z) && a <= b
    ensures Midnight(z, a) <= Midnight(z, b)
  {
    if a < b {
      MidnightsAscend(z, a, b);
    }
  }

  lemma FirstWeekInPeriod(z: Zone, n: int)
    requires Mountain(z)
    ensures TwoOffsets(z) && SwitchesAtTwo(z)
    ensures Midnight(z, FirstDay(n) - 6) < Midnight(z, FirstDay(n) - 6 + 7) <= BoundsOf(z, n).periodEnd
  {
    hide FirstDay, EndDay, PayDay, Midnight;
    PeriodHoldsItsDay(n);
    MidnightsAscend(z, FirstDay(n) - 6, FirstDay(n) - 6 + 7);
    MidnightsNotDown(z, FirstDay(n) - 6 + 7, EndDay(n));
  }

  /**
   A period that starts on a Saturday looks back to the very midnight of the Sunday before, if the clocks
   did not change: whoever worked across that midnight is short of time in the first week.
   */
  lemma NightShiftIsLost(z: Zone, log: Log, now: int, n: int, k: nat)
    requires Mountain(z) && WellFormed(log) && UpTo(log, now) && LookbackOf(z, n) < now
    requires SaturdayOf(FirstDay(n)) == FirstDay(n)
    requires z.offset(Midnight(z, FirstDay(n) - 6)) == z.offset(Midnight(z, FirstDay(n)))
    requires BelowCap(Window(log, LookbackOf(z, n), BoundsOf(z, n).periodEnd), now, Midnight(z, FirstDay(n) - 6 + 7))
    requires 0 < k <= |log| && Starts(log, k, LookbackOf(z, n)) && Parse(log[..k]) == Some(On)
    requires k < |log| ==> log[k].at > LookbackOf(z, n)
    ensures PaidFor(z, log, LookbackOf(z, n), BoundsOf(z, n).periodEnd, now, FirstDay(n) - 6, 7)
          < WorkedIn(z, log, now, FirstDay(n) - 6, 7)
  {
    hide *;
    LooksBackToSunday(z, n);
    FirstWeekInPeriod(z, n);
    WorkAcrossIsLost(z, log, LookbackOf(z, n), BoundsOf(z, n).periodEnd, now, FirstDay(n) - 6, 7, k);
  }

  lemma EligibleFrom(z: Zone, n: int)
    requires Mountain(z)
    ensures BoundsOf(z, n).periodStart >= WEEKLY_OT_EFFECTIVE_FROM <==> FirstDay(n) >= EFFECTIVE_DAY
    ensures FirstDay(n) < EFFECTIVE_DAY ==> EndDay(n) <= EFFECTIVE_DAY
  {
    hide FirstDay, EndDay, PayDay, DateOfDay, DayNumber, Midnight;
    EffectiveDayIsSunday();
    MidnightAround(z, FirstDay(n));
    PeriodsPartitionDays(n, EFFECTIVE_DAY);
  }

  // ----- The handler's step for one employee

  lemma {:induction false} SameDays(c: Calendar, shown: Calendar, first: int, count: nat)
    requires c.Keys <= shown.Keys && forall n :: TotalOn(shown, n) == TotalOn(c, n)
    ensures SumDays(Totals(shown), shown.Keys, first, count) == SumDays(Totals(c), c.Keys, first, count)
  {
    if count > 0 {
      SameDays(c, shown, first, count - 1);
      assert TotalOn(shown, first + count - 1) == TotalOn(c, first + count - 1);
    }
  }

  /** Weeks of more than 43 hours are flagged, whether or not they end in the period. */
  predicate LongWeek(c: Calendar, saturday: int) {
    SaturdayOf(saturday) == saturday && SumDays(Totals(c), c.Keys, saturday - 6, 7) > WEEKLY_OVERAGE_FLAG
  }

  lemma FlaggedAreLong(c: Calendar, weeks: map<int, int>)
    requires Totalled(c, c.Keys, weeks)
    ensures forall saturday :: saturday in Flagged(weeks) <==> LongWeek(c, saturday)
  {
    hide SumDays, Worked, SaturdayOf;
    forall saturday ensures saturday in Flagged(weeks) <==> LongWeek(c, saturday) {
      assert WeekIs(c, c.Keys, weeks, saturday);
    }
  }

  lemma PeriodDays(z: Zone, n: int)
    requires Mountain(z)
    ensures TwoOffsets(z) && SwitchesAtTwo(z)
    ensures var b := BoundsOf(z, n);
      DayOf(z, b.periodStart) == FirstDay(n) && DayOf(z, b.periodEnd) == EndDay(n) && b.periodStart <= b.periodEnd
  {
    hide FirstDay, EndDay, PayDay, Midnight, DayOf;
    BoundsInOrder(z, n);
    MidnightBeginsDay(z, FirstDay(n));
    MidnightBeginsDay(z, EndDay(n));
  }

  lemma RegularAndPremium(z: Zone, log: Log, now: int, n: int)
    requires TwoOffsets(z) && SwitchesAtTwo(z)
    ensures var c := CalendarOf(z, WindowOf(z, log, n), now);
      && RegularFor(z, log, now, n) == SumDays(Totals(c), c.Keys, FirstDay(n), DaysIn(n))
      && PremiumFor(z, log, now, n)
         == if BoundsOf(z, n).periodStart >= WEEKLY_OT_EFFECTIVE_FROM then SumOver(c, FirstDay(n), DaysIn(n)) else 0
  {
    hide SumDays, SumOver, FirstDay, EndDay, CalendarOf, BoundsOf;
  }

  /** The overtime rule applies in Utah. */
  method PayrollOf(z: Zone, log: Log, now: int, n: int, isUtah: bool, otWarningExempt: bool)
    returns (totalSeconds: int, otPremium: int, flaggedWeeks: set<int>)
    requires Mountain(z) && FirstDay(n) >= Dashboard.YEAR_100
    requires Recent(z, Sessions(WindowOf(z, log, n), now)) && Recent(z, Breaks(WindowOf(z, log, n), now))
    ensures totalSeconds == RegularFor(z, log, now, n)
    ensures otPremium == if isUtah then PremiumFor(z, log, now, n) else 0
    ensures var c := CalendarOf(z, WindowOf(z, log, n), now);
      forall saturday :: saturday in flaggedWeeks <==> (isUtah && !otWarningExempt && LongWeek(c, saturday))
  {
    hide *;
    var b := BoundsOf(z, n);
    PeriodDays(z, n);
    var c := BuildCalendarMap(z, WindowOf(z, log, n), now);
    var shown, weeks := AttachWeekTotals(c);
    totalSeconds := SumRegularInPeriod(z, shown, b);
    otPremium, flaggedWeeks := 0, {};
    if isUtah {
      otPremium, flaggedWeeks := ComputeWeeklyOvertime(z, weeks, b, otWarningExempt);
    }
    SameDays(c, shown, FirstDay(n), DaysIn(n));
    PremiumIsWeekly(c, weeks, FirstDay(n), DaysIn(n));
    FlaggedAreLong(c, weeks);
    RegularAndPremium(z, log, now, n);
  }

  /** The window of a period loses nothing of its days, or none of the overtime of its weeks. */
  ghost predicate DaysInFull(z: Zone, log: Log, now: int, n: int) {
    LosesNothing(z, log, LookbackOf(z, n), BoundsOf(z, n).periodEnd, now, FirstDay(n), DaysIn(n))
  }

  ghost predicate OvertimeInFull(z: Zone, log: Log, now: int, n: int) {
    FirstDay(n) >= EFFECTIVE_DAY
    ==> WeeksInFull(z, log, LookbackOf(z, n), BoundsOf(z, n).periodEnd, now, FirstDay(n), DaysIn(n))
  }

  // ----- Periods in a row

  function EndAfter(n: int, periods: nat): int
    decreases periods
  {
    if periods == 0 then FirstDay(n) else EndAfter(EndDay(n), periods - 1)
  }

  /** The sums over the period of day `n` and the periods that follow, each from its own window. */
  function RegularOver(z: Zone, log: Log, now: int, n: int, periods: nat): int
    requires TwoOffsets(z) && SwitchesAtTwo(z)
    decreases periods
  {
    if periods == 0 then 0 else RegularFor(z, log, now, n) + RegularOver(z, log, now, EndDay(n), periods - 1)
  }

  function PremiumOver(z: Zone, log: Log, now: int, n: int, periods: nat): int
    requires TwoOffsets(z) && SwitchesAtTwo(z)
    decreases periods
  {
    if periods == 0 then 0 else PremiumFor(z, log, now, n) + PremiumOver(z, log, now, EndDay(n), periods - 1)
  }

  /** The overtime owed for the weeks that end in the range, from the effective date on. */
  function SumDue(z: Zone, log: Log, now: int, first: int, count: nat): int {
    if count == 0 then 0
    else
      var day := first + count - 1;
      SumDue(z, log, now, first, count - 1)
      + (if day >= EFFECTIVE_DAY then Over(day, WorkedIn(z, log, now, day - 6, 7)) else 0)
  }

  /** No period ends with a shift that has run into the cap. */
  ghost predicate NoneCapped(z: Zone, log: Log, now: int, n: int, periods: nat)
    decreases periods
  {
    periods > 0 ==>
      BelowCap(WindowOf(z, log, n), now, BoundsOf(z, n).periodEnd) && NoneCapped(z, log, now, EndDay(n), periods - 1)
  }

  ghost predicate RegularInFull(z: Zone, log: Log, now: int, n: int, periods: nat)
    decreases periods
  {
    periods > 0 ==> DaysInFull(z, log, now, n) && RegularInFull(z, log, now, EndDay(n), periods - 1)
  }

  ghost predicate PremiumInFull(z: Zone, log: Log, now: int, n: int, periods: nat)
    decreases periods
  {
    periods > 0 ==> OvertimeInFull(z, log, now, n) && PremiumInFull(z, log, now, EndDay(n), periods - 1)
  }

  lemma {:induction false} DueIsOwed(z: Zone, log: Log, now: int, first: int, count: nat)
    ensures first >= EFFECTIVE_DAY ==> SumDue(z, log, now, first, count) == SumOwed(z, log, now, first, count)
    ensures first + count <= EFFECTIVE_DAY ==> SumDue(z, log, now, first, count) == 0
  {
    hide Over, WorkedIn;
    if count > 0 {
      DueIsOwed(z, log, now, first, count - 1);
    }
  }

  lemma {:induction false} DueSplits(z: Zone, log: Log, now: int, first: int, count: nat, more: nat)
    ensures SumDue(z, log, now, first, count + more)
         == SumDue(z, log, now, first, count) + SumDue(z, log, now, first + count, more)
  {
    hide Over, WorkedIn;
    if more > 0 {
      DueSplits(z, log, now, first, count, more - 1);
    }
  }

  lemma WorkedSplits(z: Zone, log: Log, now: int, first: int, count: nat, more: nat)
    requires TwoOffsets(z) && InTime(log) && UpTo(log, now)
    ensures WorkedIn(z, log, now, first, count + more)
         == WorkedIn(z, log, now, first, count) + WorkedIn(z, log, now, first + count, more)
  {
    hide PhaseTime, InTime, UpTo, Midnight;
    MidnightsNotDown(z, first, first + count);
    MidnightsNotDown(z, first + count, first + count + more);
    var (lo, mid, hi) := (Midnight(z, first), Midnight(z, first + count), Midnight(z, first + count + more));
    PhaseWindowSplits(log, WORKING, now, lo, mid, hi);
  }

  /** One period, both sums. */
  lemma PeriodPaysExactlyWhen(z: Zone, log: Log, now: int, n: int)
    requires Mountain(z) && WellFormed(log) && UpTo(log, now)
    requires BelowCap(WindowOf(z, log, n), now, BoundsOf(z, n).periodEnd)
    ensures var regular, worked := RegularFor(z, log, now, n), WorkedIn(z, log, now, FirstDay(n), DaysIn(n));
      regular <= worked && (regular == worked <==> DaysInFull(z, log, now, n))
    ensures var premium, due := PremiumFor(z, log, now, n), SumDue(z, log, now, FirstDay(n), DaysIn(n));
      premium <= due && (premium == due <==> OvertimeInFull(z, log, now, n))
  {
    hide WellFormed, UpTo, BelowCap, Window, Midnight, CalendarOf, PaidFor, WorkedIn, LosesNothing, WeeksInFull;
    hide FirstDay, EndDay, PayDay, SumOver, SumDue, SumOwed, DayNumber;
    BoundsInOrder(z, n);
    EligibleFrom(z, n);
    DueIsOwed(z, log, now, FirstDay(n), DaysIn(n));
    PaidInFullExactlyWhen(z, log, LookbackOf(z, n), BoundsOf(z, n).periodEnd, now, FirstDay(n), DaysIn(n));
    PremiumIsOwedExactlyWhen(z, log, LookbackOf(z, n), BoundsOf(z, n).periodEnd, now, FirstDay(n), DaysIn(n));
  }

  lemma IsMountain(z: Zone)
    requires Mountain(z)
    ensures TwoOffsets(z) && SwitchesAtTwo(z)
  {
  }

  lemma NothingInNoTime(z: Zone, log: Log, now: int, first: int)
    ensures WorkedIn(z, log, now, first, 0) == 0 && SumDue(z, log, now, first, 0) == 0
  {
    EmptyWindow(log, WORKING, now, Midnight(z, first));
    hide PhaseTime, Midnight;
  }

  lemma {:induction false} RegularAddsUp(z: Zone, log: Log, now: int, n: int, periods: nat)
    requires Mountain(z) && WellFormed(log) && UpTo(log, now) && NoneCapped(z, log, now, n, periods)
    ensures EndAfter(n, periods) >= FirstDay(n)
    ensures var regular := RegularOver(z, log, now, n, periods);
      var worked := WorkedIn(z, log, now, FirstDay(n), EndAfter(n, periods) - FirstDay(n));
      regular <= worked && (regular == worked <==> RegularInFull(z, log, now, n, periods))
    decreases periods
  {
    hide UpTo, BelowCap, WindowOf, RegularFor, DaysInFull, WorkedIn, SumDue, BoundsOf;
    hide FirstDay, EndDay, InTime, Parse, DayNumber, Mountain;
    if periods == 0 {
      NothingInNoTime(z, log, now, FirstDay(n));
    } else {
      PeriodsAbut(n);
      PeriodPaysExactlyWhen(z, log, now, n);
      RegularAddsUp(z, log, now, EndDay(n), periods - 1);
      assert TwoOffsets(z) by { IsMountain(z); }
      WorkedSplits(z, log, now, FirstDay(n), DaysIn(n), EndAfter(n, periods) - EndDay(n));
      hide DaysIn;
    }
  }

  lemma {:induction false} PremiumAddsUp(z: Zone, log: Log, now: int, n: int, periods: nat)
    requires Mountain(z) && WellFormed(log) && UpTo(log, now) && NoneCapped(z, log, now, n, periods)
    ensures EndAfter(n, periods) >= FirstDay(n)
    ensures var premium := PremiumOver(z, log, now, n, periods);
      var due := SumDue(z, log, now, FirstDay(n), EndAfter(n, periods) - FirstDay(n));
      premium <= due && (premium == due <==> PremiumInFull(z, log, now, n, periods))
    decreases periods
  {
    hide UpTo, BelowCap, WindowOf, PremiumFor, OvertimeInFull, WorkedIn, SumDue, BoundsOf, WellFormed;
    hide FirstDay, EndDay, DayNumber, Mountain;
    if periods == 0 {
      NothingInNoTime(z, log, now, FirstDay(n));
    } else {
      PeriodsAbut(n);
      PeriodPaysExactlyWhen(z, log, now, n);
      PremiumAddsUp(z, log, now, EndDay(n), periods - 1);
      DueSplits(z, log, now, FirstDay(n), DaysIn(n), EndAfter(n, periods) - EndDay(n));
      hide DaysIn;
    }
  }

  /**
   Over periods in a row, each computed from its own window: together they never pay for more regular
   time than was worked from the first to the last, nor more overtime than is due for the weeks that end
   in them, and they pay exactly that if and only if no period's window lost any of it. No day and no
   week is paid twice.
   */
  lemma PeriodsPayOnceExactlyWhen(z: Zone, log: Log, now: int, n: int, periods: nat) returns (days: nat)
    requires Mountain(z) && WellFormed(log) && UpTo(log, now) && NoneCapped(z, log, now, n, periods)
    ensures FirstDay(n) + days == EndAfter(n, periods)
    ensures var regular := RegularOver(z, log, now, n, periods);
      var worked := WorkedIn(z, log, now, FirstDay(n), days);
      regular <= worked && (regular == worked <==> RegularInFull(z, log, now, n, periods))
    ensures var premium := PremiumOver(z, log, now, n, periods);
      var due := SumDue(z, log, now, FirstDay(n), days);
      premium <= due && (premium == due <==> PremiumInFull(z, log, now, n, periods))
  {
    hide *;
    assert TwoOffsets(z) && SwitchesAtTwo(z) by { IsMountain(z); }
    RegularAddsUp(z, log, now, n, periods);
    PremiumAddsUp(z, log, now, n, periods);
    days := EndAfter(n, periods) - FirstDay(n);
  }

  // ----- When nobody is on shift at the look-backs

  ghost predicate OffAtLookbacks(z: Zone, log: Log, n: int, periods: nat)
    decreases periods
  {
    periods > 0 ==> OffBefore(log, LookbackOf(z, n)) && OffAtLookbacks(z, log, EndDay(n), periods - 1)
  }

  ghost predicate ReachSundays(z: Zone, n: int, periods: nat)
    decreases periods
  {
    periods > 0 ==>
      && LookbackOf(z, n) <= Midnight(z, SaturdayOf(FirstDay(n)) - 6)
      && ReachSundays(z, EndDay(n), periods - 1)
  }

  lemma OffWeekInFull(z: Zone, log: Log, lookback: int, end: int, now: int, first: int, day: int)
    requires TwoOffsets(z) && WellFormed(log) && OffBefore(log, lookback) && first <= day
    requires lookback <= Midnight(z, SaturdayOf(first) - 6)
    ensures WeekInFull(z, log, lookback, end, now, day)
  {
    hide WellFormed, OffBefore, Midnight, LosesNothing, WorkedIn;
    if SaturdayOf(day) == day {
      assert SaturdayOf(first) <= day;
      MidnightsNotDown(z, SaturdayOf(first) - 6, day - 6);
      OffLosesNothing(z, log, lookback, end, now, day - 6, 7);
    }
  }

  lemma OffPeriodInFull(z: Zone, log: Log, now: int, n: int)
    requires TwoOffsets(z) && WellFormed(log) && OffBefore(log, LookbackOf(z, n))
    ensures DaysInFull(z, log, now, n)
    ensures LookbackOf(z, n) <= Midnight(z, SaturdayOf(FirstDay(n)) - 6) ==> OvertimeInFull(z, log, now, n)
  {
    hide WellFormed, OffBefore, FirstDay, EndDay, PayDay, Midnight, LosesNothing, DayNumber, WeekInFull, TwoOffsets;
    hide SaturdayOf;
    var lookback, end, first := LookbackOf(z, n), BoundsOf(z, n).periodEnd, FirstDay(n);
    OffLosesNothing(z, log, lookback, end, now, first, DaysIn(n));
    if lookback <= Midnight(z, SaturdayOf(first) - 6) {
      forall day | first <= day < first + DaysIn(n)
        ensures WeekInFull(z, log, lookback, end, now, day)
      {
        OffWeekInFull(z, log, lookback, end, now, first, day);
      }
    }
  }

  lemma {:induction false} OffPaysInFull(z: Zone, log: Log, now: int, n: int, periods: nat)
    requires TwoOffsets(z) && WellFormed(log) && OffAtLookbacks(z, log, n, periods)
    ensures RegularInFull(z, log, now, n, periods)
    ensures ReachSundays(z, n, periods) ==> PremiumInFull(z, log, now, n, periods)
    decreases periods
  {
    hide WellFormed, OffBefore, FirstDay, EndDay, Midnight, DayNumber, DaysInFull, OvertimeInFull, LookbackOf;
    hide TwoOffsets;
    if periods > 0 {
      OffPaysInFull(z, log, now, EndDay(n), periods - 1);
      OffPeriodInFull(z, log, now, n);
    }
  }
}
