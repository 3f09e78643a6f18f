/**
 Two more ways of finding a Mountain Time day, held against the dashboard's: the two-pass offset
 probe of the notification centre, and the three fixed rounds of the company time zone helper.
 */
module CalendarNotifications {
  import opened Gregorian
  import opened LocalTime
  import Dashboard = AppointmentDashboard

  datatype Bounds = Bounds(dayStart: int, dayEnd: int)

  function OffsetMinutesAt(z: Zone, t: int): int {
    z.offset(t) / MINUTE
  }

  /** The bounds of the local day of `now`; the day key is taken as the date it spells. */
  function MtDayBounds(z: Zone, now: int): Bounds {
    var utcMidnight := DayOf(z, now) * DAY;
    var roughOffset := OffsetMinutesAt(z, now);
    var candidate := utcMidnight - roughOffset * MINUTE;
    var refinedOffset := OffsetMinutesAt(z, candidate);
    var dayStart := if refinedOffset == roughOffset then candidate else utcMidnight - refinedOffset * MINUTE;
    Bounds(dayStart, dayStart + 24 * HOUR)
  }

  /** Whatever time of day it is asked, the probe finds the start of the dashboard's day. */
  lemma ProbeFindsMidnight(z: Zone, now: int)
    requires Mountain(z)
    ensures MtDayBounds(z, now).dayStart == Dashboard.DaySpan(z, DayOf(z, now)).start
  {
    var n := DayOf(z, now);
    SteadyAroundMidnight(z, n, n * DAY - z.std - HOUR, n * DAY - z.std);
  }

  /** Its end misses the dashboard's by the change of offset: it is right exactly when there is none. */
  lemma ProbeEndMissesClockChange(z: Zone, now: int)
    requires Mountain(z)
    ensures var n := DayOf(z, now);
      var change := z.offset(Midnight(z, n + 1)) - z.offset(Midnight(z, n));
      MtDayBounds(z, now).dayEnd == Dashboard.DaySpan(z, n).end + 1 + change
      && (MtDayBounds(z, now).dayEnd == Dashboard.DaySpan(z, n + 1).start <==> change == 0)
  {
    ProbeFindsMidnight(z, now);
    Dashboard.DayLengths(z, DayOf(z, now));
  }

  /** The present moment is outside its own bounds in one case only: the last hour of a 25-hour day. */
  lemma NowOutsideItsBounds(z: Zone, now: int)
    requires Mountain(z)
    ensures var b, n := MtDayBounds(z, now), DayOf(z, now);
      !(b.dayStart <= now < b.dayEnd)
      <==> z.offset(Midnight(z, n)) == z.offset(Midnight(z, n + 1)) + HOUR && now >= Midnight(z, n + 1) - HOUR
  {
    ProbeEndMissesClockChange(z, now);
    ProbeFindsMidnight(z, now);
    DayIsInterval(z, DayOf(z, now), now);
  }

  // ----- src/utils/companyTimezone.ts

  /** Whole minutes between the printed wall clock and the instant, both cut to the second. */
  function ZoneOffsetMinutes(z: Zone, t: int): int {
    (2 * (Dashboard.Represented(z, t) - (t - t % SECOND)) + MINUTE) / (2 * MINUTE)
  }

  lemma RoundedMinutes(t: int, offset: int, cut: int)
    requires offset == -7 * HOUR || offset == -6 * HOUR
    requires cut == t + offset - (t + offset) % SECOND - (t - t % SECOND)
    ensures (2 * cut + MINUTE) / (2 * MINUTE) * MINUTE == offset
  {
    assert (t + offset) % SECOND == t % SECOND;
  }

  lemma OffsetIsExact(z: Zone, t: int)
    requires Mountain(z) && DayOf(z, t) >= Dashboard.YEAR_100
    ensures ZoneOffsetMinutes(z, t) * MINUTE == z.offset(t)
  {
    hide Dashboard.Represented, Dashboard.ReadClock, Dashboard.ReadDate, DateOfDay;
    Dashboard.ReadBack(z, t);
    Dashboard.RecentClockReadsBack(DayOf(z, t), Wall(z, t));
    var cut := Dashboard.Represented(z, t) - (t - t % SECOND);
    RoundedMinutes(t, z.offset(t), cut);
  }

  lemma Round(z: Zone, n: int, guess: int, i: int)
    requires Mountain(z) && n > Dashboard.YEAR_100
    requires 0 <= i < 3 && Dashboard.OnCourse(z, n, guess, i)
    ensures ZoneOffsetMinutes(z, guess) * MINUTE == z.offset(guess)
    ensures Dashboard.OnCourse(z, n, n * DAY - z.offset(guess), i + 1)
  {
    hide ZoneOffsetMinutes;
    Dashboard.WholeSeconds(z, n, guess, i);
    OffsetIsExact(z, guess);
    SteadyAroundMidnight(z, n, n * DAY - z.std - HOUR, n * DAY - z.std);
  }

  /** Three rounds without a test for being done reach the same midnight. */
  method ZoneMidnightUtc(z: Zone, n: int) returns (guess: int)
    requires Mountain(z) && n > Dashboard.YEAR_100
    ensures guess == Dashboard.DaySpan(z, n).start
  {
    hide ZoneOffsetMinutes;
    var wallMidnight := n * DAY;
    guess := wallMidnight;
    for i := 0 to 3
      invariant Dashboard.OnCourse(z, n, guess, i)
    {
      Round(z, n, guess, i);
      guess := wallMidnight - ZoneOffsetMinutes(z, guess) * MINUTE;
    }
    MidnightIsUnique(z, n, guess);
  }

  /** The company's today runs from its own midnight to the next, clock changes included. */
  method GetCompanyToday(z: Zone, now: int) returns (start: int, end: int)
    requires Mountain(z) && DayOf(z, now) > Dashboard.YEAR_100
    ensures start <= now < end
    ensures forall t :: start <= t < end <==> DayOf(z, t) == DayOf(z, now)
  {
    hide ZoneOffsetMinutes, Midnight;
    OffsetIsExact(z, now);
    var today := (now + ZoneOffsetMinutes(z, now) * MINUTE) / DAY;
    start := ZoneMidnightUtc(z, today);
    end := ZoneMidnightUtc(z, today + 1);
    forall t ensures start <= t < end <==> DayOf(z, t) == DayOf(z, now) {
      DayIsInterval(z, today, t);
    }
    DayIsInterval(z, today, now);
  }
}
