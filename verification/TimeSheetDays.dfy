/**
 The calendar of a time sheet: sessions and breaks cut at local midnights and totalled by day, and
 the totals of weeks from Sunday to Saturday.
 */
module TimeSheetDays {
  import opened Text
  import opened Gregorian
  import opened LocalTime
  import opened ShiftLog
  import opened TimeLogEngine
  import Dashboard = AppointmentDashboard
  import CalendarNotifications

  // ----- Cutting at midnight

  lemma MidnightIsAhead(z: Zone, t: int)
    requires TwoOffsets(z) && SwitchesAtTwo(z)
    ensures Midnight(z, DayOf(z, t)) <= t < Midnight(z, DayOf(z, t) + 1)
  {
    DayIsInterval(z, DayOf(z, t), t);
  }

  function Segments(z: Zone, start: int, end: int): seq<Segment>
    requires TwoOffsets(z) && SwitchesAtTwo(z)
    decreases Max(0, end - start)
  {
    var day := DayOf(z, start);
    var next := Midnight(z, day + 1);
    MidnightIsAhead(z, start);
    if end <= next then [Segment(day, start, end)] else [Segment(day, start, next)] + Segments(z, next, end)
  }

  /** `toLocalDateStr`. */
  method LocalDay(z: Zone, t: int) returns (day: int)
    requires Mountain(z) && DayOf(z, t) >= Dashboard.YEAR_100
    ensures day == DayOf(z, t)
  {
    hide CalendarNotifications.ZoneOffsetMinutes;
    CalendarNotifications.OffsetIsExact(z, t);
    day := (t + CalendarNotifications.ZoneOffsetMinutes(z, t) * MINUTE) / DAY;
  }

  lemma MidnightBeginsDay(z: Zone, n: int)
    requires TwoOffsets(z) && SwitchesAtTwo(z)
    ensures DayOf(z, Midnight(z, n)) == n
  {
    MidnightIsUnique(z, n, Midnight(z, n));
  }

  method GetMidnightSegments(z: Zone, a: Span) returns (segments: seq<Segment>)
    requires Mountain(z) && DayOf(z, a.start) >= Dashboard.YEAR_100
    ensures segments == Segments(z, a.start, a.end)
  {
    hide CalendarNotifications.ZoneOffsetMinutes, Midnight, DayOf;
    segments := [];
    var segStart, done := a.start, false;
    while !done
      invariant DayOf(z, segStart) >= Dashboard.YEAR_100
      invariant done ==> segments == Segments(z, a.start, a.end)
      invariant !done ==> segments + Segments(z, segStart, a.end) == Segments(z, a.start, a.end)
      decreases !done, Max(0, a.end - segStart)
    {
      var day := LocalDay(z, segStart);
      var nextMidnight := CalendarNotifications.ZoneMidnightUtc(z, day + 1);
      MidnightIsAhead(z, segStart);
      if a.end <= nextMidnight {
        segments := segments + [Segment(day, segStart, a.end)];
        done := true;
      } else {
        assert Segments(z, segStart, a.end)
            == [Segment(day, segStart, nextMidnight)] + Segments(z, nextMidnight, a.end);
        segments := segments + [Segment(day, segStart, nextMidnight)];
        MidnightBeginsDay(z, day + 1);
        segStart := nextMidnight;
      }
    }
  }

  function Duration(s: Segment): int {
    s.end - s.start
  }

  function DaySum(segments: seq<Segment>, n: int): int {
    if segments == [] then 0
    else
      var last := segments[|segments| - 1];
      DaySum(segments[..|segments| - 1], n) + (if last.day == n then Duration(last) else 0)
  }

  lemma {:induction false} DaySumJoins(a: seq<Segment>, b: seq<Segment>, n: int)
    ensures DaySum(a + b, n) == DaySum(a, n) + DaySum(b, n)
  {
    if b == [] {
      assert a + b == a;
    } else {
      assert (a + b)[..|a + b| - 1] == a + b[..|b| - 1];
      DaySumJoins(a, b[..|b| - 1], n);
    }
  }

  lemma DaySumOne(s: Segment, n: int)
    ensures DaySum([s], n) == if s.day == n then Duration(s) else 0
  {
    assert [s][..0] == [];
  }

  lemma MidnightsAscend(z: Zone, a: int, b: int)
    requires TwoOffsets(z) && a < b
    ensures Midnight(z, a) < Midnight(z, b)
  {
  }

  /** What lies in a stretch within one day. */
  lemma WithinDay(z: Zone, start: int, end: int, n: int)
    requires TwoOffsets(z) && SwitchesAtTwo(z)
    requires start <= end <= Midnight(z, DayOf(z, start) + 1)
    ensures Overlap(Span(start, end), Midnight(z, n), Midnight(z, n + 1))
         == if n == DayOf(z, start) then end - start else 0
  {
    var m := DayOf(z, start);
    MidnightIsAhead(z, start);
    if n < m {
      if n + 1 < m {
        MidnightsAscend(z, n + 1, m);
      }
    } else if n > m {
      if m + 1 < n {
        MidnightsAscend(z, m + 1, n);
      }
    }
    hide Midnight, DayOf;
  }

  /** Cutting a stretch at midnights gives each day exactly the part of it that lies in that day. */
  lemma {:induction false} SegmentsMeasureDays(z: Zone, start: int, end: int, n: int)
    requires TwoOffsets(z) && SwitchesAtTwo(z) && start <= end
    ensures DaySum(Segments(z, start, end), n) == Overlap(Span(start, end), Midnight(z, n), Midnight(z, n + 1))
    decreases end - start
  {
    hide Midnight, Overlap, DayOf, DaySum;
    var day := DayOf(z, start);
    var next := Midnight(z, day + 1);
    MidnightIsAhead(z, start);
    if end <= next {
      WithinDay(z, start, end, n);
      DaySumOne(Segment(day, start, end), n);
    } else {
      WithinDay(z, start, next, n);
      DaySumOne(Segment(day, start, next), n);
      SegmentsMeasureDays(z, next, end, n);
      MidnightsAscend(z, n, n + 1);
      OverlapSplits(start, next, end, Midnight(z, n), Midnight(z, n + 1));
      DaySumJoins([Segment(day, start, next)], Segments(z, next, end), n);
    }
  }

  predicate Follows(segments: seq<Segment>, start: int, end: int) {
    && segments != [] && segments[0].start == start && segments[|segments| - 1].end == end
    && forall i | 0 < i < |segments| ::
         segments[i].start == segments[i - 1].end && segments[i].day == segments[i - 1].day + 1
  }

  predicate InOwnDay(z: Zone, s: Segment) {
    Midnight(z, s.day) <= s.start <= s.end <= Midnight(z, s.day + 1)
  }

  /** The segments follow one another day by day without a gap, each within its own day. */
  lemma {:induction false} SegmentsFollow(z: Zone, start: int, end: int)
    requires TwoOffsets(z) && SwitchesAtTwo(z) && start <= end
    ensures Follows(Segments(z, start, end), start, end)
    ensures forall i | 0 <= i < |Segments(z, start, end)| :: InOwnDay(z, Segments(z, start, end)[i])
    ensures Segments(z, start, end)[0].day == DayOf(z, start)
    decreases end - start
  {
    hide Midnight, DayOf;
    var day := DayOf(z, start);
    var next := Midnight(z, day + 1);
    MidnightIsAhead(z, start);
    if end > next {
      SegmentsFollow(z, next, end);
      MidnightBeginsDay(z, day + 1);
    }
  }

  // ----- The calendar

  function AllSegments(z: Zone, spans: seq<Span>): seq<Segment>
    requires TwoOffsets(z) && SwitchesAtTwo(z)
  {
    if spans == [] then []
    else
      var a := spans[|spans| - 1];
      AllSegments(z, spans[..|spans| - 1]) + Segments(z, a.start, a.end)
  }

  predicate Forward(spans: seq<Span>) {
    forall i | 0 <= i < |spans| :: spans[i].start <= spans[i].end
  }

  lemma {:induction false} AllSegmentsMeasure(z: Zone, spans: seq<Span>, n: int)
    requires TwoOffsets(z) && SwitchesAtTwo(z) && Forward(spans)
    ensures DaySum(AllSegments(z, spans), n) == SumOverlap(spans, Midnight(z, n), Midnight(z, n + 1))
  {
    hide Midnight, Overlap, Segments;
    if spans != [] {
      var front, a := spans[..|spans| - 1], spans[|spans| - 1];
      AllSegmentsMeasure(z, front, n);
      SegmentsMeasureDays(z, a.start, a.end, n);
      DaySumJoins(AllSegments(z, front), Segments(z, a.start, a.end), n);
    }
  }
}
