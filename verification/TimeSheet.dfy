/**
 The time sheet built from a shift log: what each calendar day and each week is credited with, and
 that this is the time really worked.
 */
module TimeSheet {
  import opened Text
  import opened Gregorian
  import opened LocalTime
  import opened ShiftLog
  import opened TimeLogEngine
  import opened TimeSheetDays
  import Dashboard = AppointmentDashboard

  datatype Bucket = Bucket(sessions: seq<Segment>, breaks: seq<Segment>)

  /** Times are in milliseconds; `total` is without breaks. */
  datatype CalendarDay = CalendarDay(sessions: seq<Segment>, total: int, breaks: seq<Segment>, breakTime: int)

  type Calendar = map<int, CalendarDay>

  // ----- Filing segments by day

  function At(byDate: map<int, Bucket>, n: int): Bucket {
    if n in byDate then byDate[n] else Bucket([], [])
  }

  function Put(byDate: map<int, Bucket>, s: Segment, isBreak: bool): map<int, Bucket> {
    var b := At(byDate, s.day);
    byDate[s.day := if isBreak then b.(breaks := b.breaks + [s]) else b.(sessions := b.sessions + [s])]
  }

  function PutAll(byDate: map<int, Bucket>, segments: seq<Segment>, isBreak: bool): map<int, Bucket> {
    if segments == [] then byDate
    else Put(PutAll(byDate, segments[..|segments| - 1], isBreak), segments[|segments| - 1], isBreak)
  }

  function OnDay(segments: seq<Segment>, n: int): seq<Segment> {
    if segments == [] then []
    else
      var last := segments[|segments| - 1];
      OnDay(segments[..|segments| - 1], n) + (if last.day == n then [last] else [])
  }

  /** Filing keeps each day's segments in order and mixes nothing up. */
  lemma {:induction false} PutAllFiles(byDate: map<int, Bucket>, segments: seq<Segment>, isBreak: bool, n: int)
    ensures var before, after := At(byDate, n), At(PutAll(byDate, segments, isBreak), n);
      && after.breaks == before.breaks + (if isBreak then OnDay(segments, n) else [])
      && after.sessions == before.sessions + (if isBreak then [] else OnDay(segments, n))
    ensures n in PutAll(byDate, segments, isBreak) <==> n in byDate || OnDay(segments, n) != []
  {
    if segments != [] {
      PutAllFiles(byDate, segments[..|segments| - 1], isBreak, n);
    }
  }

  /** Everything that starts a stretch is of the year 100 or later. */
  predicate Recent(z: Zone, spans: seq<Span>) {
    forall i | 0 <= i < |spans| :: DayOf(z, spans[i].start) >= Dashboard.YEAR_100
  }

  lemma NothingToPut(filed: map<int, Bucket>, isBreak: bool)
    ensures PutAll(filed, [], isBreak) == filed
  {
  }

  /** The inner loop; `before` are the segments filed so far. */
  method FileSegments(ghost filed: map<int, Bucket>, current: map<int, Bucket>, ghost before: seq<Segment>,
                      segments: seq<Segment>, isBreak: bool)
    returns (byDate: map<int, Bucket>)
    requires current == PutAll(filed, before, isBreak)
    ensures byDate == PutAll(filed, before + segments, isBreak)
  {
    hide Put;
    byDate := current;
    assert before + segments[..0] == before;
    for j := 0 to |segments|
      invariant byDate == PutAll(filed, before + segments[..j], isBreak)
    {
      assert (before + segments[..j + 1])[..|before| + j] == before + segments[..j];
      byDate := Put(byDate, segments[j], isBreak);
    }
    assert segments[..|segments|] == segments;
  }

  method FileSpans(z: Zone, filed: map<int, Bucket>, spans: seq<Span>, isBreak: bool) returns (byDate: map<int, Bucket>)
    requires Mountain(z) && Recent(z, spans)
    ensures byDate == PutAll(filed, AllSegments(z, spans), isBreak)
  {
    hide Segments, PutAll, DayOf;
    byDate := filed;
    NothingToPut(filed, isBreak);
    for i := 0 to |spans|
      invariant byDate == PutAll(filed, AllSegments(z, spans[..i]), isBreak)
    {
      var segments := GetMidnightSegments(z, spans[i]);
      byDate := FileSegments(filed, byDate, AllSegments(z, spans[..i]), segments, isBreak);
      assert spans[..i + 1][..i] == spans[..i];
    }
    assert spans[..|spans|] == spans;
  }

  function TotalOf(segments: seq<Segment>): int {
    if segments == [] then 0 else TotalOf(segments[..|segments| - 1]) + Duration(segments[|segments| - 1])
  }

  method Reduce(segments: seq<Segment>) returns (total: int)
    ensures total == TotalOf(segments)
  {
    total := 0;
    for i := 0 to |segments|
      invariant total == TotalOf(segments[..i])
    {
      assert segments[..i + 1][..i] == segments[..i];
      total := total + Duration(segments[i]);
    }
    assert segments[..|segments|] == segments;
  }

  function Credited(b: Bucket): CalendarDay {
    CalendarDay(b.sessions, Max(0, TotalOf(b.sessions) - TotalOf(b.breaks)), b.breaks, TotalOf(b.breaks))
  }

  function Filed(z: Zone, log: Log, now: int): map<int, Bucket>
    requires TwoOffsets(z) && SwitchesAtTwo(z)
  {
    PutAll(PutAll(map[], AllSegments(z, Sessions(log, now)), false), AllSegments(z, Breaks(log, now)), true)
  }

  function CalendarOf(z: Zone, log: Log, now: int): Calendar
    requires TwoOffsets(z) && SwitchesAtTwo(z)
  {
    var byDate := Filed(z, log, now);
    map n | n in byDate.Keys :: Credited(byDate[n])
  }

  lemma EmptyOrNot(s: set<int>)
    ensures s == {} || exists n :: n in s
  {
    if forall n :: n !in s {
      assert s == {};
    }
  }

  method BuildCalendarMap(z: Zone, log: Log, now: int) returns (calendar: Calendar)
    requires Mountain(z) && Recent(z, Sessions(log, now)) && Recent(z, Breaks(log, now))
    ensures calendar == CalendarOf(z, log, now)
  {
    hide AllSegments, PutAll, Sessions, Breaks;
    var allSessions := BuildSessions(log, now);
    var allBreaks := BuildBreakSessions(log, now);
    var byDate := FileSpans(z, map[], allSessions, false);
    byDate := FileSpans(z, byDate, allBreaks, true);
    calendar := map[];
    var todo := byDate.Keys;
    while todo != {}
      invariant todo <= byDate.Keys
      invariant calendar == map n | n in byDate.Keys - todo :: Credited(byDate[n])
      decreases |todo|
    {
      EmptyOrNot(todo);
      var date :| date in todo;
      var gross := Reduce(byDate[date].sessions);
      var breakTime := Reduce(byDate[date].breaks);
      var day := CalendarDay(byDate[date].sessions, Max(0, gross - breakTime), byDate[date].breaks, breakTime);
      calendar := calendar[date := day];
      todo := todo - {date};
    }
  }

  // ----- What a day is credited with

  function GrossOn(c: Calendar, n: int): int {
    if n in c then TotalOf(c[n].sessions) else 0
  }

  function BreakOn(c: Calendar, n: int): int {
    if n in c then c[n].breakTime else 0
  }

  function TotalOn(c: Calendar, n: int): int {
    if n in c then c[n].total else 0
  }

  /** The time of day `n` during which the log is in one of the phases. */
  function PhaseTimeOn(z: Zone, log: Log, phases: set<Phase>, now: int, n: int): int {
    PhaseTime(log, phases, now, Midnight(z, n), Midnight(z, n + 1))
  }

  /** A shift that has run for more than 25 hours is credited with 25. */
  predicate Capped(log: Log, now: int) {
    var current := Pairs(log, TimeIn, TimeOut).1;
    current.Some? && now - current.value > MAX_LIVE
  }

  /** The cap plays no part before `t`. */
  predicate BelowCap(log: Log, now: int, t: int) {
    var current := Pairs(log, TimeIn, TimeOut).1;
    current.Some? ==> Min(now, t) <= current.value + MAX_LIVE
  }

  lemma {:induction false} OnDayTotals(segments: seq<Segment>, n: int)
    ensures TotalOf(OnDay(segments, n)) == DaySum(segments, n)
  {
    if segments != [] {
      var front, last := segments[..|segments| - 1], segments[|segments| - 1];
      OnDayTotals(front, n);
      if last.day == n {
        assert (OnDay(front, n) + [last])[..|OnDay(front, n)|] == OnDay(front, n);
      } else {
        assert OnDay(front, n) + [] == OnDay(front, n);
      }
    }
  }

  lemma CalendarSums(z: Zone, log: Log, now: int, n: int)
    requires TwoOffsets(z) && SwitchesAtTwo(z)
    ensures var c := CalendarOf(z, log, now);
      && GrossOn(c, n) == DaySum(AllSegments(z, Sessions(log, now)), n)
      && BreakOn(c, n) == DaySum(AllSegments(z, Breaks(log, now)), n)
      && TotalOn(c, n) == Max(0, GrossOn(c, n) - BreakOn(c, n))
  {
    hide AllSegments, PutAll, OnDay, DaySum, Sessions, Breaks;
    var work, rest := AllSegments(z, Sessions(log, now)), AllSegments(z, Breaks(log, now));
    PutAllFiles(map[], work, false, n);
    PutAllFiles(PutAll(map[], work, false), rest, true, n);
    OnDayTotals(work, n);
    OnDayTotals(rest, n);
    var b := At(Filed(z, log, now), n);
    assert b.sessions == OnDay(work, n) && b.breaks == OnDay(rest, n);
  }

  lemma {:induction false} PairsGoForward(log: Log, opens: Kind, closes: Kind, phases: set<Phase>)
    requires WellFormed(log) && Measures(opens, closes, phases)
    ensures Forward(Pairs(log, opens, closes).0)
  {
    if log != [] {
      FrontIsWellFormed(log);
      PairsGoForward(log[..|log| - 1], opens, closes, phases);
      OpenInPhase(log[..|log| - 1], opens, closes, phases);
      hide Parse, InTime;
    }
  }

  lemma SpansGoForward(log: Log, now: int)
    requires WellFormed(log) && UpTo(log, now)
    ensures Forward(Sessions(log, now)) && Forward(Breaks(log, now))
  {
    hide Pairs, Parse, InTime;
    PairsGoForward(log, TimeIn, TimeOut, ON_SHIFT);
    PairsGoForward(log, BreakIn, BreakOut, ON_BREAK);
    OpenInPhase(log, TimeIn, TimeOut, ON_SHIFT);
    OpenInPhase(log, BreakIn, BreakOut, ON_BREAK);
  }

  /** Being on shift is working or being on a break. */
  lemma {:induction false} PhasesAddUp(log: Log, now: int, lo: int, hi: int)
    requires lo <= hi
    ensures PhaseTime(log, ON_SHIFT, now, lo, hi)
         == PhaseTime(log, WORKING, now, lo, hi) + PhaseTime(log, ON_BREAK, now, lo, hi)
    ensures PhaseTime(log, WORKING, now, lo, hi) >= 0
  {
    hide Parse;
    if log != [] {
      PhasesAddUp(log[..|log| - 1], log[|log| - 1].at, lo, hi);
    }
  }

  lemma BreaksAreBreakTime(z: Zone, log: Log, now: int, n: int)
    requires TwoOffsets(z) && SwitchesAtTwo(z) && WellFormed(log) && UpTo(log, now)
    ensures BreakOn(CalendarOf(z, log, now), n) == PhaseTimeOn(z, log, ON_BREAK, now, n)
  {
    hide CalendarOf, AllSegments, PhaseTime, SumOverlap, Parse, InTime, Pairs, Midnight;
    CalendarSums(z, log, now, n);
    SpansGoForward(log, now);
    AllSegmentsMeasure(z, Breaks(log, now), n);
    MidnightsAscend(z, n, n + 1);
    PairsMeasurePhases(log, BreakIn, BreakOut, ON_BREAK, now, Midnight(z, n), Midnight(z, n + 1));
  }

  lemma CapPlaysNoPart(log: Log, now: int, lo: int, hi: int)
    requires BelowCap(log, now, hi)
    ensures SumOverlap(Sessions(log, now), lo, hi) == SumOverlap(Reached(log, TimeIn, TimeOut, now), lo, hi)
  {
    var (done, current) := Pairs(log, TimeIn, TimeOut);
    if current.Some? {
      SumOfMore(done, Span(current.value, Min(now, current.value + MAX_LIVE)), lo, hi);
      SumOfMore(done, Span(current.value, now), lo, hi);
    }
    hide Pairs;
  }

  lemma SessionsAreShiftTime(z: Zone, log: Log, now: int, n: int)
    requires TwoOffsets(z) && SwitchesAtTwo(z) && WellFormed(log) && UpTo(log, now)
    requires BelowCap(log, now, Midnight(z, n + 1))
    ensures GrossOn(CalendarOf(z, log, now), n) == PhaseTimeOn(z, log, ON_SHIFT, now, n)
  {
    hide CalendarOf, AllSegments, PhaseTime, SumOverlap, Parse, InTime, Pairs, Midnight, BelowCap, Sessions;
    CalendarSums(z, log, now, n);
    SpansGoForward(log, now);
    AllSegmentsMeasure(z, Sessions(log, now), n);
    MidnightsAscend(z, n, n + 1);
    CapPlaysNoPart(log, now, Midnight(z, n), Midnight(z, n + 1));
    PairsMeasurePhases(log, TimeIn, TimeOut, ON_SHIFT, now, Midnight(z, n), Midnight(z, n + 1));
  }

  /**
   On every calendar day the total is exactly the time of that day spent working: nothing is lost or
   counted twice at midnight or at a clock change, and the difference is never clipped at zero.
   */
  lemma DayTotalIsWorkedTime(z: Zone, log: Log, now: int, n: int)
    requires TwoOffsets(z) && SwitchesAtTwo(z) && WellFormed(log) && UpTo(log, now)
    requires BelowCap(log, now, Midnight(z, n + 1))
    ensures TotalOn(CalendarOf(z, log, now), n) == PhaseTimeOn(z, log, WORKING, now, n)
  {
    hide CalendarOf, PhaseTime, Parse, InTime, Midnight, BelowCap;
    CalendarSums(z, log, now, n);
    SessionsAreShiftTime(z, log, now, n);
    BreaksAreBreakTime(z, log, now, n);
    MidnightsAscend(z, n, n + 1);
    PhasesAddUp(log, now, Midnight(z, n), Midnight(z, n + 1));
  }

  // ----- The 25-hour cap

  lemma OpenIsLast(log: Log, now: int)
    requires Capped(log, now)
    ensures var (done, current) := Pairs(log, TimeIn, TimeOut);
      && current.Some?
      && Sessions(log, now) == done + [Span(current.value, current.value + MAX_LIVE)]
      && Reached(log, TimeIn, TimeOut, now) == done + [Span(current.value, now)]
  {
  }

  /** The day on which a capped shift reaches the cap is credited with too little. */
  lemma CapShortensADay(z: Zone, log: Log, now: int)
    requires TwoOffsets(z) && SwitchesAtTwo(z) && WellFormed(log) && UpTo(log, now) && Capped(log, now)
    ensures var n := DayOf(z, Pairs(log, TimeIn, TimeOut).1.value + MAX_LIVE);
      GrossOn(CalendarOf(z, log, now), n) < PhaseTimeOn(z, log, ON_SHIFT, now, n)
  {
    hide CalendarOf, AllSegments, PhaseTime, Parse, InTime, Pairs, Midnight, DayOf;
    OpenIsLast(log, now);
    var (done, current) := Pairs(log, TimeIn, TimeOut);
    var end := current.value + MAX_LIVE;
    var n := DayOf(z, end);
    CalendarSums(z, log, now, n);
    SpansGoForward(log, now);
    AllSegmentsMeasure(z, Sessions(log, now), n);
    MidnightIsAhead(z, end);
    PairsMeasurePhases(log, TimeIn, TimeOut, ON_SHIFT, now, Midnight(z, n), Midnight(z, n + 1));
    SumOfMore(done, Span(current.value, end), Midnight(z, n), Midnight(z, n + 1));
    SumOfMore(done, Span(current.value, now), Midnight(z, n), Midnight(z, n + 1));
  }

  lemma NotCappedIsBelow(log: Log, now: int, t: int)
    requires !Capped(log, now)
    ensures BelowCap(log, now, t)
  {
  }

  /** The time on shift is right on every day exactly as long as no shift has run into the cap. */
  lemma ShiftTimeIsExactExactlyWhen(z: Zone, log: Log, now: int)
    requires TwoOffsets(z) && SwitchesAtTwo(z) && WellFormed(log) && UpTo(log, now)
    ensures (forall n :: GrossOn(CalendarOf(z, log, now), n) == PhaseTimeOn(z, log, ON_SHIFT, now, n))
       <==> !Capped(log, now)
  {
    hide CalendarOf, PhaseTimeOn, GrossOn, Parse, InTime, Pairs, DayOf, Capped;
    if Capped(log, now) {
      CapShortensADay(z, log, now);
    } else {
      forall n
        ensures GrossOn(CalendarOf(z, log, now), n) == PhaseTimeOn(z, log, ON_SHIFT, now, n)
      {
        NotCappedIsBelow(log, now, Midnight(z, n + 1));
        SessionsAreShiftTime(z, log, now, n);
      }
    }
  }

  // ----- Weeks

  /** The Saturday of the day's week; day 0, 1 January 1970, was a Thursday. */
  function SaturdayOf(n: int): int {
    n + 6 - (n + 4) % 7
  }

  lemma WeekIsSevenDays(n: int, saturday: int)
    requires SaturdayOf(saturday) == saturday
    ensures SaturdayOf(n) == saturday <==> saturday - 6 <= n <= saturday
    ensures SaturdayOf(SaturdayOf(n)) == SaturdayOf(n)
  {
  }

  /** The sum of a quantity over `count` days, of those that are `seen`. */
  function SumDays(quantity: int -> int, seen: set<int>, first: int, count: nat): int {
    if count == 0 then 0
    else
      SumDays(quantity, seen, first, count - 1)
      + (if first + count - 1 in seen then quantity(first + count - 1) else 0)
  }

  function Totals(c: Calendar): int -> int {
    n => TotalOn(c, n)
  }

  lemma {:induction false} OneMoreDay(quantity: int -> int, seen: set<int>, day: int, first: int, count: nat)
    requires day !in seen
    ensures SumDays(quantity, seen + {day}, first, count)
         == SumDays(quantity, seen, first, count) + (if first <= day < first + count then quantity(day) else 0)
  {
    if count > 0 {
      OneMoreDay(quantity, seen, day, first, count - 1);
    }
  }

  lemma {:induction false} NothingSeen(quantity: int -> int, first: int, count: nat)
    ensures SumDays(quantity, {}, first, count) == 0
  {
    if count > 0 {
      NothingSeen(quantity, first, count - 1);
    }
  }

  lemma {:induction false} RangeSplits(quantity: int -> int, seen: set<int>, first: int, count: nat, more: nat)
    ensures SumDays(quantity, seen, first, count + more)
         == SumDays(quantity, seen, first, count) + SumDays(quantity, seen, first + count, more)
  {
    if more > 0 {
      RangeSplits(quantity, seen, first, count, more - 1);
    }
  }

  /** What the week ending on a Saturday has so far. */
  predicate WeekIs(c: Calendar, seen: set<int>, weeks: map<int, int>, saturday: int) {
    && (saturday in weeks ==>
          SaturdayOf(saturday) == saturday && weeks[saturday] == SumDays(Totals(c), seen, saturday - 6, 7))
    && (saturday !in weeks && SaturdayOf(saturday) == saturday ==> SumDays(Totals(c), seen, saturday - 6, 7) == 0)
  }

  lemma AddToWeek(c: Calendar, seen: set<int>, weeks: map<int, int>, day: int, saturday: int)
    requires day !in seen && WeekIs(c, seen, weeks, saturday)
    ensures TotalOn(c, day) == 0 ==> WeekIs(c, seen + {day}, weeks, saturday)
    ensures var s := SaturdayOf(day);
      var before := if s in weeks then weeks[s] else 0;
      WeekIs(c, seen + {day}, weeks[s := before + TotalOn(c, day)], saturday)
  {
    hide SumDays, TotalOn;
    OneMoreDay(Totals(c), seen, day, saturday - 6, 7);
    if SaturdayOf(saturday) == saturday {
      WeekIsSevenDays(day, saturday);
    }
    WeekIsSevenDays(day, SaturdayOf(day));
  }

  /** Some day of the week was worked. */
  ghost predicate Worked(c: Calendar, seen: set<int>, saturday: int) {
    exists n :: n in seen && TotalOn(c, n) != 0 && SaturdayOf(n) == saturday
  }

  function Skeleton(): CalendarDay {
    CalendarDay([], 0, [], 0)
  }

  /** The weeks' totals, as far as the days have been seen. */
  ghost predicate Totalled(c: Calendar, seen: set<int>, weeks: map<int, int>) {
    forall saturday ::
      WeekIs(c, seen, weeks, saturday) && (saturday in weeks <==> Worked(c, seen, saturday))
  }

  function Added(c: Calendar, weeks: map<int, int>, day: int): map<int, int> {
    var saturday := SaturdayOf(day);
    if TotalOn(c, day) == 0 then weeks
    else weeks[saturday := (if saturday in weeks then weeks[saturday] else 0) + TotalOn(c, day)]
  }

  method AddToBadge(c: Calendar, before: map<int, int>, date: int) returns (weeks: map<int, int>)
    requires date in c
    ensures weeks == Added(c, before, date)
  {
    weeks := before;
    if c[date].total != 0 {
      var saturday := SaturdayOf(date);
      weeks := weeks[saturday := (if saturday in weeks then weeks[saturday] else 0) + c[date].total];
    }
  }

  lemma WorkedOneMore(c: Calendar, seen: set<int>, day: int, saturday: int)
    ensures Worked(c, seen + {day}, saturday)
       <==> Worked(c, seen, saturday) || (TotalOn(c, day) != 0 && saturday == SaturdayOf(day))
  {
    hide TotalOn, SaturdayOf;
    if Worked(c, seen, saturday) {
      var n :| n in seen && TotalOn(c, n) != 0 && SaturdayOf(n) == saturday;
      assert n in seen + {day};
    }
    assert day in seen + {day};
  }

  lemma AddDay(c: Calendar, seen: set<int>, weeks: map<int, int>, day: int)
    requires day !in seen && Totalled(c, seen, weeks)
    ensures Totalled(c, seen + {day}, Added(c, weeks, day))
  {
    hide WeekIs, Worked, TotalOn;
    forall saturday
      ensures WeekIs(c, seen + {day}, Added(c, weeks, day), saturday)
      ensures saturday in Added(c, weeks, day) <==> Worked(c, seen + {day}, saturday)
    {
      AddToWeek(c, seen, weeks, day, saturday);
      WorkedOneMore(c, seen, day, saturday);
    }
  }

  lemma NothingTotalled(c: Calendar)
    ensures Totalled(c, {}, map[])
  {
    forall saturday
      ensures WeekIs(c, {}, map[], saturday)
    {
      NothingSeen(Totals(c), saturday - 6, 7);
    }
  }

  /** The calendar with an entry for the Saturday of every worked week. */
  function WithSaturdays(c: Calendar, saturdays: set<int>): Calendar {
    c + map s | s in saturdays - c.Keys :: Skeleton()
  }

  lemma SkeletonsAreEmpty(c: Calendar, saturdays: set<int>)
    ensures WithSaturdays(c, saturdays).Keys == c.Keys + saturdays
    ensures forall n :: TotalOn(WithSaturdays(c, saturdays), n) == TotalOn(c, n)
  {
  }

  lemma AllSeen(c: Calendar, weeks: map<int, int>)
    requires Totalled(c, c.Keys - {}, weeks)
    ensures Totalled(c, c.Keys, weeks)
  {
    assert c.Keys - {} == c.Keys;
  }

  lemma NoneSeen(c: Calendar)
    ensures Totalled(c, c.Keys - c.Keys, map[])
  {
    assert c.Keys - c.Keys == {};
    NothingTotalled(c);
  }

  lemma OneMoreSeen(c: Calendar, todo: set<int>, weeks: map<int, int>, date: int)
    requires date in todo && todo <= c.Keys && Totalled(c, c.Keys - todo, weeks)
    ensures Totalled(c, c.Keys - (todo - {date}), Added(c, weeks, date))
  {
    AddDay(c, c.Keys - todo, weeks, date);
    assert c.Keys - (todo - {date}) == c.Keys - todo + {date};
    hide *;
  }

  /** Each worked week gets its total, and its Saturday an entry of the calendar to show it on. */
  method AttachWeekTotals(c: Calendar) returns (shown: Calendar, weeks: map<int, int>)
    ensures Totalled(c, c.Keys, weeks)
    ensures shown.Keys == c.Keys + weeks.Keys
    ensures forall n :: TotalOn(shown, n) == TotalOn(c, n)
  {
    hide *;
    weeks := map[];
    var todo := c.Keys;
    NoneSeen(c);
    while todo != {}
      invariant todo <= c.Keys
      invariant Totalled(c, c.Keys - todo, weeks)
      decreases |todo|
    {
      EmptyOrNot(todo);
      var date :| date in todo;
      OneMoreSeen(c, todo, weeks, date);
      weeks := AddToBadge(c, weeks, date);
      todo := todo - {date};
    }
    AllSeen(c, weeks);
    shown := WithSaturdays(c, weeks.Keys);
    SkeletonsAreEmpty(c, weeks.Keys);
  }

  lemma {:induction false} PhaseWindowSplits(log: Log, phases: set<Phase>, now: int, lo: int, mid: int, hi: int)
    requires InTime(log) && UpTo(log, now) && lo <= mid <= hi
    ensures PhaseTime(log, phases, now, lo, hi)
         == PhaseTime(log, phases, now, lo, mid) + PhaseTime(log, phases, now, mid, hi)
  {
    hide Parse, Overlap;
    if log != [] {
      var e := log[|log| - 1];
      PhaseWindowSplits(log[..|log| - 1], phases, e.at, lo, mid, hi);
      WindowSplits(Span(e.at, now), lo, mid, hi);
    }
  }

  lemma {:induction false} EmptyWindow(log: Log, phases: set<Phase>, now: int, t: int)
    ensures PhaseTime(log, phases, now, t, t) == 0
  {
    if log != [] {
      EmptyWindow(log[..|log| - 1], phases, log[|log| - 1].at, t);
    }
  }

  lemma BelowCapEarlier(log: Log, now: int, s: int, t: int)
    requires s <= t && BelowCap(log, now, t)
    ensures BelowCap(log, now, s)
  {
  }

  /** The totals of days in a row add up to the time worked from the first midnight to the last. */
  lemma {:induction false} DaysAddUp(z: Zone, log: Log, now: int, first: int, count: nat)
    requires TwoOffsets(z) && SwitchesAtTwo(z) && WellFormed(log) && UpTo(log, now)
    requires BelowCap(log, now, Midnight(z, first + count))
    ensures var c := CalendarOf(z, log, now);
      SumDays(Totals(c), c.Keys, first, count)
      == PhaseTime(log, WORKING, now, Midnight(z, first), Midnight(z, first + count))
  {
    hide CalendarOf, PhaseTime, Parse, InTime, Midnight, BelowCap, UpTo;
    if count == 0 {
      EmptyWindow(log, WORKING, now, Midnight(z, first));
    } else {
      var last := first + count - 1;
      MidnightsAscend(z, last, last + 1);
      BelowCapEarlier(log, now, Midnight(z, last), Midnight(z, last + 1));
      DaysAddUp(z, log, now, first, count - 1);
      DayTotalIsWorkedTime(z, log, now, last);
      if first < last {
        MidnightsAscend(z, first, last);
      }
      PhaseWindowSplits(log, WORKING, now, Midnight(z, first), Midnight(z, last), Midnight(z, last + 1));
    }
  }

  /** A week's total is the time worked between its Sunday's midnight and the next. */
  lemma WeekTotalIsWorkedTime(z: Zone, log: Log, now: int, weeks: map<int, int>, saturday: int)
    requires TwoOffsets(z) && SwitchesAtTwo(z) && WellFormed(log) && UpTo(log, now)
    requires BelowCap(log, now, Midnight(z, saturday + 1)) && SaturdayOf(saturday) == saturday
    requires Totalled(CalendarOf(z, log, now), CalendarOf(z, log, now).Keys, weeks)
    ensures (if saturday in weeks then weeks[saturday] else 0)
         == PhaseTime(log, WORKING, now, Midnight(z, saturday - 6), Midnight(z, saturday + 1))
  {
    hide CalendarOf, PhaseTime, Midnight, BelowCap, UpTo, Parse, InTime, SumDays;
    DaysAddUp(z, log, now, saturday - 6, 7);
  }
}
