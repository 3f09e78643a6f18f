/**
 The payroll builds its calendar for each period from part of the shift log only: the entries from a
 look-back to the end of the period. What that loses, exactly, and what is paid in the end.
 */
module PayrollWindow {
  import opened Text
  import opened Gregorian
  import opened LocalTime
  import opened ShiftLog
  import opened ShiftHandlers
  import opened TimeLogEngine
  import opened TimeSheetDays
  import opened TimeSheet
  import opened PayPeriods

  // ----- The window and what it leaves out

  function Before(log: Log, t: int): Log {
    if log == [] || log[|log| - 1].at < t then log else Before(log[..|log| - 1], t)
  }

  /** The entries from `lookback` to before `end`. */
  function Window(log: Log, lookback: int, end: int): Log {
    Before(Since(log, lookback), end)
  }

  predicate Starts(log: Log, k: nat, t: int)
    requires k <= |log|
  {
    (forall i | 0 <= i < k :: log[i].at < t) && (forall i | k <= i < |log| :: log[i].at >= t)
  }

  /** From `k` on, the first place where nobody is on shift, or the end of the window. */
  function OffFrom(log: Log, k: nat, j: nat): (m: nat)
    requires k <= j <= |log|
    ensures k <= m <= j
    decreases j - k
  {
    if k == j || Parse(log[..k]) == Some(Off) then k else OffFrom(log, k + 1, j)
  }

  lemma {:induction false} OffFromFinds(log: Log, k: nat, j: nat)
    requires k <= j <= |log|
    ensures OffFrom(log, k, j) == j || Parse(log[..OffFrom(log, k, j)]) == Some(Off)
    ensures forall i | k <= i < OffFrom(log, k, j) :: Parse(log[..i]) != Some(Off)
    decreases j - k
  {
    hide Parse;
    if k < j && Parse(log[..k]) != Some(Off) {
      OffFromFinds(log, k + 1, j);
    }
  }

  /** The window is `log[k..j]`; a shift that began before it ends at `m`. */
  predicate Splits(log: Log, lookback: int, end: int, k: nat, m: nat, j: nat) {
    && k <= m <= j <= |log|
    && Window(log, lookback, end) == log[k..j]
    && Starts(log, k, lookback) && Starts(log, j, end)
    && m == OffFrom(log, k, j)
  }

  lemma {:induction false} BeforeIsHead(log: Log, t: int) returns (j: nat)
    requires InTime(log)
    ensures j <= |log| && Before(log, t) == log[..j] && Starts(log, j, t)
  {
    if log == [] || log[|log| - 1].at < t {
      j := |log|;
    } else {
      j := BeforeIsHead(log[..|log| - 1], t);
    }
  }

  lemma HeadOfTail(log: Log, k: nat, i: nat)
    requires k + i <= |log|
    ensures log[k..][..i] == log[k..k + i]
  {
  }

  lemma StartsInTail(log: Log, k: nat, i: nat, t: int)
    requires k + i <= |log| && Starts(log[k..], i, t) && (forall n | 0 <= n < k :: log[n].at < t)
    ensures Starts(log, k + i, t)
  {
    forall n | k <= n < |log| ensures log[n] == log[k..][n - k] {
    }
  }

  lemma TailIsInTime(log: Log, k: nat)
    requires InTime(log) && k <= |log|
    ensures InTime(log[k..])
  {
  }

  lemma WindowSplitsLog(log: Log, lookback: int, end: int) returns (k: nat, m: nat, j: nat)
    requires InTime(log) && lookback <= end
    ensures Splits(log, lookback, end, k, m, j)
  {
    hide InTime, Since, Before, OffFrom;
    k := SinceIsTail(log, lookback);
    TailIsInTime(log, k);
    var i := BeforeIsHead(log[k..], end);
    j := k + i;
    HeadOfTail(log, k, i);
    StartsInTail(log, k, i, end);
    m := OffFrom(log, k, j);
  }

  // ----- Measuring the parts

  lemma LaterNow(log: Log, phases: set<Phase>, now: int, later: int, lo: int, hi: int)
    requires UpTo(log, now) && lo <= hi <= now <= later
    ensures PhaseTime(log, phases, now, lo, hi) == PhaseTime(log, phases, later, lo, hi)
  {
    hide Parse;
  }

  lemma FrontInTime(log: Log)
    requires InTime(log) && log != []
    ensures InTime(log[..|log| - 1]) && UpTo(log[..|log| - 1], log[|log| - 1].at)
  {
  }

  /** Leaving out what comes after a stretch of time does not change what is measured in it. */
  lemma {:induction false} LaterEntriesDoNotMatter(log: Log, j: nat, phases: set<Phase>, now: int, lo: int, hi: int)
    requires InTime(log) && UpTo(log, now) && j <= |log| && lo <= hi <= now
    requires forall i | j <= i < |log| :: log[i].at >= hi
    ensures UpTo(log[..j], now)
    ensures PhaseTime(log[..j], phases, now, lo, hi) == PhaseTime(log, phases, now, lo, hi)
  {
    if j == |log| {
      assert log[..j] == log;
    } else {
      var front, e := log[..|log| - 1], log[|log| - 1];
      assert front[..j] == log[..j];
      FrontInTime(log);
      LaterEntriesDoNotMatter(front, j, phases, e.at, lo, hi);
      LaterNow(log[..j], phases, e.at, now, lo, hi);
      hide Parse, InTime;
    }
  }

  lemma OffDoesNotCount(log: Log, phases: set<Phase>, now: int, later: int, lo: int, hi: int)
    requires Parse(log) == Some(Off) && Off !in phases
    ensures PhaseTime(log, phases, now, lo, hi) == PhaseTime(log, phases, later, lo, hi)
  {
  }

  /** Measured in one window, a log that pauses off shift is the sum of its two parts. */
  lemma {:induction false} PartsAddUp(lost: Log, rest: Log, phases: set<Phase>, now: int, lo: int, hi: int)
    requires Off !in phases && (rest == [] || Parse(lost) == Some(Off))
    ensures PhaseTime(lost + rest, phases, now, lo, hi)
         == PhaseTime(lost, phases, now, lo, hi) + PhaseTime(rest, phases, now, lo, hi)
  {
    if rest == [] {
      assert lost + rest == lost;
    } else {
      var front, e := rest[..|rest| - 1], rest[|rest| - 1];
      assert (lost + rest)[..|lost + rest| - 1] == lost + front;
      ParseFromOff(lost, rest);
      PartsAddUp(lost, front, phases, e.at, lo, hi);
      OffDoesNotCount(lost, phases, e.at, now, lo, hi);
      hide Parse, Overlap;
    }
  }

  lemma {:induction false} NothingYet(log: Log, phases: set<Phase>, now: int, lo: int, hi: int)
    requires InTime(log) && UpTo(log, now) && now <= lo <= hi
    ensures PhaseTime(log, phases, now, lo, hi) == 0
  {
    if log != [] {
      FrontInTime(log);
      NothingYet(log[..|log| - 1], phases, log[|log| - 1].at, lo, hi);
    }
    hide Parse;
  }

  lemma {:induction false} PhaseTimeIsPositive(log: Log, phases: set<Phase>, now: int, lo: int, hi: int)
    ensures PhaseTime(log, phases, now, lo, hi) >= 0
  {
    if log != [] {
      PhaseTimeIsPositive(log[..|log| - 1], phases, log[|log| - 1].at, lo, hi);
    }
    hide Parse;
  }

  // ----- What the engine pairs in a window

  lemma {:induction false} PairsJoin(lead: Log, rest: Log, opens: Kind, closes: Kind)
    requires Pairs(lead, opens, closes).1 == None
    ensures Pairs(lead + rest, opens, closes)
         == (Pairs(lead, opens, closes).0 + Pairs(rest, opens, closes).0, Pairs(rest, opens, closes).1)
  {
    if rest == [] {
      assert lead + rest == lead;
      assert Pairs(lead, opens, closes).0 + [] == Pairs(lead, opens, closes).0;
    } else {
      var front, e := rest[..|rest| - 1], rest[|rest| - 1];
      assert (lead + rest)[..|lead + rest| - 1] == lead + front;
      PairsJoin(lead, front, opens, closes);
      var (done, current) := Pairs(front, opens, closes);
      if current.Some? {
        var a, more := Pairs(lead, opens, closes).0, [Span(current.value, e.at)];
        assert a + done + more == a + (done + more);
      }
    }
  }

  lemma {:induction false} NoSessionWithoutTimeIn(lead: Log)
    requires forall i | 0 <= i < |lead| :: !lead[i].kind.TimeIn?
    ensures Pairs(lead, TimeIn, TimeOut) == ([], None)
  {
    if lead != [] {
      NoSessionWithoutTimeIn(lead[..|lead| - 1]);
    }
  }

  lemma {:induction false} PrefixParses(log: Log, m: nat)
    requires Parse(log).Some? && m <= |log|
    ensures Parse(log[..m]).Some?
  {
    if m == |log| {
      assert log[..m] == log;
    } else {
      assert log[..|log| - 1][..m] == log[..m];
      PrefixParses(log[..|log| - 1], m);
    }
  }

  /** A break opened since `k` is still open only while the log is on break. */
  lemma {:induction false} LeadBreakIsOpen(log: Log, k: nat, m: nat)
    requires k <= m <= |log| && Parse(log).Some?
    ensures Parse(log[..m]).Some?
    ensures Pairs(log[k..m], BreakIn, BreakOut).1.Some? ==> Parse(log[..m]) == Some(OnBreak)
  {
    PrefixParses(log, m);
    if k == m {
      assert log[k..m] == [];
    } else {
      LeadBreakIsOpen(log, k, m - 1);
      var lead, head := log[k..m], log[..m];
      assert lead[..|lead| - 1] == log[k..m - 1] && lead[|lead| - 1] == log[m - 1];
      assert head[..|head| - 1] == log[..m - 1] && head[|head| - 1] == log[m - 1];
    }
  }

  /** A shift that reaches into the window starts no session there. */
  lemma LeadHasNoTimeIn(log: Log, k: nat, j: nat)
    requires k <= j <= |log| && Parse(log).Some?
    ensures forall i | k <= i < OffFrom(log, k, j) :: !log[i].kind.TimeIn?
  {
    OffFromFinds(log, k, j);
    forall i | k <= i < OffFrom(log, k, j) ensures !log[i].kind.TimeIn? {
      PrefixParses(log, i);
      PrefixParses(log, i + 1);
      assert log[..i + 1][..i] == log[..i];
    }
  }

  /** Pairs go forward in any log in time order, in the grammar or not. */
  lemma {:induction false} AnyPairsGoForward(log: Log, opens: Kind, closes: Kind)
    requires InTime(log)
    ensures Forward(Pairs(log, opens, closes).0)
    ensures Pairs(log, opens, closes).1.Some? ==> log != [] && Pairs(log, opens, closes).1.value <= log[|log| - 1].at
  {
    if log != [] {
      FrontInTime(log);
      AnyPairsGoForward(log[..|log| - 1], opens, closes);
      hide InTime;
    }
  }

  lemma AnySpansGoForward(log: Log, now: int)
    requires InTime(log) && UpTo(log, now)
    ensures Forward(Sessions(log, now)) && Forward(Breaks(log, now))
  {
    AnyPairsGoForward(log, TimeIn, TimeOut);
    AnyPairsGoForward(log, BreakIn, BreakOut);
    hide Pairs, InTime;
  }

  lemma {:induction false} SumOverlapJoins(a: seq<Span>, b: seq<Span>, lo: int, hi: int)
    ensures SumOverlap(a + b, lo, hi) == SumOverlap(a, lo, hi) + SumOverlap(b, lo, hi)
  {
    hide Overlap;
    if b == [] {
      assert a + b == a;
    } else {
      assert (a + b)[..|a + b| - 1] == a + b[..|b| - 1];
      SumOverlapJoins(a, b[..|b| - 1], lo, hi);
    }
  }

  lemma {:induction false} SumOverlapIsPositive(spans: seq<Span>, lo: int, hi: int)
    ensures SumOverlap(spans, lo, hi) >= 0
  {
    if spans != [] {
      SumOverlapIsPositive(spans[..|spans| - 1], lo, hi);
    }
  }

  // ----- One day of the window's calendar

  /** What the window still knows of the work of a day. */
  function Known(z: Zone, rest: Log, now: int, day: int): int {
    PhaseTimeOn(z, rest, WORKING, now, day)
  }

  /** The breaks of a shift that began before the window; they find no session to be taken from. */
  function Stray(z: Zone, lead: Log, now: int, day: int): int {
    SumOverlap(Breaks(lead, now), Midnight(z, day), Midnight(z, day + 1))
  }

  lemma SliceInTime(log: Log, m: nat, j: nat)
    requires InTime(log) && m <= j <= |log|
    ensures InTime(log[m..j])
  {
  }

  lemma RestIsWellFormed(log: Log, k: nat, j: nat)
    requires WellFormed(log) && k <= j <= |log|
    ensures var m := OffFrom(log, k, j);
      && WellFormed(log[m..j])
      && (m == j || Parse(log[..m]) == Some(Off))
      && log[..j] == log[..m] + log[m..j]
  {
    OffFromFinds(log, k, j);
    var m := OffFrom(log, k, j);
    PrefixParses(log, j);
    assert log[..j] == log[..m] + log[m..j];
    if m < j {
      ParseFromOff(log[..m], log[m..j]);
    } else {
      assert log[m..j] == [];
    }
    SliceInTime(log, m, j);
    hide InTime;
  }

  lemma SliceUpTo(log: Log, m: nat, j: nat, now: int)
    requires InTime(log) && UpTo(log, now) && m <= j <= |log|
    ensures UpTo(log[m..j], now)
  {
    if m < j {
      assert log[j - 1].at <= log[|log| - 1].at || j == |log|;
    }
  }

  lemma BreaksJoin(lead: Log, rest: Log, now: int, lo: int, hi: int)
    requires Pairs(lead, BreakIn, BreakOut).1 == None
    ensures SumOverlap(Breaks(lead + rest, now), lo, hi)
         == SumOverlap(Breaks(lead, now), lo, hi) + SumOverlap(Breaks(rest, now), lo, hi)
  {
    PairsJoin(lead, rest, BreakIn, BreakOut);
    hide Pairs, Overlap, SumOverlap;
    assert Breaks(lead + rest, now) == Breaks(lead, now) + Breaks(rest, now);
    SumOverlapJoins(Breaks(lead, now), Breaks(rest, now), lo, hi);
  }

  /** The window's sessions are those of the shifts that begin in it; its breaks have the stray ones besides. */
  lemma WindowPairs(log: Log, k: nat, j: nat, now: int, lo: int, hi: int)
    requires WellFormed(log) && k <= j <= |log|
    ensures var m := OffFrom(log, k, j);
      && Pairs(log[k..j], TimeIn, TimeOut) == Pairs(log[m..j], TimeIn, TimeOut)
      && SumOverlap(Breaks(log[k..j], now), lo, hi)
         == SumOverlap(Breaks(log[k..m], now), lo, hi) + SumOverlap(Breaks(log[m..j], now), lo, hi)
  {
    var m := OffFrom(log, k, j);
    var lead, rest := log[k..m], log[m..j];
    assert log[k..j] == lead + rest;
    LeadHasNoTimeIn(log, k, j);
    assert forall i | 0 <= i < |lead| :: lead[i] == log[k + i];
    NoSessionWithoutTimeIn(lead);
    PairsJoin(lead, rest, TimeIn, TimeOut);
    assert [] + Pairs(rest, TimeIn, TimeOut).0 == Pairs(rest, TimeIn, TimeOut).0;
    OffFromFinds(log, k, j);
    LeadBreakIsOpen(log, k, m);
    hide Parse, InTime, OffFrom, Overlap;
    if rest == [] {
      assert lead + rest == lead;
    } else {
      PairsJoin(lead, rest, BreakIn, BreakOut);
      BreaksJoin(lead, rest, now, lo, hi);
    }
  }

  lemma SameSessions(a: Log, b: Log, now: int, t: int)
    requires Pairs(a, TimeIn, TimeOut) == Pairs(b, TimeIn, TimeOut)
    ensures Sessions(a, now) == Sessions(b, now) && (BelowCap(a, now, t) <==> BelowCap(b, now, t))
  {
  }

  /** A day of the calendar of any log in time order. */
  lemma AnyDayTotal(z: Zone, log: Log, now: int, day: int)
    requires TwoOffsets(z) && SwitchesAtTwo(z) && InTime(log) && UpTo(log, now)
    ensures var lo, hi := Midnight(z, day), Midnight(z, day + 1);
      TotalOn(CalendarOf(z, log, now), day)
      == Max(0, SumOverlap(Sessions(log, now), lo, hi) - SumOverlap(Breaks(log, now), lo, hi))
  {
    AnySpansGoForward(log, now);
    CalendarSums(z, log, now, day);
    hide CalendarOf, AllSegments, SumOverlap, InTime, Sessions, Breaks, Midnight;
    AllSegmentsMeasure(z, Sessions(log, now), day);
    AllSegmentsMeasure(z, Breaks(log, now), day);
  }

  /** In a log in the grammar, sessions less breaks are the time worked. */
  lemma SessionsLessBreaks(log: Log, now: int, lo: int, hi: int)
    requires WellFormed(log) && UpTo(log, now) && lo <= hi && BelowCap(log, now, hi)
    ensures SumOverlap(Sessions(log, now), lo, hi) - SumOverlap(Breaks(log, now), lo, hi)
         == PhaseTime(log, WORKING, now, lo, hi)
  {
    CapPlaysNoPart(log, now, lo, hi);
    PairsMeasurePhases(log, TimeIn, TimeOut, ON_SHIFT, now, lo, hi);
    PairsMeasurePhases(log, BreakIn, BreakOut, ON_BREAK, now, lo, hi);
    PhasesAddUp(log, now, lo, hi);
    hide Parse, InTime, PhaseTime, SumOverlap, Sessions, BelowCap, UpTo, Pairs;
    assert Breaks(log, now) == Reached(log, BreakIn, BreakOut, now);
  }

  lemma PartsAreFit(log: Log, now: int, k: nat, j: nat)
    requires WellFormed(log) && UpTo(log, now) && k <= j <= |log|
    ensures InTime(log[k..j]) && UpTo(log[k..j], now)
    ensures WellFormed(log[OffFrom(log, k, j)..j]) && UpTo(log[OffFrom(log, k, j)..j], now)
  {
    SliceInTime(log, k, j);
    SliceUpTo(log, k, j, now);
    SliceUpTo(log, OffFrom(log, k, j), j, now);
    RestIsWellFormed(log, k, j);
    hide Parse, InTime, UpTo, OffFrom;
  }

  lemma WindowDay(z: Zone, log: Log, k: nat, j: nat, now: int, day: int)
    requires TwoOffsets(z) && SwitchesAtTwo(z) && WellFormed(log) && UpTo(log, now) && k <= j <= |log|
    requires BelowCap(log[k..j], now, Midnight(z, day + 1))
    ensures var m := OffFrom(log, k, j);
      TotalOn(CalendarOf(z, log[k..j], now), day)
      == Max(0, Known(z, log[m..j], now, day) - Stray(z, log[k..m], now, day))
  {
    hide Parse, InTime, CalendarOf, PhaseTime, SumOverlap, Pairs, UpTo, OffFrom, Midnight, BelowCap, Sessions;
    hide WellFormed;
    var m := OffFrom(log, k, j);
    var lo, hi := Midnight(z, day), Midnight(z, day + 1);
    MidnightsAscend(z, day, day + 1);
    PartsAreFit(log, now, k, j);
    WindowPairs(log, k, j, now, lo, hi);
    AnyDayTotal(z, log[k..j], now, day);
    SameSessions(log[k..j], log[m..j], now, hi);
    hide Breaks;
    SessionsLessBreaks(log[m..j], now, lo, hi);
  }

  // ----- Many days

  function SumKnown(z: Zone, rest: Log, now: int, first: int, count: nat): int {
    if count == 0 then 0 else SumKnown(z, rest, now, first, count - 1) + Known(z, rest, now, first + count - 1)
  }

  /** What is left of it when stray breaks are taken off, day by day, but not below zero. */
  function SumPaid(z: Zone, rest: Log, lead: Log, now: int, first: int, count: nat): int {
    if count == 0 then 0
    else
      var day := first + count - 1;
      SumPaid(z, rest, lead, now, first, count - 1) + Max(0, Known(z, rest, now, day) - Stray(z, lead, now, day))
  }

  /** Nothing is taken off the day: nothing is there, or nothing is to be taken off. */
  predicate FreeDay(z: Zone, rest: Log, lead: Log, now: int, day: int) {
    Known(z, rest, now, day) == 0 || Stray(z, lead, now, day) == 0
  }

  ghost predicate FreeDays(z: Zone, rest: Log, lead: Log, now: int, first: int, count: nat) {
    forall d | first <= d < first + count :: FreeDay(z, rest, lead, now, d)
  }

  lemma BothArePositive(z: Zone, rest: Log, lead: Log, now: int, day: int)
    ensures Known(z, rest, now, day) >= 0 && Stray(z, lead, now, day) >= 0
  {
    PhaseTimeIsPositive(rest, WORKING, now, Midnight(z, day), Midnight(z, day + 1));
    SumOverlapIsPositive(Breaks(lead, now), Midnight(z, day), Midnight(z, day + 1));
  }

  lemma {:induction false} TakingOffIsFreeExactlyWhen(
    z: Zone, rest: Log, lead: Log, now: int, first: int, count: nat)
    ensures SumPaid(z, rest, lead, now, first, count) <= SumKnown(z, rest, now, first, count)
    ensures SumPaid(z, rest, lead, now, first, count) == SumKnown(z, rest, now, first, count)
       <==> FreeDays(z, rest, lead, now, first, count)
  {
    hide Known, Stray;
    if count > 0 {
      TakingOffIsFreeExactlyWhen(z, rest, lead, now, first, count - 1);
      BothArePositive(z, rest, lead, now, first + count - 1);
      assert FreeDays(z, rest, lead, now, first, count)
        <==> FreeDays(z, rest, lead, now, first, count - 1) && FreeDay(z, rest, lead, now, first + count - 1);
      hide FreeDays;
    }
  }

  lemma {:induction false} KnownAddsUp(z: Zone, rest: Log, now: int, first: int, count: nat)
    requires TwoOffsets(z) && InTime(rest) && UpTo(rest, now)
    ensures SumKnown(z, rest, now, first, count)
         == PhaseTime(rest, WORKING, now, Midnight(z, first), Midnight(z, first + count))
  {
    hide PhaseTime, InTime, Midnight, UpTo;
    if count == 0 {
      EmptyWindow(rest, WORKING, now, Midnight(z, first));
    } else {
      var last := first + count - 1;
      KnownAddsUp(z, rest, now, first, count - 1);
      MidnightsAscend(z, last, last + 1);
      if first < last {
        MidnightsAscend(z, first, last);
      }
      PhaseWindowSplits(rest, WORKING, now, Midnight(z, first), Midnight(z, last), Midnight(z, last + 1));
    }
  }

  /** Over the days, the window's calendar adds up the known work, less stray breaks. */
  lemma {:induction false} WindowDaysAddUp(z: Zone, log: Log, k: nat, j: nat, now: int, first: int, count: nat)
    requires TwoOffsets(z) && SwitchesAtTwo(z) && WellFormed(log) && UpTo(log, now) && k <= j <= |log|
    requires BelowCap(log[k..j], now, Midnight(z, first + count))
    ensures var m := OffFrom(log, k, j);
      var c := CalendarOf(z, log[k..j], now);
      SumDays(Totals(c), c.Keys, first, count) == SumPaid(z, log[m..j], log[k..m], now, first, count)
  {
    hide CalendarOf, Known, Stray, Parse, InTime, UpTo, OffFrom, Midnight, BelowCap, WellFormed;
    if count > 0 {
      var last := first + count - 1;
      MidnightsAscend(z, last, last + 1);
      BelowCapEarlier(log[k..j], now, Midnight(z, last), Midnight(z, last + 1));
      WindowDaysAddUp(z, log, k, j, now, first, count - 1);
      WindowDay(z, log, k, j, now, last);
    }
  }

  /** No work of the range was before the split, and no break of a split shift falls on a day of known work. */
  ghost predicate NothingLost(z: Zone, log: Log, k: nat, m: nat, j: nat, now: int, first: int, count: nat)
    requires k <= m <= j <= |log|
  {
    && PhaseTime(log[..m], WORKING, now, Midnight(z, first), Midnight(z, first + count)) == 0
    && FreeDays(z, log[m..j], log[k..m], now, first, count)
  }

  /** What the window's calendar gives for a range of days. */
  function PaidFor(z: Zone, log: Log, lookback: int, end: int, now: int, first: int, count: nat): int
    requires TwoOffsets(z) && SwitchesAtTwo(z)
  {
    var c := CalendarOf(z, Window(log, lookback, end), now);
    SumDays(Totals(c), c.Keys, first, count)
  }

  function WorkedIn(z: Zone, log: Log, now: int, first: int, count: nat): int {
    PhaseTime(log, WORKING, now, Midnight(z, first), Midnight(z, first + count))
  }

  lemma NothingIsLater(log: Log, now: int)
    requires InTime(log) && UpTo(log, now)
    ensures forall i | 0 <= i < |log| :: log[i].at <= now
  {
    if log != [] {
      assert forall i | 0 <= i < |log| - 1 :: log[i].at <= log[|log| - 1].at;
    }
  }

  /** What comes after the end of the window does not count in it. */
  lemma CutDoesNotMatter(log: Log, j: nat, end: int, now: int, lo: int, hi: int)
    requires InTime(log) && UpTo(log, now) && j <= |log| && Starts(log, j, end) && lo <= hi <= end
    ensures PhaseTime(log[..j], WORKING, now, lo, hi) == PhaseTime(log, WORKING, now, lo, hi)
  {
    hide PhaseTime;
    if hi <= now {
      LaterEntriesDoNotMatter(log, j, WORKING, now, lo, hi);
    } else {
      NothingIsLater(log, now);
      assert log[..j] == log;
    }
  }

  /** The time worked is what was lost and what is known. */
  lemma WorkedParts(z: Zone, log: Log, k: nat, m: nat, j: nat, end: int, now: int, first: int, count: nat)
    requires TwoOffsets(z) && WellFormed(log) && UpTo(log, now) && k <= j <= |log| && m == OffFrom(log, k, j)
    requires Starts(log, j, end) && Midnight(z, first + count) <= end
    ensures WorkedIn(z, log, now, first, count)
         == PhaseTime(log[..m], WORKING, now, Midnight(z, first), Midnight(z, first + count))
          + SumKnown(z, log[m..j], now, first, count)
    ensures PhaseTime(log[..m], WORKING, now, Midnight(z, first), Midnight(z, first + count)) >= 0
  {
    hide PhaseTime, Parse, Midnight, OffFrom, SumKnown, InTime, UpTo, Starts;
    var lo, hi := Midnight(z, first), Midnight(z, first + count);
    if count > 0 {
      MidnightsAscend(z, first, first + count);
    }
    PartsAreFit(log, now, k, j);
    RestIsWellFormed(log, k, j);
    CutDoesNotMatter(log, j, end, now, lo, hi);
    PartsAddUp(log[..m], log[m..j], WORKING, now, lo, hi);
    PhaseTimeIsPositive(log[..m], WORKING, now, lo, hi);
    KnownAddsUp(z, log[m..j], now, first, count);
  }

  /**
   Whatever happened around the look-back: a range of days is never paid for more than was worked in
   it, and for less exactly if the window lost some of its work. A shift that is running at the
   look-back is lost up to its end.
   */
  lemma PaidIsWorkedExactlyWhen(
    z: Zone, log: Log, lookback: int, end: int, now: int, first: int, count: nat) returns (k: nat, m: nat, j: nat)
    requires TwoOffsets(z) && SwitchesAtTwo(z) && WellFormed(log) && UpTo(log, now)
    requires lookback <= end && Midnight(z, first + count) <= end
    requires BelowCap(Window(log, lookback, end), now, Midnight(z, first + count))
    ensures Splits(log, lookback, end, k, m, j)
    ensures PaidFor(z, log, lookback, end, now, first, count) <= WorkedIn(z, log, now, first, count)
    ensures PaidFor(z, log, lookback, end, now, first, count) == WorkedIn(z, log, now, first, count)
       <==> NothingLost(z, log, k, m, j, now, first, count)
  {
    k, m, j := WindowSplitsLog(log, lookback, end);
    hide CalendarOf, PhaseTime, Parse, InTime, UpTo, OffFrom, Midnight, BelowCap, WellFormed, Window, Starts;
    hide SumKnown, SumPaid, SumDays, FreeDays;
    WindowDaysAddUp(z, log, k, j, now, first, count);
    WorkedParts(z, log, k, m, j, end, now, first, count);
    TakingOffIsFreeExactlyWhen(z, log[m..j], log[k..m], now, first, count);
  }
}
