/**
 The core of the time sheets: pairing log entries into work sessions and breaks, cutting them at
 local midnights, and adding them up by calendar day. What is paid for a day is measured against the
 shift log itself: the time during which the log is in a given phase.
 */
module TimeLogEngine {
  import opened Text
  import opened Gregorian
  import opened LocalTime
  import opened ShiftLog

  /** A stretch of time, its end not included. */
  datatype Span = Span(start: int, end: int)

  /** The part of a stretch that lies in one local day. */
  datatype Segment = Segment(day: int, start: int, end: int)

  const MAX_LIVE: int := 25 * HOUR

  function Min(a: int, b: int): int {
    if a <= b then a else b
  }

  function Max(a: int, b: int): int {
    if a >= b then a else b
  }

  // ----- Measuring

  /** How much of a stretch lies in a window. */
  function Overlap(a: Span, lo: int, hi: int): int {
    Max(0, Min(a.end, hi) - Max(a.start, lo))
  }

  function SumOverlap(spans: seq<Span>, lo: int, hi: int): int {
    if spans == [] then 0 else SumOverlap(spans[..|spans| - 1], lo, hi) + Overlap(spans[|spans| - 1], lo, hi)
  }

  /** The time in a window during which the log, up to `now`, is in one of the given phases. */
  function PhaseTime(log: Log, phases: set<Phase>, now: int, lo: int, hi: int): int {
    if log == [] then 0
    else
      var last := log[|log| - 1];
      PhaseTime(log[..|log| - 1], phases, last.at, lo, hi)
      + (if Parse(log).Some? && Parse(log).value in phases then Overlap(Span(last.at, now), lo, hi) else 0)
  }

  function TotalLength(spans: seq<Span>): int {
    if spans == [] then 0
    else TotalLength(spans[..|spans| - 1]) + spans[|spans| - 1].end - spans[|spans| - 1].start
  }

  lemma OverlapSplits(s: int, m: int, e: int, lo: int, hi: int)
    requires s <= m <= e && lo <= hi
    ensures Overlap(Span(s, e), lo, hi) == Overlap(Span(s, m), lo, hi) + Overlap(Span(m, e), lo, hi)
  {
  }

  lemma WindowSplits(a: Span, lo: int, mid: int, hi: int)
    requires lo <= mid <= hi && a.start <= a.end
    ensures Overlap(a, lo, hi) == Overlap(a, lo, mid) + Overlap(a, mid, hi)
  {
  }

  // ----- Pairing

  /** The stretches from an opening entry to the next closing one, and the one still open. */
  function Pairs(log: Log, opens: Kind, closes: Kind): (seq<Span>, Option<int>) {
    if log == [] then ([], None)
    else
      var (done, current) := Pairs(log[..|log| - 1], opens, closes);
      var e := log[|log| - 1];
      if e.kind == opens then (done, Some(e.at))
      else if e.kind == closes && current.Some? then (done + [Span(current.value, e.at)], None)
      else (done, current)
  }

  /** Finished sessions, and the running one up to now, but for 25 hours at most. */
  function Sessions(log: Log, now: int): seq<Span> {
    var (done, current) := Pairs(log, TimeIn, TimeOut);
    if current.Some? then done + [Span(current.value, Min(now, current.value + MAX_LIVE))] else done
  }

  function Breaks(log: Log, now: int): seq<Span> {
    var (done, current) := Pairs(log, BreakIn, BreakOut);
    if current.Some? then done + [Span(current.value, now)] else done
  }

  method BuildSessions(log: Log, now: int) returns (sessions: seq<Span>)
    ensures sessions == Sessions(log, now)
  {
    sessions := [];
    var currentIn: Option<int> := None;
    for i := 0 to |log|
      invariant (sessions, currentIn) == Pairs(log[..i], TimeIn, TimeOut)
    {
      assert log[..i + 1][..i] == log[..i];
      if log[i].kind == TimeIn {
        currentIn := Some(log[i].at);
      } else if log[i].kind == TimeOut && currentIn.Some? {
        sessions := sessions + [Span(currentIn.value, log[i].at)];
        currentIn := None;
      }
    }
    assert log[..|log|] == log;
    if currentIn.Some? {
      var elapsed := now - currentIn.value;
      sessions := sessions + [Span(currentIn.value, currentIn.value + Min(elapsed, MAX_LIVE))];
    }
  }

  method BuildBreakSessions(log: Log, now: int) returns (breaks: seq<Span>)
    ensures breaks == Breaks(log, now)
  {
    breaks := [];
    var currentBreakIn: Option<int> := None;
    for i := 0 to |log|
      invariant (breaks, currentBreakIn) == Pairs(log[..i], BreakIn, BreakOut)
    {
      assert log[..i + 1][..i] == log[..i];
      if log[i].kind == BreakIn {
        currentBreakIn := Some(log[i].at);
      } else if log[i].kind == BreakOut && currentBreakIn.Some? {
        breaks := breaks + [Span(currentBreakIn.value, log[i].at)];
        currentBreakIn := None;
      }
    }
    assert log[..|log|] == log;
    if currentBreakIn.Some? {
      breaks := breaks + [Span(currentBreakIn.value, now)];
    }
  }

  // ----- Pairing measures the phases of the log

  const ON_SHIFT: set<Phase> := {On, OnBreak}
  const ON_BREAK: set<Phase> := {OnBreak}
  const WORKING: set<Phase> := {On}

  /** What a pair of kinds measures. */
  predicate Measures(opens: Kind, closes: Kind, phases: set<Phase>) {
    || (opens == TimeIn && closes == TimeOut && phases == ON_SHIFT)
    || (opens == BreakIn && closes == BreakOut && phases == ON_BREAK)
  }

  predicate UpTo(log: Log, now: int) {
    log != [] ==> log[|log| - 1].at <= now
  }

  function Reached(log: Log, opens: Kind, closes: Kind, now: int): seq<Span> {
    var (done, current) := Pairs(log, opens, closes);
    if current.Some? then done + [Span(current.value, now)] else done
  }

  lemma SumOfMore(spans: seq<Span>, a: Span, lo: int, hi: int)
    ensures SumOverlap(spans + [a], lo, hi) == SumOverlap(spans, lo, hi) + Overlap(a, lo, hi)
  {
    assert (spans + [a])[..|spans|] == spans;
  }

  lemma FrontIsWellFormed(log: Log)
    requires WellFormed(log) && log != []
    ensures WellFormed(log[..|log| - 1]) && UpTo(log[..|log| - 1], log[|log| - 1].at)
    ensures Next(Parse(log[..|log| - 1]).value, log[|log| - 1].kind) == Parse(log)
  {
  }

  /** A stretch is open exactly while the log is in its phases, and began no later than the last entry. */
  lemma {:induction false} OpenInPhase(log: Log, opens: Kind, closes: Kind, phases: set<Phase>)
    requires WellFormed(log) && Measures(opens, closes, phases)
    ensures var current := Pairs(log, opens, closes).1;
      && (current.Some? <==> Parse(log).value in phases)
      && (current.Some? ==> log != [] && current.value <= log[|log| - 1].at)
  {
    if log != [] {
      FrontIsWellFormed(log);
      OpenInPhase(log[..|log| - 1], opens, closes, phases);
    }
  }

  lemma StepMeasures(log: Log, opens: Kind, closes: Kind, phases: set<Phase>, now: int, lo: int, hi: int)
    requires log != [] && UpTo(log, now) && lo <= hi && opens != closes
    requires var current := Pairs(log[..|log| - 1], opens, closes).1;
      && (current.Some? ==> current.value <= log[|log| - 1].at)
      && (log[|log| - 1].kind == opens ==> current.None?)
      && (log[|log| - 1].kind == closes ==> current.Some?)
    requires Pairs(log, opens, closes).1.Some? <==> Parse(log).Some? && Parse(log).value in phases
    ensures SumOverlap(Reached(log, opens, closes, now), lo, hi)
         == SumOverlap(Reached(log[..|log| - 1], opens, closes, log[|log| - 1].at), lo, hi)
          + (if Parse(log).Some? && Parse(log).value in phases
             then Overlap(Span(log[|log| - 1].at, now), lo, hi) else 0)
  {
    hide Parse, Overlap;
    var e := log[|log| - 1];
    var (done, current) := Pairs(log[..|log| - 1], opens, closes);
    if e.kind == opens {
      SumOfMore(done, Span(e.at, now), lo, hi);
    } else if current.Some? {
      SumOfMore(done, Span(current.value, e.at), lo, hi);
      SumOfMore(done, Span(current.value, now), lo, hi);
      OverlapSplits(current.value, e.at, now, lo, hi);
    }
  }

  lemma PhaseTimeStep(log: Log, phases: set<Phase>, now: int, lo: int, hi: int)
    requires log != []
    ensures PhaseTime(log, phases, now, lo, hi)
         == PhaseTime(log[..|log| - 1], phases, log[|log| - 1].at, lo, hi)
          + (if Parse(log).Some? && Parse(log).value in phases
             then Overlap(Span(log[|log| - 1].at, now), lo, hi) else 0)
  {
  }

  /** What one entry does to the stretch that is open. */
  lemma OpensOnceOnly(log: Log, opens: Kind, closes: Kind, phases: set<Phase>)
    requires WellFormed(log) && log != [] && Measures(opens, closes, phases)
    ensures var (current, last) := (Pairs(log[..|log| - 1], opens, closes).1, log[|log| - 1]);
      && opens != closes
      && (current.Some? ==> current.value <= last.at)
      && (last.kind == opens ==> current.None?)
      && (last.kind == closes ==> current.Some?)
    ensures Pairs(log, opens, closes).1.Some? <==> Parse(log).Some? && Parse(log).value in phases
  {
    FrontIsWellFormed(log);
    OpenInPhase(log[..|log| - 1], opens, closes, phases);
    OpenInPhase(log, opens, closes, phases);
    hide Pairs, Parse, InTime;
  }

  /** In any window, the paired stretches add up to the time the log spends in their phases. */
  lemma {:induction false} PairsMeasurePhases(
    log: Log, opens: Kind, closes: Kind, phases: set<Phase>, now: int, lo: int, hi: int)
    requires WellFormed(log) && UpTo(log, now) && Measures(opens, closes, phases) && lo <= hi
    ensures SumOverlap(Reached(log, opens, closes, now), lo, hi) == PhaseTime(log, phases, now, lo, hi)
  {
    if log != [] {
      var front, e := log[..|log| - 1], log[|log| - 1];
      FrontIsWellFormed(log);
      PairsMeasurePhases(front, opens, closes, phases, e.at, lo, hi);
      OpensOnceOnly(log, opens, closes, phases);
      StepMeasures(log, opens, closes, phases, now, lo, hi);
      PhaseTimeStep(log, phases, now, lo, hi);
      hide *;
    }
  }
}
