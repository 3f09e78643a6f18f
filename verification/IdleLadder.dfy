/**
 The staged idle escalation of the heartbeat: stage 1 when a person goes idle, a second warning at
 stage 2, and an automatic clock-out at stage 3. A short return to work is forgiven within a grace
 window. Times are milliseconds.
 */
module IdleLadder {
  import opened Text

  const MINUTE: int := 60_000
  const GRACE: int := 3 * MINUTE
  const STAGE2_ELAPSED_MIN: real := 10.0
  const STAGE3_ELAPSED_MIN: real := 20.0

  /** The part of the stored heartbeat that the ladder reads and writes. */
  datatype Heartbeat = Heartbeat(isIdle: bool, idleSince: Option<int>, idleBrokenAt: Option<int>, idleStage: int)

  function ElapsedMin(since: int, now: int, scale: real): real {
    (now - since) as real / 60_000.0 * scale
  }

  predicate WithinGrace(h: Heartbeat, now: int) {
    h.idleBrokenAt.Some? && now - h.idleBrokenAt.value <= GRACE
  }

  function Max(a: int, b: int): int {
    if a >= b then a else b
  }

  /** The rung that an idle time has reached. */
  function Rung(elapsedMin: real): int {
    if elapsedMin >= STAGE3_ELAPSED_MIN then 3 else if elapsedMin >= STAGE2_ELAPSED_MIN then 2 else 1
  }

  /** When the current stretch of idleness counts from, after a beat. */
  function IdleSinceAfter(h: Heartbeat, now: int, isIdle: bool): Option<int> {
    if isIdle && !h.isIdle && !(WithinGrace(h, now) && h.idleSince.Some?) then Some(now)
    else if !isIdle && !h.isIdle && h.idleBrokenAt.Some? && !WithinGrace(h, now) then None
    else h.idleSince
  }

  function BrokenAtAfter(h: Heartbeat, now: int, isIdle: bool): Option<int> {
    if isIdle then (if h.isIdle then h.idleBrokenAt else None)
    else if h.isIdle then Some(now)
    else if WithinGrace(h, now) then h.idleBrokenAt
    else None
  }

  /** The stage never goes down, except to 0 when no stretch is being counted any more. */
  function StageAfter(h: Heartbeat, now: int, isIdle: bool, scale: real): int {
    var since := IdleSinceAfter(h, now, isIdle);
    if since.None? then (if isIdle then h.idleStage else 0)
    else if isIdle then Max(h.idleStage, Rung(ElapsedMin(since.value, now, scale)))
    else h.idleStage
  }

  function Posted(h: Heartbeat, now: int, isIdle: bool, scale: real): Heartbeat {
    Heartbeat(isIdle, IdleSinceAfter(h, now, isIdle), BrokenAtAfter(h, now, isIdle), StageAfter(h, now, isIdle, scale))
  }

  /** A manual clock-out by a manager: everything but the stage is cleared. */
  function ClockedOut(h: Heartbeat): Heartbeat {
    Heartbeat(false, None, None, h.idleStage)
  }

  class AgentHeartbeat {
    var isIdle: bool
    var idleSince: Option<int>
    var idleBrokenAt: Option<int>
    var idleStage: int

    function Value(): Heartbeat
      reads this
    {
      Heartbeat(isIdle, idleSince, idleBrokenAt, idleStage)
    }

    /** One beat. `exempt` stands for everything that makes the handler ignore reported idleness. */
    method PostHeartbeat(rawIsIdle: bool, exempt: bool, now: int, scale: real) returns (warned: bool, ended: bool)
      requires 0 <= idleStage <= 3
      modifies this
      ensures Value() == Posted(old(Value()), now, rawIsIdle && !exempt, scale)
      ensures warned == (old(idleStage) < 2 <= idleStage)
      ensures ended == (old(idleStage) < 3 <= idleStage)
      ensures 0 <= idleStage <= 3
    {
      var idle := if exempt then false else rawIsIdle;
      var wasIdle := isIdle;
      var existingIdleBrokenAt := idleBrokenAt;
      var withinGraceWindow := existingIdleBrokenAt.Some? && now - existingIdleBrokenAt.value <= GRACE;
      if idle && !wasIdle {
        if withinGraceWindow && idleSince.Some? {
          idleBrokenAt := None;
        } else {
          idleSince := Some(now);
          idleBrokenAt := None;
        }
      } else if !idle && wasIdle {
        idleBrokenAt := Some(now);
      } else if !idle && !wasIdle {
        if existingIdleBrokenAt.Some? && !withinGraceWindow {
          idleSince := None;
          idleBrokenAt := None;
        }
      }
      var existingIdleStage := idleStage;
      if !idle {
        if idleSince.None? {
          idleStage := 0;
        }
      } else if idleSince.Some? {
        var elapsedIdleMin := ElapsedMin(idleSince.value, now, scale);
        if elapsedIdleMin >= STAGE3_ELAPSED_MIN && existingIdleStage < 3 {
          idleStage := 3;
        } else if elapsedIdleMin >= STAGE2_ELAPSED_MIN && existingIdleStage < 2 {
          idleStage := 2;
        } else if existingIdleStage < 1 {
          idleStage := 1;
        }
      }
      isIdle := idle;
      warned := existingIdleStage < 2 && idleStage >= 2;
      ended := existingIdleStage < 3 && idleStage >= 3;
    }
  }

  // ----- Runs

  datatype Event = Beat(now: int, isIdle: bool) | ManualClockOut

  function Step(h: Heartbeat, e: Event, scale: real): Heartbeat {
    match e
    case Beat(now, isIdle) => Posted(h, now, isIdle, scale)
    case ManualClockOut => ClockedOut(h)
  }

  function Run(h: Heartbeat, events: seq<Event>, scale: real): Heartbeat {
    if events == [] then h else Step(Run(h, events[..|events| - 1], scale), events[|events| - 1], scale)
  }

  predicate Warns(h: Heartbeat, e: Event, scale: real) {
    h.idleStage < 2 <= Step(h, e, scale).idleStage
  }

  predicate Ends(h: Heartbeat, e: Event, scale: real) {
    h.idleStage < 3 <= Step(h, e, scale).idleStage
  }

  /** A beat that sets the stage to 0. */
  predicate Resets(h: Heartbeat, e: Event) {
    e.Beat? && !e.isIdle && IdleSinceAfter(h, e.now, e.isIdle).None?
  }

  function WarningsIn(h: Heartbeat, events: seq<Event>, scale: real): nat {
    if events == [] then 0
    else
      var init := events[..|events| - 1];
      WarningsIn(h, init, scale) + (if Warns(Run(h, init, scale), events[|events| - 1], scale) then 1 else 0)
  }

  /** The times of the automatic clock-outs of a run. */
  function EndTimes(h: Heartbeat, events: seq<Event>, scale: real): seq<int> {
    if events == [] then []
    else
      var init, e := events[..|events| - 1], events[|events| - 1];
      EndTimes(h, init, scale) + (if e.Beat? && Ends(Run(h, init, scale), e, scale) then [e.now] else [])
  }

  function ResetsIn(h: Heartbeat, events: seq<Event>, scale: real): nat {
    if events == [] then 0
    else
      var init := events[..|events| - 1];
      ResetsIn(h, init, scale) + (if Resets(Run(h, init, scale), events[|events| - 1]) then 1 else 0)
  }

  ghost predicate Consistent(h: Heartbeat) {
    && 0 <= h.idleStage <= 3
    && (h.isIdle ==> h.idleSince.Some? && h.idleBrokenAt.None?)
  }

  lemma StepKeepsConsistent(h: Heartbeat, e: Event, scale: real)
    requires Consistent(h)
    ensures Consistent(Step(h, e, scale))
  {
  }

  /**
   Between steps that set the stage to 0, the warning and the clock-out each happen at most once;
   over a run, at most once more than there are such steps.
   */
  lemma {:induction false} AtMostOncePerReset(h: Heartbeat, events: seq<Event>, scale: real)
    requires Consistent(h)
    ensures Consistent(Run(h, events, scale))
    ensures WarningsIn(h, events, scale) + (if Run(h, events, scale).idleStage < 2 then 1 else 0)
            <= ResetsIn(h, events, scale) + (if h.idleStage < 2 then 1 else 0)
    ensures |EndTimes(h, events, scale)| + (if Run(h, events, scale).idleStage < 3 then 1 else 0)
            <= ResetsIn(h, events, scale) + (if h.idleStage < 3 then 1 else 0)
  {
    if events != [] {
      var init := events[..|events| - 1];
      AtMostOncePerReset(h, init, scale);
      hide ElapsedMin;
      StepKeepsConsistent(Run(h, init, scale), events[|events| - 1], scale);
    }
  }

  // ----- How far apart two automatic clock-outs are

  ghost predicate InTime(events: seq<Event>) {
    forall i, j | 0 <= i < j < |events| && events[i].Beat? && events[j].Beat? :: events[i].now <= events[j].now
  }

  ghost predicate NoManual(events: seq<Event>) {
    forall i | 0 <= i < |events| :: events[i].Beat?
  }

  ghost predicate Spaced(times: seq<int>, gap: int) {
    forall i, j | 0 <= i < j < |times| :: times[j] - times[i] > gap
  }

  /**
   Where the machine stands since its last clock-out at `last`: either still at stage 3, or reset
   by a beat later than the grace window, with any new stretch counted from even later.
   */
  ghost predicate SinceEnd(h: Heartbeat, last: int, now: int) {
    && now >= last
    && (h.idleStage == 3 ==>
          h.idleSince.Some? && (h.isIdle || (h.idleBrokenAt.Some? && h.idleBrokenAt.value >= last)))
    && (h.idleStage < 3 ==> now > last + GRACE && (h.idleSince.Some? ==> h.idleSince.value > last + GRACE))
  }

  lemma TwentyMinutes(since: int, now: int)
    ensures Rung(ElapsedMin(since, now, 1.0)) == 3 <==> now - since >= 20 * MINUTE
  {
  }

  lemma EndNeedsTwentyMinutes(h: Heartbeat, now: int, isIdle: bool)
    requires Consistent(h) && Ends(h, Beat(now, isIdle), 1.0)
    ensures isIdle && IdleSinceAfter(h, now, isIdle).Some? && now - IdleSinceAfter(h, now, isIdle).value >= 20 * MINUTE
  {
    var since := IdleSinceAfter(h, now, isIdle);
    if since.Some? {
      TwentyMinutes(since.value, now);
    }
  }

  lemma BeatSinceEnd(h: Heartbeat, last: int, before: int, now: int, isIdle: bool)
    requires Consistent(h) && SinceEnd(h, last, before) && before <= now
    ensures SinceEnd(Posted(h, now, isIdle, 1.0), last, now)
            || (Ends(h, Beat(now, isIdle), 1.0) && now > last + GRACE + 20 * MINUTE)
  {
    if Ends(h, Beat(now, isIdle), 1.0) {
      EndNeedsTwentyMinutes(h, now, isIdle);
    }
    hide ElapsedMin;
  }

  /** Without a manual clock-out, two automatic ones are more than 23 minutes apart. */
  lemma {:induction false} EndsAreFarApart(h: Heartbeat, events: seq<Event>)
    requires Consistent(h) && InTime(events) && NoManual(events)
    ensures Consistent(Run(h, events, 1.0))
    ensures Spaced(EndTimes(h, events, 1.0), 23 * MINUTE)
    ensures var ends := EndTimes(h, events, 1.0);
      ends != [] ==> events != [] && SinceEnd(Run(h, events, 1.0), ends[|ends| - 1], events[|events| - 1].now)
  {
    if events != [] {
      var init, e := events[..|events| - 1], events[|events| - 1];
      EndsAreFarApart(h, init);
      var g, ends := Run(h, init, 1.0), EndTimes(h, init, 1.0);
      StepKeepsConsistent(g, e, 1.0);
      if ends != [] {
        BeatSinceEnd(g, ends[|ends| - 1], events[|events| - 2].now, e.now, e.isIdle);
      }
      if Ends(g, e, 1.0) {
        EndNeedsTwentyMinutes(g, e.now, e.isIdle);
      }
      hide ElapsedMin, SinceEnd, Posted, Resets;
      assert Ends(g, e, 1.0) ==> EndTimes(h, events, 1.0) == ends + [e.now];
    }
  }

  // ----- A stretch of idleness

  /** Only idle beats, in time order. */
  ghost predicate IdleBeats(events: seq<Event>) {
    InTime(events) && forall i | 0 <= i < |events| :: events[i].Beat? && events[i].isIdle
  }

  lemma RungsClimb(since: int, a: int, b: int)
    requires a <= b
    ensures Rung(ElapsedMin(since, a, 1.0)) <= Rung(ElapsedMin(since, b, 1.0))
  {
  }

  /**
   A stretch that starts afresh is escalated exactly as long as the stage it starts from allows:
   the clock-out comes once 20 minutes are reached, unless the machine was still at stage 3.
   */
  lemma {:induction false} FreshStretchEndsExactlyWhen(h: Heartbeat, events: seq<Event>)
    requires Consistent(h) && !h.isIdle && events != [] && IdleBeats(events)
    requires !(WithinGrace(h, events[0].now) && h.idleSince.Some?)
    ensures var g := Run(h, events, 1.0);
      var elapsed := events[|events| - 1].now - events[0].now;
      && g.isIdle && g.idleSince == Some(events[0].now)
      && g.idleStage == Max(h.idleStage, Rung(ElapsedMin(events[0].now, events[|events| - 1].now, 1.0)))
      && |EndTimes(h, events, 1.0)| == if h.idleStage < 3 && elapsed >= 20 * MINUTE then 1 else 0
  {
    var init, e := events[..|events| - 1], events[|events| - 1];
    TwentyMinutes(events[0].now, e.now);
    if init != [] {
      FreshStretchEndsExactlyWhen(h, init);
      TwentyMinutes(events[0].now, init[|init| - 1].now);
      RungsClimb(events[0].now, init[|init| - 1].now, e.now);
    }
    hide ElapsedMin;
  }

  /**
   A manual clock-out leaves the stage where it was: after one at stage 3, an idle stretch that
   follows directly is never warned about and never ended, however long it lasts.
   */
  lemma ClockOutAtStage3DisablesLadder(h: Heartbeat, events: seq<Event>)
    requires Consistent(h) && h.idleStage == 3
    requires events != [] && IdleBeats(events)
    ensures EndTimes(ClockedOut(h), events, 1.0) == []
    ensures Run(ClockedOut(h), events, 1.0).idleStage == 3
  {
    hide ElapsedMin;
    FreshStretchEndsExactlyWhen(ClockedOut(h), events);
  }

  // ----- A break in the idleness

  /** Only working beats, in time order. */
  ghost predicate WorkingBeats(events: seq<Event>) {
    InTime(events) && forall i | 0 <= i < |events| :: events[i].Beat? && !events[i].isIdle
  }

  /** Work keeps the stretch open for the grace window, counted from its first beat, and then closes it. */
  lemma {:induction false} WorkClosesAfterGrace(h: Heartbeat, events: seq<Event>)
    requires Consistent(h) && h.isIdle && events != [] && WorkingBeats(events)
    ensures var begin, last := events[0].now, events[|events| - 1].now;
      Run(h, events, 1.0) == if last - begin <= 3 * MINUTE then Heartbeat(false, h.idleSince, Some(begin), h.idleStage)
                             else Heartbeat(false, None, None, 0)
  {
    hide ElapsedMin;
    var n := |events| - 1;
    if n > 0 {
      WorkClosesAfterGrace(h, events[..n]);
      assert events[n - 1].now <= events[n].now;
    } else {
      assert events[..0] == [];
    }
  }

  /** The stage that so many milliseconds of idleness call for. */
  function RungAfter(elapsed: int): int {
    if elapsed >= 20 * MINUTE then 3 else if elapsed >= 10 * MINUTE then 2 else 1
  }

  lemma RungByMinutes(since: int, now: int)
    ensures Rung(ElapsedMin(since, now, 1.0)) == RungAfter(now - since)
  {
  }

  /**
   A return to work is forgiven exactly if idleness is back within three minutes of its start: then the
   stretch goes on from where it began, at its stage. Otherwise a new stretch begins; its stage is 1 only
   if a working beat came after the three minutes, for without one the old stage stays.
   */
  lemma BreakIsForgivenExactlyWhen(h: Heartbeat, events: seq<Event>, resume: int)
    requires Consistent(h) && h.isIdle && events != [] && WorkingBeats(events)
    requires events[|events| - 1].now <= resume
    ensures var begin, last := events[0].now, events[|events| - 1].now;
      var g := Step(Run(h, events, 1.0), Beat(resume, true), 1.0);
      && g.isIdle && g.idleBrokenAt == None
      && g.idleSince == (if resume - begin <= 3 * MINUTE then h.idleSince else Some(resume))
      && g.idleStage == if resume - begin <= 3 * MINUTE then Max(h.idleStage, RungAfter(resume - h.idleSince.value))
                        else if last - begin <= 3 * MINUTE then Max(h.idleStage, 1) else 1
  {
    WorkClosesAfterGrace(h, events);
    RungByMinutes(h.idleSince.value, resume);
    RungByMinutes(resume, resume);
    hide ElapsedMin, Rung, Run;
  }

  // ----- Beats that overlap

  /** The stretch that a beat counts has lasted long enough. */
  predicate LongIdle(seen: Heartbeat, now: int, scale: real) {
    var since := IdleSinceAfter(seen, now, true);
    since.Some? && ElapsedMin(since.value, now, scale) >= STAGE3_ELAPSED_MIN
  }

  /** A beat fires by what it has read, whatever is stored by now. */
  lemma EndsExactlyWhen(seen: Heartbeat, now: int, isIdle: bool, scale: real)
    requires 0 <= seen.idleStage <= 3
    ensures Ends(seen, Beat(now, isIdle), scale) <==> seen.idleStage < 3 && isIdle && LongIdle(seen, now, scale)
  {
    hide ElapsedMin, IdleSinceAfter;
  }

  /**
   Two beats that read the same heartbeat both fire the clock-out exactly if that had a lower stage and both are
   idle for long enough by it. When the second reads what the first has written, never both do.
   */
  lemma TwoBeatsEndTwiceExactlyWhen(h: Heartbeat, first: int, second: int, isIdle: bool, later: bool, scale: real)
    requires 0 <= h.idleStage <= 3
    ensures Ends(h, Beat(first, isIdle), scale) && Ends(h, Beat(second, later), scale)
       <==> && h.idleStage < 3 && isIdle && later
            && LongIdle(h, first, scale) && LongIdle(h, second, scale)
    ensures !(Ends(h, Beat(first, isIdle), scale) && Ends(Posted(h, first, isIdle, scale), Beat(second, later), scale))
  {
    EndsExactlyWhen(h, first, isIdle, scale);
    EndsExactlyWhen(h, second, later, scale);
    hide StageAfter, LongIdle;
  }
}
