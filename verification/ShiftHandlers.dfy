/**
 The handlers that write the shift log, and what holds of every log they can produce.
 */
module ShiftHandlers {
  import opened Text
  import opened ShiftLog
  import opened TimeLogEngine

  datatype ClockReply =
    | Accepted | AlreadyClockedIn | NotClockedIn | EndBreakFirst | NotOnShift | AlreadyOnBreak | NoBreakToEnd
    | NotAllowed | BreakUsedUp

  datatype ResumeReply = AlreadyOnShift | NothingToResume | DeliberatelyEnded | Resumed(startedAt: int) | ServerError

  /**
   Completed break time of the current shift: the engine pairs the breaks since the last time-in.
   `today` only matters if the window holds no time-in.
   */
  function UsedBreak(window: Log, today: int): int {
    TotalLength(Pairs(Since(window, LastTimeIn(window).GetOr(today)), BreakIn, BreakOut).0)
  }

  /** The guards of `timeClock`, in their order. `allowed` stands for the checks made on a time-in alone. */
  function ClockCheck(window: Log, kind: Kind, allowed: bool, today: int): ClockReply {
    var session, brk := OnShiftWalk(window), BreakWalk(window);
    if kind.TimeIn? && session then AlreadyClockedIn
    else if kind.TimeOut? && !session then NotClockedIn
    else if kind.TimeOut? && brk then EndBreakFirst
    else if kind.BreakIn? && !session then NotOnShift
    else if kind.BreakIn? && brk then AlreadyOnBreak
    else if kind.BreakOut? && !brk then NoBreakToEnd
    else if kind.TimeIn? && !allowed then NotAllowed
    else if kind.BreakIn? && UsedBreak(window, today) >= BREAK_LIMIT_MS then BreakUsedUp
    else Accepted
  }

  function Clocked(log: Log, e: Entry, lookback: int, today: int, allowed: bool): (Log, ClockReply) {
    var reply := ClockCheck(Since(log, lookback), e.kind, allowed, today);
    (if reply.Accepted? then log + [e] else log, reply)
  }

  function ManualNote(manager: string): string {
    "Manually clocked out by " + manager + " (admin action \U{2014} agent was idle)"
  }

  function ManagerClockedOut(log: Log, now: int, manager: string): (Log, bool) {
    if !OnShiftWalk(log) then (log, false)
    else
      var breakEnd := Entry(BreakOut, now, "Break closed alongside manual clock-out by " + manager);
      var breakOut := if OpenBreakWalk(log) then [breakEnd] else [];
      (log + breakOut + [Entry(TimeOut, now, ManualNote(manager))], true)
  }

  /** Removing the last entry of today is removing the last entry. */
  function ShiftResumed(log: Log, today: int): (Log, ResumeReply) {
    var todayLogs := Since(log, today);
    if Count(todayLogs, TimeIn) > Count(todayLogs, TimeOut) then (log, AlreadyOnShift)
    else if Count(todayLogs, TimeOut) == 0 || todayLogs == [] || log == [] then (log, NothingToResume)
    else
      var last := todayLogs[|todayLogs| - 1];
      if !last.kind.TimeOut? then (log, NothingToResume)
      else if !Resumable(last.note) then (log, DeliberatelyEnded)
      else (log[..|log| - 1], match LastTimeIn(todayLogs) case Some(t) => Resumed(t) case None => ServerError)
  }

  class TimeLogs {
    var log: Log

    method TimeClock(kind: Kind, note: string, now: int, lookback: int, today: int, allowed: bool)
      returns (reply: ClockReply)
      modifies this
      ensures log == if reply.Accepted? then old(log) + [Entry(kind, now, note)] else old(log)
      ensures (log, reply) == Clocked(old(log), Entry(kind, now, note), lookback, today, allowed)
    {
      var window := Since(log, lookback);
      var hasActiveSession, hasActiveBreak := WalkForTimeClock(window);
      match kind {
        case TimeIn =>
          if hasActiveSession { return AlreadyClockedIn; }
          if !allowed { return NotAllowed; }
        case TimeOut =>
          if !hasActiveSession { return NotClockedIn; }
          if hasActiveBreak { return EndBreakFirst; }
        case BreakIn =>
          if !hasActiveSession { return NotOnShift; }
          if hasActiveBreak { return AlreadyOnBreak; }
          if UsedBreak(window, today) >= BREAK_LIMIT_MS { return BreakUsedUp; }
        case BreakOut =>
          if !hasActiveBreak { return NoBreakToEnd; }
      }
      log := log + [Entry(kind, now, note)];
      reply := Accepted;
    }

    method ClockOutUser(now: int, manager: string) returns (ok: bool)
      modifies this
      ensures !ok ==> log == old(log)
      ensures ok ==> old(log) < log && log[|log| - 1] == Entry(TimeOut, now, ManualNote(manager))
      ensures ok ==> forall i | |old(log)| <= i < |log| - 1 :: log[i].kind.BreakOut? && log[i].at == now
      ensures (log, ok) == ManagerClockedOut(old(log), now, manager)
    {
      var isOnShift, openBreak := WalkForClockOut(log);
      if !isOnShift {
        return false;
      }
      if openBreak {
        log := log + [Entry(BreakOut, now, "Break closed alongside manual clock-out by " + manager)];
      } else {
        assert log + [] == log;
      }
      log := log + [Entry(TimeOut, now, ManualNote(manager))];
      ok := true;
    }

    /** A failing answer may come after the entry is already gone. */
    method ResumeShift(today: int) returns (reply: ResumeReply)
      modifies this
      ensures reply.AlreadyOnShift? || reply.NothingToResume? || reply.DeliberatelyEnded? ==> log == old(log)
      ensures reply.Resumed? || reply.ServerError? ==> old(log) != [] && log == old(log)[..|old(log)| - 1]
      ensures (log, reply) == ShiftResumed(old(log), today)
    {
      var todayLogs := Since(log, today);
      if Count(todayLogs, TimeIn) > Count(todayLogs, TimeOut) {
        return AlreadyOnShift;
      }
      if Count(todayLogs, TimeOut) == 0 || todayLogs == [] || log == [] {
        return NothingToResume;
      }
      var lastTimeOut := todayLogs[|todayLogs| - 1];
      if !lastTimeOut.kind.TimeOut? {
        return NothingToResume;
      }
      if !Resumable(lastTimeOut.note) {
        return DeliberatelyEnded;
      }
      log := log[..|log| - 1];
      var originalTimeIn := LastTimeIn(todayLogs);
      reply := if originalTimeIn.Some? then Resumed(originalTimeIn.value) else ServerError;
    }
  }

  // ----- Every reachable log is in the grammar

  datatype Op =
    | Clock(kind: Kind, note: string, now: int, lookback: int, today: int, allowed: bool)
    | ManagerClockOut(now: int, manager: string)
    | Resume(today: int)

  function Step(log: Log, op: Op): Log {
    match op
    case Clock(kind, note, now, lookback, today, allowed) =>
      Clocked(log, Entry(kind, now, note), lookback, today, allowed).0
    case ManagerClockOut(now, manager) => ManagerClockedOut(log, now, manager).0
    case Resume(today) => ShiftResumed(log, today).0
  }

  function Run(log: Log, ops: seq<Op>): Log {
    if ops == [] then log else Step(Run(log, ops[..|ops| - 1]), ops[|ops| - 1])
  }

  predicate After(log: Log, now: int) {
    forall i | 0 <= i < |log| :: log[i].at < now
  }

  /** Everybody was off shift before time `t`. */
  predicate OffBefore(log: Log, t: int) {
    var k := |log| - |Since(log, t)|;
    k >= 0 && Parse(log[..k]) == Some(Off)
  }

  /** Each write comes later than what is there, and no shift still open began before the look-back. */
  predicate Timely(log: Log, op: Op) {
    match op
    case Clock(_, _, now, lookback, _, _) => After(log, now) && OffBefore(log, lookback)
    case ManagerClockOut(now, _) => After(log, now)
    case Resume(_) => true
  }

  ghost predicate AllTimely(log: Log, ops: seq<Op>) {
    forall i | 0 <= i < |ops| :: Timely(Run(log, ops[..i]), ops[i])
  }

  lemma {:induction false} ParseFromOff(head: Log, tail: Log)
    requires Parse(head) == Some(Off)
    ensures Parse(head + tail) == Parse(tail)
  {
    if tail == [] {
      assert head + tail == head;
    } else {
      assert (head + tail)[..|head + tail| - 1] == head + tail[..|tail| - 1];
      ParseFromOff(head, tail[..|tail| - 1]);
    }
  }

  /** Looking back far enough, the window tells the same phase as the whole log. */
  lemma WindowTellsThePhase(log: Log, lookback: int)
    requires WellFormed(log) && OffBefore(log, lookback)
    ensures Parse(Since(log, lookback)) == Parse(log)
  {
    var k := SinceIsTail(log, lookback);
    assert log == log[..k] + log[k..];
    ParseFromOff(log[..k], log[k..]);
  }

  lemma AppendedInTime(log: Log, e: Entry)
    requires InTime(log) && (forall i | 0 <= i < |log| :: log[i].at <= e.at) && (e.kind.TimeIn? ==> After(log, e.at))
    ensures InTime(log + [e])
  {
    var s := log + [e];
    assert forall i | 0 <= i < |log| :: s[i] == log[i];
  }

  lemma Appended(log: Log, e: Entry)
    requires WellFormed(log) && (forall i | 0 <= i < |log| :: log[i].at <= e.at)
    requires e.kind.TimeIn? ==> After(log, e.at)
    ensures Parse(log + [e]) == Next(Parse(log).value, e.kind)
    ensures InTime(log + [e])
  {
    AppendedInTime(log, e);
    hide InTime, After;
    assert (log + [e])[..|log|] == log;
  }

  /** The clock accepts what the grammar allows next, save for its two further limits, and nothing else. */
  lemma ClockKeepsGrammar(log: Log, e: Entry, lookback: int, today: int, allowed: bool)
    requires WellFormed(log) && After(log, e.at) && OffBefore(log, lookback)
    ensures WellFormed(Clocked(log, e, lookback, today, allowed).0)
    ensures var (after, reply) := Clocked(log, e, lookback, today, allowed);
      && (reply.Accepted? <==>
            && Next(Parse(log).value, e.kind).Some?
            && (e.kind.TimeIn? ==> allowed)
            && (e.kind.BreakIn? ==> UsedBreak(Since(log, lookback), today) < BREAK_LIMIT_MS))
      && after == if reply.Accepted? then log + [e] else log
  {
    hide Parse, Since, InTime, OnShiftWalk, BreakWalk, OpenBreakWalk, UsedBreak, LastTimeIn, OffBefore;
    WindowTellsThePhase(log, lookback);
    WalksTellThePhase(Since(log, lookback));
    assert forall i | 0 <= i < |log| :: log[i].at <= e.at;
    Appended(log, e);
  }

  /** The reply tells which phase, or which of the two further limits, stands against the entry. */
  lemma ClockAnswersExactly(log: Log, e: Entry, lookback: int, today: int, allowed: bool)
    requires WellFormed(log) && OffBefore(log, lookback)
    ensures var phase, reply := Parse(log).value, Clocked(log, e, lookback, today, allowed).1;
      match e.kind
      case TimeIn => reply == if phase != Off then AlreadyClockedIn else if !allowed then NotAllowed else Accepted
      case TimeOut =>
        reply == if phase == Off then NotClockedIn else if phase == OnBreak then EndBreakFirst else Accepted
      case BreakOut => reply == if phase == OnBreak then Accepted else NoBreakToEnd
      case BreakIn =>
        reply == if phase == Off then NotOnShift else if phase == OnBreak then AlreadyOnBreak
                 else if UsedBreak(Since(log, lookback), today) >= BREAK_LIMIT_MS then BreakUsedUp else Accepted
  {
    hide Parse, Since, InTime, OnShiftWalk, BreakWalk, OpenBreakWalk, UsedBreak, LastTimeIn, OffBefore;
    WindowTellsThePhase(log, lookback);
    WalksTellThePhase(Since(log, lookback));
  }

  lemma ManagerKeepsGrammar(log: Log, now: int, manager: string)
    requires WellFormed(log) && After(log, now)
    ensures var (after, ok) := ManagerClockedOut(log, now, manager);
      && WellFormed(after)
      && (ok <==> Parse(log) != Some(Off))
      && Parse(after) == Some(Off)
  {
    WalksTellThePhase(log);
    if OnShiftWalk(log) {
      if OpenBreakWalk(log) {
        var out := Entry(BreakOut, now, "Break closed alongside manual clock-out by " + manager);
        Appended(log, out);
        Appended(log + [out], Entry(TimeOut, now, ManualNote(manager)));
      } else {
        Appended(log, Entry(TimeOut, now, ManualNote(manager)));
        assert log + [] == log;
      }
    }
  }

  lemma ResumeKeepsGrammar(log: Log, today: int)
    requires WellFormed(log)
    ensures WellFormed(ShiftResumed(log, today).0)
  {
    if log != [] {
      var init := log[..|log| - 1];
      assert InTime(init);
    }
  }

  lemma StepKeepsGrammar(log: Log, op: Op)
    requires WellFormed(log) && Timely(log, op)
    ensures WellFormed(Step(log, op))
  {
    hide WellFormed, Since, Clocked, ManagerClockedOut, ShiftResumed;
    match op
    case Clock(kind, note, now, lookback, today, allowed) =>
      ClockKeepsGrammar(log, Entry(kind, now, note), lookback, today, allowed);
    case ManagerClockOut(now, manager) => ManagerKeepsGrammar(log, now, manager);
    case Resume(today) => ResumeKeepsGrammar(log, today);
  }

  lemma ReadersAgree(log: Log)
    requires WellFormed(log)
    ensures OnShiftWalk(log) <==> Parse(log) != Some(Off)
    ensures BreakWalk(log) <==> OnBreakByCount(log)
    ensures OpenBreakWalk(log) <==> OnBreakByCount(log)
  {
    hide OnBreakByCount;
    WalksTellThePhase(log);
    BreakCountAgrees(log);
  }

  /** Every log the three handlers can write stays in the grammar, so all its readers agree. */
  lemma {:induction false} ReachableLogsAreWellFormed(log: Log, ops: seq<Op>)
    requires WellFormed(log) && AllTimely(log, ops)
    ensures var after := Run(log, ops);
      && WellFormed(after)
      && (OnShiftWalk(after) <==> Parse(after) != Some(Off))
      && (BreakWalk(after) <==> OnBreakByCount(after))
      && (OpenBreakWalk(after) <==> OnBreakByCount(after))
  {
    hide WellFormed, OnBreakByCount, OnShiftWalk, BreakWalk, OpenBreakWalk, Timely;
    if ops != [] {
      var init := ops[..|ops| - 1];
      assert AllTimely(log, init) by {
        forall i | 0 <= i < |init| ensures Timely(Run(log, init[..i]), init[i]) {
          assert init[..i] == ops[..i];
        }
      }
      ReachableLogsAreWellFormed(log, init);
      StepKeepsGrammar(Run(log, init), ops[|ops| - 1]);
    }
    ReadersAgree(Run(log, ops));
  }

  // ----- Requests that overlap

  /** From one phase the clock takes no two entries one after the other that it would take alone. */
  lemma NoTwoFromOnePhase(phase: Phase, a: Kind, b: Kind)
    requires Next(phase, a).Some? && Next(phase, b).Some?
    ensures Next(Next(phase, a).value, b).None?
  {
  }

  /**
   The clock reads the log and appends to it in two operations. Two requests that are both accepted over
   the same log, whatever they ask for, always take it out of the grammar: after either, the other is not
   allowed any more.
   */
  lemma OverlappingClocksBreakGrammar(
    log: Log, a: Entry, b: Entry, lookback: int, today: int, allowed: bool, todayB: int, allowedB: bool)
    requires WellFormed(log) && OffBefore(log, lookback) && After(log, a.at) && After(log, b.at)
    requires Clocked(log, a, lookback, today, allowed).1.Accepted?
    requires Clocked(log, b, lookback, todayB, allowedB).1.Accepted?
    ensures WellFormed(log + [a]) && WellFormed(log + [b])
    ensures Parse(log + [a] + [b]) == None
  {
    hide Clocked, InTime, OffBefore, Since;
    ClockKeepsGrammar(log, a, lookback, today, allowed);
    ClockKeepsGrammar(log, b, lookback, todayB, allowedB);
    hide After, UsedBreak;
    NoTwoFromOnePhase(Parse(log).value, a.kind, b.kind);
    assert (log + [a])[..|log|] == log;
    assert (log + [a] + [b])[..|log| + 1] == log + [a];
  }

  // ----- The break allowance

  lemma TwoMore(shift: Log, begin: Entry, end: Entry)
    requires begin.kind.BreakIn? && end.kind.BreakOut?
    ensures TotalLength(Pairs(shift + [begin] + [end], BreakIn, BreakOut).0)
         == TotalLength(Pairs(shift, BreakIn, BreakOut).0) + end.at - begin.at
  {
    var once := shift + [begin];
    var done := Pairs(shift, BreakIn, BreakOut).0;
    assert once[..|shift|] == shift && (once + [end])[..|once|] == once;
    assert Pairs(once, BreakIn, BreakOut) == (done, Some(begin.at));
    assert (done + [Span(begin.at, end.at)])[..|done|] == done;
  }

  lemma {:induction false} SinceAppend(log: Log, e: Entry, t: int)
    requires e.at >= t
    ensures Since(log + [e], t) == Since(log, t) + [e]
  {
    if log == [] {
      assert log + [e] == [e] && [e][1..] == [];
      assert Since([e], t) == [e];
    } else {
      SinceAppend(log[1..], e, t);
      var s := log + [e];
      assert s[0] == log[0] && s[1..] == log[1..] + [e];
      var first := if log[0].at >= t then [log[0]] else [];
      assert Since(s, t) == first + (Since(log[1..], t) + [e]);
    }
  }

  /** A finished break is charged for exactly as long as it lasted, to the shift that is running. */
  lemma BreakIsChargedExactly(log: Log, begin: Entry, end: Entry, today: int)
    requires WellFormed(log) && Parse(log) == Some(On)
    requires begin.kind.BreakIn? && end.kind.BreakOut? && begin.at <= end.at
    requires forall i | 0 <= i < |log| :: log[i].at <= begin.at
    ensures UsedBreak(log + [begin] + [end], today) == UsedBreak(log, today) + end.at - begin.at
  {
    WalksTellThePhase(log);
    var k := LastShift(log);
    var t := log[k].at;
    var once := log + [begin];
    assert once[..|once| - 1] == log && (once + [end])[..|once|] == once;
    assert LastTimeIn(once) == Some(t) && LastTimeIn(once + [end]) == Some(t);
    SinceAppend(log, begin, t);
    SinceAppend(once, end, t);
    TwoMore(Since(log, t), begin, end);
  }

  /** Every shift starts with its whole allowance. */
  lemma NewShiftHasNoBreak(log: Log, e: Entry, today: int)
    requires e.kind.TimeIn? && InTime(log + [e])
    ensures UsedBreak(log + [e], today) == 0
  {
    SinceTimeIn(log + [e], |log|);
    assert (log + [e])[|log|..] == [e];
    assert [e][..|[e]| - 1] == [];
    assert Pairs([e], BreakIn, BreakOut) == Pairs([], BreakIn, BreakOut);
  }

  // ----- Clocking out and resuming

  /** Off shift, today cannot hold more time-ins than time-outs, so a resume is not refused for being on shift. */
  lemma OffShiftToday(log: Log, today: int)
    requires WellFormed(log) && Parse(log) == Some(Off)
    ensures !OnShiftTodayByCount(log, today)
  {
    var k := SinceIsTail(log, today);
    ShiftsSince(log, k);
  }

  lemma CountIsPositive(log: Log)
    requires log != []
    ensures Count(log, log[|log| - 1].kind) > 0
  {
  }

  lemma TimeOutIsAccepted(log: Log, out: Entry, lookback: int, today: int, allowed: bool)
    requires WellFormed(log) && OffBefore(log, lookback) && Parse(log) == Some(On) && out.kind.TimeOut?
    ensures Clocked(log, out, lookback, today, allowed) == (log + [out], Accepted)
  {
    hide Since, Parse, OnShiftWalk, BreakWalk, OpenBreakWalk, LastTimeIn, InTime, OffBefore;
    WindowTellsThePhase(log, lookback);
    WalksTellThePhase(Since(log, lookback));
  }

  lemma ResumeOfTimeOut(log: Log, out: Entry, today: int)
    requires out.kind.TimeOut? && Resumable(out.note) && today <= out.at
    requires !OnShiftTodayByCount(log + [out], today)
    ensures ShiftResumed(log + [out], today) ==
      (log, match LastTimeIn(Since(log, today)) case Some(t) => Resumed(t) case None => ServerError)
  {
    hide Resumable;
    SinceAppend(log, out, today);
    var t := Since(log, today);
    assert (t + [out])[..|t|] == t;
    CountIsPositive(t + [out]);
    hide Since, Count;
    assert (log + [out])[..|log|] == log;
  }

  /**
   Ending a shift with a resumable note and resuming it gives back exactly the log before. The answer
   is the shift's start if today holds a time-in; a shift begun before today is resumed too, but the
   request ends in a server error.
   */
  lemma ResumeUndoesTimeOut(log: Log, out: Entry, lookback: int, today: int, allowed: bool)
    requires WellFormed(log) && After(log, out.at) && OffBefore(log, lookback)
    requires Parse(log) == Some(On) && out.kind.TimeOut? && Resumable(out.note) && today <= out.at
    ensures var (ended, reply) := Clocked(log, out, lookback, today, allowed);
      && reply.Accepted?
      && ShiftResumed(ended, today).0 == log
      && ShiftResumed(ended, today).1 ==
           (match LastTimeIn(Since(log, today)) case Some(t) => Resumed(t) case None => ServerError)
  {
    var ended := log + [out];
    TimeOutIsAccepted(log, out, lookback, today, allowed);
    hide Resumable, Clocked, OffBefore;
    assert forall i | 0 <= i < |log| :: log[i].at <= out.at;
    Appended(log, out);
    OffShiftToday(ended, today);
    ResumeOfTimeOut(log, out, today);
    hide ShiftResumed, Since, Parse, InTime, After;
  }

  lemma {:induction false} LastTimeInOfTail(head: Log, tail: Log, i: nat)
    requires i < |tail| && tail[i].kind.TimeIn?
    ensures LastTimeIn(head + tail) == LastTimeIn(tail)
  {
    var log := head + tail;
    assert log[..|log| - 1] == head + tail[..|tail| - 1];
    if !tail[|tail| - 1].kind.TimeIn? {
      LastTimeInOfTail(head, tail[..|tail| - 1], i);
    }
  }

  /** The start reported after a resume is the start of the shift that is running again, if it began today. */
  lemma ResumedStartIsShiftStart(log: Log, today: int)
    requires WellFormed(log) && OnShiftWalk(log)
    ensures LastTimeIn(log).Some?
    ensures LastTimeIn(log).value >= today ==> LastTimeIn(Since(log, today)) == LastTimeIn(log)
  {
    var k := LastShift(log);
    var q := SinceIsTail(log, today);
    if log[k].at >= today {
      assert q <= k;
      LastTimeInOfTail(log[..q], log[q..], k - q);
      assert log == log[..q] + log[q..];
    }
  }

  lemma {:induction false} TrimKeepsFirst(s: string)
    requires s != "" && !IsSpace(s[0])
    ensures Trim(s) != ""
  {
    if IsSpace(s[|s| - 1]) {
      TrimKeepsFirst(s[..|s| - 1]);
    }
  }

  lemma ManualNoteIsNotResumable(manager: string)
    ensures !Resumable(ManualNote(manager))
  {
    var note := ManualNote(manager);
    assert note[0] == 'M';
    TrimKeepsFirst(note);
    hide Trim, ManualNote;
    var notes := AUTO_CLOCKOUT_NOTES;
    assert AUTO[0] == 'A';
    assert notes[0][0] == 'A' && notes[1][0] == 'A' && notes[2][0] == 'A' && notes[3][0] == 'A';
  }

  lemma EmptyLog(today: int)
    ensures Since([], today) == [] && Parse([]) == Some(Off)
  {
  }

  lemma OffAfterTimeOut(log: Log)
    requires Parse(log).Some? && log != []
    ensures log[|log| - 1].kind.TimeOut? <==> Parse(log) == Some(Off)
  {
  }

  lemma TailOfToday(log: Log, today: int)
    requires InTime(log)
    ensures Since(log, today) != [] <==> log != [] && log[|log| - 1].at >= today
    ensures Since(log, today) != [] ==> Since(log, today)[|Since(log, today)| - 1] == log[|log| - 1]
  {
    var k := SinceIsTail(log, today);
  }

  /**
   What a request to resume is answered: the shift is running if it is counted as of today; a
   resumable end of today is undone; any other end of today was deliberate; else there is nothing.
   */
  lemma ResumeAnswersExactly(log: Log, today: int)
    requires WellFormed(log)
    ensures var reply := ShiftResumed(log, today).1;
      var endedToday := Parse(log) == Some(Off) && log != [] && log[|log| - 1].at >= today;
      && (reply.AlreadyOnShift? <==> Parse(log) != Some(Off) && OffBefore(log, today))
      && (reply.Resumed? || reply.ServerError? <==> endedToday && Resumable(log[|log| - 1].note))
      && (reply.DeliberatelyEnded? <==> endedToday && !Resumable(log[|log| - 1].note))
  {
    hide Parse, InTime, Since, Count, Resumable;
    TodayCountAgreesExactlyWhen(log, today);
    WalksTellThePhase(log);
    var w := Since(log, today);
    TailOfToday(log, today);
    if log == [] {
      EmptyLog(today);
    } else {
      OffAfterTimeOut(log);
    }
    if w != [] {
      CountIsPositive(w);
    }
  }

  /** A shift ended by a manager cannot be resumed. */
  lemma ManagerClockOutIsFinal(log: Log, now: int, manager: string, today: int)
    requires WellFormed(log) && After(log, now) && Parse(log) != Some(Off) && today <= now
    ensures var (ended, ok) := ManagerClockedOut(log, now, manager);
      ok && ShiftResumed(ended, today) == (ended, DeliberatelyEnded)
  {
    var ended := ManagerClockedOut(log, now, manager).0;
    ManagerKeepsGrammar(log, now, manager);
    OffShiftToday(ended, today);
    var out := Entry(TimeOut, now, ManualNote(manager));
    var init := ended[..|ended| - 1];
    assert ended == init + [out];
    SinceAppend(init, out, today);
    CountIsPositive(Since(init, today) + [out]);
    ManualNoteIsNotResumable(manager);
    hide Since, Count, Parse, InTime, ManualNote, ManagerClockedOut, Resumable;
  }

  lemma CountAppend(log: Log, e: Entry, kind: Kind)
    ensures Count(log + [e], kind) == Count(log, kind) + (if e.kind == kind then 1 else 0)
  {
    assert (log + [e])[..|log|] == log;
  }

  lemma SameCounts(log: Log, a: Entry, b: Entry)
    ensures forall kind :: Count(log + [a] + [b], kind) == Count(log + [b] + [a], kind)
  {
    forall kind ensures Count(log + [a] + [b], kind) == Count(log + [b] + [a], kind) {
      CountAppend(log, a, kind);
      CountAppend(log, b, kind);
      CountAppend(log + [a], b, kind);
      CountAppend(log + [b], a, kind);
    }
  }

  /**
   A manager's clock-out that closes a break writes two entries of one time. Which of them a query lists
   last decides the reason `resumeShift` gives for refusing; the log stays as it is in both orders.
   */
  lemma TieOrderMattersToResume(log: Log, now: int, manager: string, today: int)
    requires WellFormed(log) && After(log, now) && Parse(log) == Some(OnBreak) && today <= now
    ensures var ended := ManagerClockedOut(log, now, manager).0;
      && |ended| == |log| + 2 && ended[|log|].at == ended[|log| + 1].at == now
      && ShiftResumed(ended, today) == (ended, DeliberatelyEnded)
      && var other := log + [ended[|log| + 1], ended[|log|]];
         ShiftResumed(other, today) == (other, NothingToResume)
  {
    WalksTellThePhase(log);
    ManagerClockOutIsFinal(log, now, manager, today);
    var ended := ManagerClockedOut(log, now, manager).0;
    var other := log + [ended[|log| + 1]] + [ended[|log|]];
    assert other == log + [ended[|log| + 1], ended[|log|]];
    hide Parse, InTime, ManualNote, Resumable;
    SinceAppend(log, ended[|log| + 1], today);
    SinceAppend(log + [ended[|log| + 1]], ended[|log|], today);
    assert ended == log + [ended[|log|]] + [ended[|log| + 1]];
    SinceAppend(log, ended[|log|], today);
    SinceAppend(log + [ended[|log|]], ended[|log| + 1], today);
    SameCounts(Since(log, today), ended[|log|], ended[|log| + 1]);
    hide Since, Count;
  }

  // ----- What `getMe` shows

  function Shown(window: Log, today: int): Log {
    if OnShiftWalk(window) && LastTimeIn(window).Some? && LastTimeIn(window).value < today
    then Since(window, LastTimeIn(window).value)
    else Since(window, today)
  }

  /** Today's entries, or everything since the start of a shift that began before today. */
  function MeLogs(log: Log, lookback: int, today: int): Log {
    Shown(Since(log, lookback), today)
  }

  lemma ShownStart(window: Log, today: int, k: nat) returns (j: nat)
    requires InTime(window) && OnShiftWalk(window)
    requires k < |window| && window[k].kind.TimeIn? && LastTimeIn(window) == Some(window[k].at)
    ensures j <= k && Shown(window, today) == window[j..]
  {
    hide OnShiftWalk, LastTimeIn, Since;
    if window[k].at < today {
      SinceTimeIn(window, k);
      j := k;
    } else {
      j := SinceIsTail(window, today);
    }
  }

  lemma {:induction false} OnAfterTimeIn(log: Log, k: nat)
    requires k < |log| && log[k].kind.TimeIn?
    requires forall i | k < i < |log| :: !log[i].kind.TimeOut?
    ensures OnShiftWalk(log)
  {
    if k < |log| - 1 {
      OnAfterTimeIn(log[..|log| - 1], k);
    }
  }

  lemma TailTells(log: Log, j: nat, k: nat)
    requires j <= k < |log| && log[k].kind.TimeIn?
    requires forall i | k < i < |log| :: !log[i].kind.TimeIn? && !log[i].kind.TimeOut?
    ensures OnShiftWalk(log[j..]) && LastTimeIn(log[j..]) == LastTimeIn(log)
  {
    hide OnShiftWalk, LastTimeIn;
    var tail := log[j..];
    assert forall i | 0 <= i < |tail| :: tail[i] == log[i + j];
    assert log == log[..j] + tail;
    LastTimeInOfTail(log[..j], tail, k - j);
    OnAfterTimeIn(tail, k - j);
  }

  lemma TailSince(log: Log, j: nat, k: nat)
    requires InTime(log) && j <= k < |log| && log[k].kind.TimeIn?
    ensures Since(log[j..], log[k].at) == Since(log, log[k].at)
  {
    var tail := log[j..];
    assert forall i | 0 <= i < |tail| :: tail[i] == log[i + j];
    assert InTime(tail);
    hide InTime, Since;
    SinceTimeIn(log, k);
    SinceTimeIn(tail, k - j);
    assert tail[k - j..] == log[k..];
  }

  /** Any tail that still holds the last time-in tells the same. */
  lemma ShiftTail(log: Log, j: nat, k: nat)
    requires InTime(log) && j <= k < |log| && log[k].kind.TimeIn?
    requires OnShiftWalk(log) && LastTimeIn(log) == Some(log[k].at)
    requires forall i | k < i < |log| :: !log[i].kind.TimeIn? && !log[i].kind.TimeOut?
    ensures OnShiftWalk(log[j..]) && LastTimeIn(log[j..]) == LastTimeIn(log)
    ensures OnBreakByCount(log[j..]) == OnBreakByCount(log)
  {
    var tail := log[j..];
    TailTells(log, j, k);
    TailSince(log, j, k);
    hide OnShiftWalk, Count, Since, LastTimeIn, InTime;
  }

  lemma ShownReads(window: Log, today: int)
    requires WellFormed(window) && OnShiftWalk(window)
    ensures var shown := Shown(window, today);
      && OnShiftWalk(shown)
      && LastTimeIn(shown) == LastTimeIn(window)
      && OnBreakByCount(shown) == OnBreakByCount(window)
  {
    var k := LastShift(window);
    var j := ShownStart(window, today, k);
    ShiftTail(window, j, k);
    hide Parse, Since, OnBreakByCount, OnShiftWalk, LastTimeIn, InTime, Shown;
  }

  lemma WindowIsWellFormed(log: Log, lookback: int)
    requires WellFormed(log) && OffBefore(log, lookback)
    ensures WellFormed(Since(log, lookback)) && Parse(Since(log, lookback)) == Parse(log)
    ensures OnBreakByCount(Since(log, lookback)) == OnBreakByCount(log)
  {
    var w := SinceIsTail(log, lookback);
    assert forall i | 0 <= i < |log[w..]| :: log[w..][i] == log[i + w];
    WindowTellsThePhase(log, lookback);
    hide Parse, OffBefore, Since, OnBreakByCount;
    assert InTime(log[w..]);
    BreakCountAgrees(log);
    BreakCountAgrees(log[w..]);
  }

  lemma WindowLastTimeIn(log: Log, lookback: int)
    requires WellFormed(log) && WellFormed(Since(log, lookback)) && OnShiftWalk(Since(log, lookback))
    ensures LastTimeIn(Since(log, lookback)) == LastTimeIn(log)
  {
    var w := SinceIsTail(log, lookback);
    hide InTime, Since, OnShiftWalk, Parse, LastTimeIn;
    var k := LastShift(log[w..]);
    LastTimeInOfTail(log[..w], log[w..], k);
    assert log == log[..w] + log[w..];
  }

  /** The look-back window reads like the whole log. */
  lemma WindowReads(log: Log, lookback: int)
    requires WellFormed(log) && OffBefore(log, lookback) && OnShiftWalk(log)
    ensures var window := Since(log, lookback);
      && WellFormed(window) && OnShiftWalk(window)
      && LastTimeIn(window) == LastTimeIn(log)
      && OnBreakByCount(window) == OnBreakByCount(log)
  {
    var window := Since(log, lookback);
    WindowIsWellFormed(log, lookback);
    hide OffBefore, Since;
    ReadersAgree(log);
    ReadersAgree(window);
    hide Parse, InTime, OnBreakByCount, OnShiftWalk, LastTimeIn;
    WindowLastTimeIn(log, lookback);
  }

  /** During a shift, overnight or not, the entries shown tell its start and whether a break is open. */
  lemma MeWindowHoldsTheShift(log: Log, lookback: int, today: int)
    requires WellFormed(log) && OffBefore(log, lookback) && OnShiftWalk(log)
    ensures var shown := MeLogs(log, lookback, today);
      && OnShiftWalk(shown)
      && LastTimeIn(shown) == LastTimeIn(log)
      && OnBreakByCount(shown) == OnBreakByCount(log)
  {
    WindowReads(log, lookback);
    ShownReads(Since(log, lookback), today);
    hide Parse, Since, OffBefore, OnBreakByCount, OnShiftWalk, LastTimeIn, InTime, Shown;
  }

  // ----- The automatic clock-out

  /**
   The idle ladder's clock-out writes a time-out without looking at the log: it keeps the grammar
   exactly during a shift and outside a break.
   */
  lemma AutoEndKeepsGrammarExactlyWhen(log: Log, now: int)
    requires WellFormed(log) && After(log, now)
    ensures WellFormed(log + [Entry(TimeOut, now, STAGED_IDLE_NOTE)]) <==> Parse(log) == Some(On)
  {
    assert forall i | 0 <= i < |log| :: log[i].at <= now;
    Appended(log, Entry(TimeOut, now, STAGED_IDLE_NOTE));
  }

  /**
   One that comes when nobody is on shift makes the readers part: in the next shift, which the clock
   accepts, walking says on shift and counting today's entries says off.
   */
  lemma StrayAutoEndSplitsReaders(log: Log, today: int, out: Entry, start: Entry)
    requires WellFormed(log) && Parse(log) == Some(Off)
    requires out.kind.TimeOut? && out.at >= today && start.kind.TimeIn? && start.at >= today
    ensures OnShiftWalk(log + [out] + [start])
    ensures !OnShiftTodayByCount(log + [out] + [start], today)
  {
    OffShiftToday(log, today);
    SinceAppend(log, out, today);
    SinceAppend(log + [out], start, today);
    var t := Since(log, today);
    hide Count, Since;
    CountAppend(t, out, TimeIn);
    CountAppend(t, out, TimeOut);
    CountAppend(t + [out], start, TimeIn);
    CountAppend(t + [out], start, TimeOut);
  }

  lemma {:induction false} NothingSince(log: Log, t: int)
    requires forall i | 0 <= i < |log| :: log[i].at < t
    ensures Since(log, t) == []
  {
    if log != [] {
      assert forall i | 0 <= i < |log| - 1 :: log[1..][i] == log[i + 1];
      NothingSince(log[1..], t);
    }
  }

  /** Written off shift it makes them part in the next shift exactly if it is of the day that they look at. */
  lemma StrayAutoEndSplitsReadersExactlyWhen(log: Log, today: int, out: Entry, start: Entry)
    requires WellFormed(log) && Parse(log) == Some(Off) && After(log, out.at)
    requires out.kind.TimeOut? && start.kind.TimeIn? && out.at < start.at && today <= start.at
    ensures OnShiftTodayByCount(log + [out] + [start], today) == OnShiftWalk(log + [out] + [start]) <==> out.at < today
  {
    if out.at < today {
      NothingSince(log + [out], today);
      SinceAppend(log + [out], start, today);
      CountAppend([], start, TimeIn);
      CountAppend([], start, TimeOut);
      assert Count([], TimeIn) == Count([], TimeOut) == 0;
      assert OnShiftWalk(log + [out] + [start]);
    } else {
      StrayAutoEndSplitsReaders(log, today, out, start);
    }
    hide Parse, InTime, Since;
  }

  /** At once, walking and counting part about the break exactly if one is open as the time-out is written. */
  lemma EndSplitsBreakReadersExactlyWhen(log: Log, out: Entry)
    requires WellFormed(log) && out.kind.TimeOut?
    ensures OnBreakByCount(log + [out]) == BreakWalk(log + [out]) <==> Parse(log) != Some(OnBreak)
  {
    assert [] + log == log && (log + [out])[..|log|] == log;
    CountsMeasureChange([], log);
    hide Parse, InTime, Count;
    CountAppend(log, out, BreakIn);
    CountAppend(log, out, BreakOut);
    assert !OnShiftWalk(log + [out]);
  }
}
