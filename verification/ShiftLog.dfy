/**
 The shift log: time-in, break-in, break-out and time-out entries appended by three handlers and
 interpreted by several readers, some walking the entries and some counting them. Entries are in
 time order; the two that a manager's clock-out may write carry the same time.
 */
module ShiftLog {
  import opened Text

  datatype Kind = TimeIn | TimeOut | BreakIn | BreakOut

  datatype Entry = Entry(kind: Kind, at: int, note: string)

  type Log = seq<Entry>

  const BREAK_LIMIT_MS: int := 3_600_000

  const AUTO: string := "Auto clock-out \U{2014} "

  /** Notes of automatic clock-outs that may be resumed. */
  const AUTO_CLOCKOUT_NOTES: seq<string> := [
    AUTO + "device went idle/offline after rendering 8+ hours",
    AUTO + "device went idle/offline for 30+ minutes",
    AUTO + "idle 30+ minutes (staged idle escalation)",
    AUTO + "idle 35+ minutes (local fallback \U{2014} backend unreachable)"]

  const STAGED_IDLE_NOTE: string := AUTO + "idle 30+ minutes (staged idle escalation)"

  predicate Resumable(note: string) {
    Trim(note) == "" || note in AUTO_CLOCKOUT_NOTES
  }

  // ----- The grammar: shifts, each containing breaks one after another

  datatype Phase = Off | On | OnBreak

  function Next(phase: Phase, kind: Kind): Option<Phase> {
    match (phase, kind)
    case (Off, TimeIn) => Some(On)
    case (On, BreakIn) => Some(OnBreak)
    case (OnBreak, BreakOut) => Some(On)
    case (On, TimeOut) => Some(Off)
    case _ => None
  }

  /** The phase a log leads to, or none if it is not in the grammar. */
  function Parse(log: Log): Option<Phase> {
    if log == [] then Some(Off)
    else
      var before := Parse(log[..|log| - 1]);
      if before.None? then None else Next(before.value, log[|log| - 1].kind)
  }

  /** Times never go back, and a shift starts later than everything before it. */
  predicate InTime(log: Log) {
    forall i, j | 0 <= i < j < |log| :: log[i].at <= log[j].at && (log[j].kind.TimeIn? ==> log[i].at < log[j].at)
  }

  ghost predicate WellFormed(log: Log) {
    Parse(log).Some? && InTime(log)
  }

  // ----- Readers that walk

  function OnShiftWalk(log: Log): bool {
    if log == [] then false
    else
      match log[|log| - 1].kind
      case TimeIn => true
      case TimeOut => false
      case _ => OnShiftWalk(log[..|log| - 1])
  }

  /** The break flag of `timeClock`: a time-in leaves it alone. */
  function BreakWalk(log: Log): bool {
    if log == [] then false
    else
      match log[|log| - 1].kind
      case TimeIn => BreakWalk(log[..|log| - 1])
      case BreakIn => true
      case _ => false
  }

  /** The break flag of `clockOutUser`: a time-in clears it. */
  function OpenBreakWalk(log: Log): bool {
    log != [] && log[|log| - 1].kind.BreakIn?
  }

  /** The walk shared by `timeClock`, `getMe` and `getShiftState`, with the break flag of the first. */
  method WalkForTimeClock(log: Log) returns (hasActiveSession: bool, hasActiveBreak: bool)
    ensures hasActiveSession == OnShiftWalk(log)
    ensures hasActiveBreak == BreakWalk(log)
  {
    hasActiveSession, hasActiveBreak := false, false;
    for i := 0 to |log|
      invariant hasActiveSession == OnShiftWalk(log[..i])
      invariant hasActiveBreak == BreakWalk(log[..i])
    {
      assert log[..i + 1][..i] == log[..i];
      match log[i].kind {
        case TimeIn => hasActiveSession := true;
        case TimeOut => hasActiveSession, hasActiveBreak := false, false;
        case BreakIn => hasActiveBreak := true;
        case BreakOut => hasActiveBreak := false;
      }
    }
    assert log[..|log|] == log;
  }

  method WalkForClockOut(log: Log) returns (isOnShift: bool, openBreak: bool)
    ensures isOnShift == OnShiftWalk(log)
    ensures openBreak == OpenBreakWalk(log)
  {
    isOnShift, openBreak := false, false;
    for i := 0 to |log|
      invariant isOnShift == OnShiftWalk(log[..i])
      invariant openBreak == OpenBreakWalk(log[..i])
    {
      assert log[..i + 1][..i] == log[..i];
      match log[i].kind {
        case TimeIn => isOnShift, openBreak := true, false;
        case TimeOut => isOnShift, openBreak := false, false;
        case BreakIn => openBreak := true;
        case BreakOut => openBreak := false;
      }
    }
    assert log[..|log|] == log;
  }

  // ----- Readers that count

  function Count(log: Log, kind: Kind): nat {
    if log == [] then 0
    else Count(log[..|log| - 1], kind) + (if log[|log| - 1].kind == kind then 1 else 0)
  }

  /** The entries from a time on. */
  function Since(log: Log, t: int): Log {
    if log == [] then [] else (if log[0].at >= t then [log[0]] else []) + Since(log[1..], t)
  }

  /** The time of the last time-in. */
  function LastTimeIn(log: Log): Option<int> {
    if log == [] then None
    else if log[|log| - 1].kind.TimeIn? then Some(log[|log| - 1].at)
    else LastTimeIn(log[..|log| - 1])
  }

  /** `getShiftState`: breaks are counted since the last time-in, or over everything when off shift. */
  function OnBreakByCount(log: Log): bool {
    var session := if OnShiftWalk(log) && LastTimeIn(log).Some? then Since(log, LastTimeIn(log).value) else log;
    Count(session, BreakIn) > Count(session, BreakOut)
  }

  /** `getResumableShift` and `resumeShift`: today's entries only. */
  function OnShiftTodayByCount(log: Log, today: int): bool {
    Count(Since(log, today), TimeIn) > Count(Since(log, today), TimeOut)
  }

  // ----- All readers agree

  lemma {:induction false} WalksTellThePhase(log: Log)
    requires Parse(log).Some?
    ensures OnShiftWalk(log) <==> Parse(log) != Some(Off)
    ensures BreakWalk(log) <==> Parse(log) == Some(OnBreak)
    ensures OpenBreakWalk(log) <==> Parse(log) == Some(OnBreak)
    ensures OnShiftWalk(log) ==> LastTimeIn(log).Some?
  {
    if log != [] {
      WalksTellThePhase(log[..|log| - 1]);
    }
  }

  function OnBit(p: Option<Phase>): int {
    if p == Some(On) || p == Some(OnBreak) then 1 else 0
  }

  function BreakBit(p: Option<Phase>): int {
    if p == Some(OnBreak) then 1 else 0
  }

  /** Counting a later part of a log measures how the phase changed over it. */
  lemma {:induction false} CountsMeasureChange(head: Log, tail: Log)
    requires Parse(head + tail).Some?
    ensures Parse(head).Some?
    ensures Count(tail, TimeIn) - Count(tail, TimeOut) == OnBit(Parse(head + tail)) - OnBit(Parse(head))
    ensures Count(tail, BreakIn) - Count(tail, BreakOut) == BreakBit(Parse(head + tail)) - BreakBit(Parse(head))
  {
    if tail == [] {
      assert head + tail == head;
    } else {
      assert (head + tail)[..|head + tail| - 1] == head + tail[..|tail| - 1];
      CountsMeasureChange(head, tail[..|tail| - 1]);
    }
  }

  lemma {:induction false} SinceSplit(log: Log, k: nat, t: int)
    requires k <= |log|
    requires forall i | 0 <= i < k :: log[i].at < t
    requires forall i | k <= i < |log| :: log[i].at >= t
    ensures Since(log, t) == log[k..]
  {
    if log != [] {
      var tail := log[1..];
      assert forall i | 0 <= i < |tail| :: tail[i] == log[i + 1];
      SinceSplit(tail, if k == 0 then 0 else k - 1, t);
      assert k > 0 ==> log[k..] == tail[k - 1..];
    }
  }

  /** In time order, the entries from a time on are a tail of the log. */
  lemma SinceIsTail(log: Log, t: int) returns (k: nat)
    requires InTime(log)
    ensures k <= |log| && Since(log, t) == log[k..]
    ensures forall i | 0 <= i < k :: log[i].at < t
    ensures forall i | k <= i < |log| :: log[i].at >= t
  {
    k := 0;
    while k < |log| && log[k].at < t
      invariant k <= |log| && forall i | 0 <= i < k :: log[i].at < t
    {
      k := k + 1;
    }
    assert k < |log| ==> forall i | k < i < |log| :: log[k].at <= log[i].at;
    SinceSplit(log, k, t);
  }

  /** A time-in begins the tail of its own time. */
  lemma SinceTimeIn(log: Log, k: nat)
    requires InTime(log) && k < |log| && log[k].kind.TimeIn?
    ensures Since(log, log[k].at) == log[k..]
  {
    assert forall i | 0 <= i < k :: log[i].at < log[k].at;
    assert forall i | k < i < |log| :: log[k].at <= log[i].at;
    SinceSplit(log, k, log[k].at);
  }

  /** The last time-in splits off the current shift: before it everybody was off. */
  lemma {:induction false} LastShift(log: Log) returns (k: nat)
    requires Parse(log).Some? && OnShiftWalk(log)
    ensures k < |log| && log[k].kind.TimeIn? && LastTimeIn(log) == Some(log[k].at) && Parse(log[..k]) == Some(Off)
    ensures forall i | k < i < |log| :: !log[i].kind.TimeIn? && !log[i].kind.TimeOut?
  {
    var init := log[..|log| - 1];
    if log[|log| - 1].kind.TimeIn? {
      k := |log| - 1;
    } else {
      k := LastShift(init);
      assert init[..k] == log[..k];
    }
  }

  lemma BreaksSince(log: Log, k: nat)
    requires Parse(log).Some? && k <= |log| && Parse(log[..k]) == Some(Off)
    ensures Count(log[k..], BreakIn) > Count(log[k..], BreakOut) <==> Parse(log) == Some(OnBreak)
  {
    hide Parse, Count;
    assert log == log[..k] + log[k..];
    CountsMeasureChange(log[..k], log[k..]);
  }

  /** Counting breaks since the last time-in gives the walkers' answer. */
  lemma BreakCountAgrees(log: Log)
    requires WellFormed(log)
    ensures OnBreakByCount(log) <==> Parse(log) == Some(OnBreak)
  {
    WalksTellThePhase(log);
    if OnShiftWalk(log) {
      var k := LastShift(log);
      BreaksSince(log, k);
      SinceTimeIn(log, k);
    } else {
      BreaksSince(log, 0);
      assert log[0..] == log;
    }
    hide Parse, InTime, OnShiftWalk, LastTimeIn, Since, Count;
  }

  lemma OnBitCases(p: Phase)
    ensures OnBit(Some(p)) == if p.Off? then 0 else 1
  {
  }

  lemma ShiftsSince(log: Log, k: nat)
    requires Parse(log).Some? && k <= |log|
    ensures Parse(log[..k]).Some?
    ensures Count(log[k..], TimeIn) > Count(log[k..], TimeOut)
            <==> Parse(log[..k]) == Some(Off) && Parse(log) != Some(Off)
  {
    hide Parse, Count;
    assert log == log[..k] + log[k..];
    CountsMeasureChange(log[..k], log[k..]);
    OnBitCases(Parse(log).value);
    OnBitCases(Parse(log[..k]).value);
  }

  /**
   Counting today's entries gives the walkers' answer exactly when nobody was on shift as the day
   began, or no longer is.
   */
  lemma TodayCountAgreesExactlyWhen(log: Log, today: int)
    requires WellFormed(log)
    ensures var k := |log| - |Since(log, today)|;
      k >= 0 && (OnShiftTodayByCount(log, today) == OnShiftWalk(log)
                 <==> Parse(log[..k]) == Some(Off) || Parse(log) == Some(Off))
  {
    var k := SinceIsTail(log, today);
    WalksTellThePhase(log);
    ShiftsSince(log, k);
    hide Count, Since, OnShiftWalk, Parse, InTime;
    assert |log[k..]| == |log| - k;
  }

  /** The two entries of a manager's clock-out share a time; reading them in either order changes no answer. */
  lemma TieOrderDoesNotMatter(log: Log, a: Entry, b: Entry)
    requires a.kind.BreakOut? && b.kind.TimeOut?
    ensures OnShiftWalk(log + [a, b]) == OnShiftWalk(log + [b, a])
    ensures BreakWalk(log + [a, b]) == BreakWalk(log + [b, a])
    ensures OpenBreakWalk(log + [a, b]) == OpenBreakWalk(log + [b, a])
    ensures forall kind :: Count(log + [a, b], kind) == Count(log + [b, a], kind)
  {
    var x, y := log + [a, b], log + [b, a];
    assert x[..|x| - 1] == log + [a] && y[..|y| - 1] == log + [b];
    assert (log + [a])[..|log|] == log && (log + [b])[..|log|] == log;
  }
}
