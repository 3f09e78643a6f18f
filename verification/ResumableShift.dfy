/**
 The question whether a shift can be resumed, asked before the request that resumes it: when the
 offer holds good, and when both name the same start of the shift.
 */
module ResumableShift {
  import opened Text
  import opened ShiftLog
  import opened ShiftHandlers

  /** `timeOuts.at(-1)`. */
  function LastTimeOut(log: Log): Option<Entry> {
    if log == [] then None
    else if log[|log| - 1].kind.TimeOut? then Some(log[|log| - 1])
    else LastTimeOut(log[..|log| - 1])
  }

  /** `timeIns[0]`. */
  function FirstTimeIn(log: Log): Option<int> {
    if log == [] then None
    else
      var earlier := FirstTimeIn(log[..|log| - 1]);
      if earlier.Some? then earlier
      else if log[|log| - 1].kind.TimeIn? then Some(log[|log| - 1].at)
      else None
  }

  datatype Offer = Offer(resumable: bool, originalClockIn: Option<int>)

  function GetResumableShift(log: Log, today: int): Offer {
    var todayLogs := Since(log, today);
    var resumable :=
      && !OnShiftTodayByCount(log, today)
      && Count(todayLogs, TimeOut) > 0
      && LastTimeOut(todayLogs).Some? && Resumable(LastTimeOut(todayLogs).value.note);
    Offer(resumable, if resumable then FirstTimeIn(todayLogs) else None)
  }

  /** The request to resume deletes the time-out; it may still fail to answer. */
  predicate Resumes(log: Log, today: int) {
    var reply := ShiftResumed(log, today).1;
    reply.Resumed? || reply.ServerError?
  }

  lemma {:induction false} ATimeOutIsFound(log: Log)
    ensures Count(log, TimeOut) > 0 <==> LastTimeOut(log).Some?
  {
    if log != [] {
      ATimeOutIsFound(log[..|log| - 1]);
    }
  }

  /**
   An offer holds good exactly when nobody is on shift: during a shift that followed, today, on the
   end of an overnight one, a resume is offered but refused.
   */
  lemma ResumeWorksExactlyWhen(log: Log, today: int)
    requires WellFormed(log)
    ensures Resumes(log, today) <==> GetResumableShift(log, today).resumable && Parse(log) == Some(Off)
  {
    hide Parse, InTime, Since, Resumable;
    var todayLogs := Since(log, today);
    ATimeOutIsFound(todayLogs);
    if todayLogs != [] {
      TailOfToday(log, today);
      OffAfterTimeOut(log);
      CountIsPositive(todayLogs);
    }
  }

  lemma TwoEntries(out: Entry, start: Entry)
    requires out.kind.TimeOut? && start.kind.TimeIn?
    ensures Count([out, start], TimeIn) == 1 && Count([out, start], TimeOut) == 1
    ensures LastTimeOut([out, start]) == Some(out)
  {
    var both, one := [out, start], [out];
    assert both[..1] == one && one[..0] == [];
    assert Count(one, TimeOut) == 1 && Count(one, TimeIn) == 0 && LastTimeOut(one) == Some(out);
  }

  /** Such a day: the overnight shift ends in a way that could be resumed, and a new one begins. */
  lemma OfferDuringNextShift(log: Log, today: int, out: Entry, start: Entry)
    requires WellFormed(log) && Parse(log) == Some(On) && After(log, today)
    requires out.kind.TimeOut? && Resumable(out.note) && today <= out.at
    requires start.kind.TimeIn? && out.at < start.at
    ensures var next := log + [out] + [start];
      && WellFormed(next) && Parse(next) == Some(On)
      && GetResumableShift(next, today).resumable
      && ShiftResumed(next, today) == (next, NothingToResume)
  {
    var next := log + [out] + [start];
    assert forall i | 0 <= i < |log| :: log[i].at <= out.at;
    Appended(log, out);
    Appended(log + [out], start);
    SinceSplit(next, |log|, today);
    assert next[|log|..] == [out, start];
    TwoEntries(out, start);
    hide Since, Parse, InTime, Resumable, Count, LastTimeOut, FirstTimeIn;
  }

  lemma TailInTime(log: Log, today: int)
    requires InTime(log)
    ensures InTime(Since(log, today))
  {
    var k := SinceIsTail(log, today);
  }

  lemma {:induction false} FirstIsLast(log: Log)
    requires InTime(log)
    ensures Count(log, TimeIn) > 0 <==> FirstTimeIn(log).Some?
    ensures Count(log, TimeIn) > 0 <==> LastTimeIn(log).Some?
    ensures Count(log, TimeIn) > 0 ==> (FirstTimeIn(log) == LastTimeIn(log) <==> Count(log, TimeIn) == 1)
    ensures FirstTimeIn(log).Some? ==> exists i | 0 <= i < |log| :: log[i].at == FirstTimeIn(log).value
  {
    if log != [] {
      var front := log[..|log| - 1];
      FirstIsLast(front);
      if FirstTimeIn(front).Some? {
        var i :| 0 <= i < |front| && front[i].at == FirstTimeIn(front).value;
        assert log[i].at == FirstTimeIn(log).value;
      }
    }
  }

  /** The offer names the first time-in of the day, the resume the last: the same exactly when there is one. */
  lemma SameStartExactlyWhen(log: Log, today: int)
    requires WellFormed(log) && Resumes(log, today) && Count(Since(log, today), TimeIn) > 0
    ensures ShiftResumed(log, today).1.Resumed?
    ensures GetResumableShift(log, today).originalClockIn == Some(ShiftResumed(log, today).1.startedAt)
       <==> Count(Since(log, today), TimeIn) == 1
  {
    hide Parse, Since, Resumable, Count, FirstTimeIn, LastTimeIn, InTime;
    ResumeWorksExactlyWhen(log, today);
    TailInTime(log, today);
    FirstIsLast(Since(log, today));
  }
}
