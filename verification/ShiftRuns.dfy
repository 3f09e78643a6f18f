/**
 Requests on one shift log that overlap. A handler reads the log and decides, and writes in further
 operations: the clock appends, a manager's clock-out appends once or twice, a resume deletes an entry
 by its id. The automatic clock-out appends without reading. Entries are read in the order of their times.
 */
module ShiftRuns {
  import opened Text
  import opened ShiftLog
  import opened ShiftHandlers
  import opened TimeLogEngine

  /** A stored entry; new ones get an id of their own. */
  datatype Doc = Doc(id: nat, entry: Entry)

  /** What a request still has to write, and what it goes by. */
  datatype Job =
    | Clocking(seen: Log, kind: Kind, note: string)
    | Closing(now: int, manager: string, breakOpen: bool)
    | Resuming(target: nat)

  datatype State = State(docs: seq<Doc>, nextId: nat, jobs: map<nat, Job>)

  datatype Event =
    | ReadClock(id: nat, kind: Kind, note: string, lookback: int, today: int, allowed: bool)
    | ReadManager(id: nat, now: int, manager: string)
    | ReadResume(id: nat, today: int)
    | Write(id: nat, now: int)
    | AutoEnd(at: int)

  function Entries(docs: seq<Doc>): Log {
    if docs == [] then [] else Entries(docs[..|docs| - 1]) + [docs[|docs| - 1].entry]
  }

  function LogOf(s: State): Log {
    Entries(s.docs)
  }

  // ----- Two ways to change the log

  function Insert(docs: seq<Doc>, d: Doc): seq<Doc> {
    if docs == [] || docs[|docs| - 1].entry.at <= d.entry.at then docs + [d]
    else Insert(docs[..|docs| - 1], d) + [docs[|docs| - 1]]
  }

  function Delete(docs: seq<Doc>, id: nat): seq<Doc> {
    if docs == [] then []
    else if docs[|docs| - 1].id == id then docs[..|docs| - 1]
    else Delete(docs[..|docs| - 1], id) + [docs[|docs| - 1]]
  }

  predicate Present(docs: seq<Doc>, id: nat) {
    exists i | 0 <= i < |docs| :: docs[i].id == id
  }

  /** Nothing in the log is later; a time-in must be later than everything. */
  predicate Latest(log: Log, e: Entry) {
    log == [] || log[|log| - 1].at < e.at || (log[|log| - 1].at == e.at && !e.kind.TimeIn?)
  }

  /** The one phase that an entry leads on from. */
  function From(kind: Kind): Phase {
    match kind
    case TimeIn => Off
    case BreakOut => OnBreak
    case _ => On
  }

  lemma OneWayOn(phase: Phase, kind: Kind)
    ensures Next(phase, kind).Some? <==> phase == From(kind)
    ensures Next(phase, kind) != Some(phase)
  {
  }

  /** What is allowed from a phase is not allowed any more after another entry. */
  lemma NoneAfterAnother(phase: Phase, other: Kind, kind: Kind)
    requires Next(phase, kind).Some?
    ensures var after := Next(phase, other); after.Some? ==> Next(after.value, kind).None?
  {
  }

  lemma {:induction false} EntriesLength(docs: seq<Doc>)
    ensures |Entries(docs)| == |docs|
  {
    if docs != [] {
      EntriesLength(docs[..|docs| - 1]);
    }
  }

  lemma LastEntry(docs: seq<Doc>)
    requires docs != []
    ensures var log := Entries(docs);
      && |log| == |docs| && log[|log| - 1] == docs[|docs| - 1].entry
      && log[..|log| - 1] == Entries(docs[..|docs| - 1])
  {
    EntriesLength(docs[..|docs| - 1]);
  }

  lemma OneMoreEntry(docs: seq<Doc>, d: Doc)
    ensures Entries(docs + [d]) == Entries(docs) + [d.entry]
  {
    assert (docs + [d])[..|docs|] == docs;
  }

  lemma ParseOneMore(log: Log, e: Entry)
    ensures Parse(log + [e]) == if Parse(log).None? then None else Next(Parse(log).value, e.kind)
  {
    assert (log + [e])[..|log|] == log;
  }

  lemma ParseDocs(docs: seq<Doc>, d: Doc)
    ensures var before := Parse(Entries(docs));
      Parse(Entries(docs + [d])) == if before.None? then None else Next(before.value, d.entry.kind)
  {
    OneMoreEntry(docs, d);
    ParseOneMore(Entries(docs), d.entry);
  }

  /** An entry stored ahead of others takes the log out of the grammar. */
  lemma {:induction false} EarlierEntryBreaks(docs: seq<Doc>, d: Doc)
    requires docs != [] && Parse(Entries(docs)).Some? && docs[|docs| - 1].entry.at > d.entry.at
    ensures Parse(Entries(Insert(docs, d))) == None
  {
    hide Entries, Parse;
    var front, last := docs[..|docs| - 1], docs[|docs| - 1];
    assert docs == front + [last];
    ParseDocs(front, last);
    ParseDocs(Insert(front, d), last);
    if front != [] && front[|front| - 1].entry.at > d.entry.at {
      EarlierEntryBreaks(front, d);
    } else {
      ParseDocs(front, d);
      NoneAfterAnother(Parse(Entries(front)).value, d.entry.kind, last.entry.kind);
    }
  }

  lemma InTimeExactlyWhen(log: Log, e: Entry)
    requires InTime(log)
    ensures InTime(log + [e]) <==> Latest(log, e)
  {
    var s := log + [e];
    if Latest(log, e) {
      forall i, j | 0 <= i < j < |s| ensures s[i].at <= s[j].at && (s[j].kind.TimeIn? ==> s[i].at < s[j].at) {
        if j == |log| && i < |log| - 1 {
          assert log[i].at <= log[|log| - 1].at;
        }
      }
    } else {
      assert s[|log| - 1] == log[|log| - 1] && s[|log|] == e;
    }
  }

  /** An entry keeps the grammar exactly if it is stored last and the log is in the phase it leads on from. */
  lemma InsertKeepsGrammarExactlyWhen(docs: seq<Doc>, d: Doc)
    requires WellFormed(Entries(docs))
    ensures WellFormed(Entries(Insert(docs, d)))
       <==> Latest(Entries(docs), d.entry) && Parse(Entries(docs)) == Some(From(d.entry.kind))
  {
    var log := Entries(docs);
    EntriesLength(docs);
    if docs != [] {
      LastEntry(docs);
    }
    if docs != [] && docs[|docs| - 1].entry.at > d.entry.at {
      EarlierEntryBreaks(docs, d);
    } else {
      OneMoreEntry(docs, d);
      ParseOneMore(log, d.entry);
      OneWayOn(Parse(log).value, d.entry.kind);
      InTimeExactlyWhen(log, d.entry);
      hide InTime, Entries, Parse;
    }
  }

  lemma {:induction false} NothingDeleted(docs: seq<Doc>, id: nat)
    requires !Present(docs, id)
    ensures Delete(docs, id) == docs
  {
    if docs != [] {
      assert docs[|docs| - 1].id != id;
      assert forall i | 0 <= i < |docs| - 1 :: docs[..|docs| - 1][i] == docs[i];
      NothingDeleted(docs[..|docs| - 1], id);
    }
  }

  predicate EndsShift(docs: seq<Doc>, id: nat) {
    forall d | d in docs :: d.id == id ==> d.entry.kind.TimeOut?
  }

  /** A time-out taken out from under later entries leaves two shifts run together. */
  lemma {:induction false} EarlierDeletionBreaks(docs: seq<Doc>, id: nat)
    requires Present(docs, id) && docs[|docs| - 1].id != id && EndsShift(docs, id)
    requires Parse(Entries(docs)).Some?
    ensures Parse(Entries(Delete(docs, id))) == None
  {
    hide Entries, Parse;
    var front, last := docs[..|docs| - 1], docs[|docs| - 1];
    assert docs == front + [last];
    ParseDocs(front, last);
    ParseDocs(Delete(front, id), last);
    assert forall i | 0 <= i < |front| :: front[i] == docs[i];
    assert Present(front, id);
    if front[|front| - 1].id == id {
      assert front == front[..|front| - 1] + [front[|front| - 1]];
      ParseDocs(front[..|front| - 1], front[|front| - 1]);
    } else {
      EarlierDeletionBreaks(front, id);
    }
  }

  /** Deleting a time-out keeps the grammar exactly if it is the last entry, or already gone. */
  lemma DeleteKeepsGrammarExactlyWhen(docs: seq<Doc>, id: nat)
    requires WellFormed(Entries(docs)) && EndsShift(docs, id)
    ensures WellFormed(Entries(Delete(docs, id))) <==> !Present(docs, id) || docs[|docs| - 1].id == id
  {
    if !Present(docs, id) {
      NothingDeleted(docs, id);
    } else if docs[|docs| - 1].id == id {
      LastEntry(docs);
      FrontIsWellFormed(Entries(docs));
    } else {
      EarlierDeletionBreaks(docs, id);
    }
    hide *;
  }

  // ----- The requests

  function Stored(s: State, e: Entry): State {
    s.(docs := Insert(s.docs, Doc(s.nextId, e)), nextId := s.nextId + 1)
  }

  /** A resume that goes as far as deleting. */
  predicate Resumes(log: Log, today: int) {
    var reply := ShiftResumed(log, today).1;
    reply.Resumed? || reply.ServerError?
  }

  /** The next entry that a pending request stores. */
  function NextEntry(job: Job, now: int): Entry
    requires !job.Resuming?
  {
    match job
    case Clocking(_, kind, note) => Entry(kind, now, note)
    case Closing(at, manager, breakOpen) =>
      if breakOpen then Entry(BreakOut, at, "Break closed alongside manual clock-out by " + manager)
      else Entry(TimeOut, at, ManualNote(manager))
  }

  function Step(s: State, e: Event): State {
    match e
    case ReadClock(id, kind, note, lookback, today, allowed) =>
      if ClockCheck(Since(LogOf(s), lookback), kind, allowed, today).Accepted?
      then s.(jobs := s.jobs[id := Clocking(LogOf(s), kind, note)]) else s
    case ReadManager(id, now, manager) =>
      if OnShiftWalk(LogOf(s)) then s.(jobs := s.jobs[id := Closing(now, manager, OpenBreakWalk(LogOf(s)))]) else s
    case ReadResume(id, today) =>
      if s.docs != [] && Resumes(LogOf(s), today)
      then s.(jobs := s.jobs[id := Resuming(s.docs[|s.docs| - 1].id)]) else s
    case Write(id, now) =>
      if id !in s.jobs then s
      else
        var job := s.jobs[id];
        if job.Resuming? then s.(docs := Delete(s.docs, job.target), jobs := s.jobs - {id})
        else
          var rest := if job.Closing? && job.breakOpen then s.jobs[id := job.(breakOpen := false)] else s.jobs - {id};
          Stored(s, NextEntry(job, now)).(jobs := rest)
    case AutoEnd(at) => Stored(s, Entry(TimeOut, at, STAGED_IDLE_NOTE))
  }

  function Run(s: State, events: seq<Event>): State {
    if events == [] then s else Step(Run(s, events[..|events| - 1]), events[|events| - 1])
  }

  // ----- Each step, exactly

  /** The phase the log was in when the request read it, or left it. */
  function CountsOn(job: Job): Option<Phase>
    requires !job.Resuming?
  {
    match job
    case Clocking(seen, _, _) => Parse(seen)
    case Closing(_, _, breakOpen) => if breakOpen then Some(OnBreak) else Some(On)
  }

  /**
   The log is in the phase that the request counts on, and what it writes comes last; what it deletes is the
   last entry, or gone. An automatic clock-out must come during a shift and outside a break.
   */
  predicate InTurn(s: State, e: Event) {
    match e
    case Write(id, now) =>
      id in s.jobs ==>
        var job := s.jobs[id];
        if job.Resuming? then !Present(s.docs, job.target) || s.docs[|s.docs| - 1].id == job.target
        else Parse(LogOf(s)) == CountsOn(job) && Latest(LogOf(s), NextEntry(job, now))
    case AutoEnd(at) => Parse(LogOf(s)) == Some(On) && Latest(LogOf(s), Entry(TimeOut, at, STAGED_IDLE_NOTE))
    case _ => true
  }

  /** No open shift began before the look-back of a clock request. */
  ghost predicate Reaches(s: State, e: Event) {
    e.ReadClock? && WellFormed(LogOf(s)) ==> OffBefore(LogOf(s), e.lookback)
  }

  predicate Fits(docs: seq<Doc>, nextId: nat, job: Job) {
    match job
    case Clocking(seen, kind, _) => Parse(seen) == Some(From(kind))
    case Closing(_, _, _) => true
    case Resuming(target) => target < nextId && EndsShift(docs, target)
  }

  predicate Known(docs: seq<Doc>, nextId: nat) {
    && (forall d | d in docs :: d.id < nextId)
    && forall d, other | d in docs && other in docs :: d.id == other.id ==> d == other
  }

  /** Every pending request was right when it read; ids are given once. */
  predicate Sound(s: State) {
    Known(s.docs, s.nextId) && forall id | id in s.jobs :: Fits(s.docs, s.nextId, s.jobs[id])
  }

  /** What the clock accepts leads on from the phase of the log it read. */
  lemma AcceptedFrom(seen: Log, kind: Kind, lookback: int, today: int, allowed: bool)
    requires WellFormed(seen) && OffBefore(seen, lookback)
    requires ClockCheck(Since(seen, lookback), kind, allowed, today).Accepted?
    ensures Parse(seen) == Some(From(kind))
  {
    hide Parse, Since, InTime, OnShiftWalk, BreakWalk, OpenBreakWalk, UsedBreak, LastTimeIn, OffBefore;
    WindowTellsThePhase(seen, lookback);
    WalksTellThePhase(Since(seen, lookback));
    assert Parse(seen).value.Off? || Parse(seen).value.On? || Parse(seen).value.OnBreak?;
  }

  lemma {:induction false} ResumeTakesTimeOut(docs: seq<Doc>, today: int)
    requires docs != [] && WellFormed(Entries(docs)) && Resumes(Entries(docs), today)
    ensures docs[|docs| - 1].entry.kind.TimeOut?
  {
    var log := Entries(docs);
    LastEntry(docs);
    var k := SinceIsTail(log, today);
    assert log[k..] != [] ==> log[k..][|log[k..]| - 1] == log[|log| - 1];
    hide Entries, Since, Parse, InTime, Count, Resumable, LastTimeIn;
  }

  lemma {:induction false} InsertMembers(docs: seq<Doc>, d: Doc)
    ensures forall x | x in Insert(docs, d) :: x in docs || x == d
  {
    if docs != [] {
      InsertMembers(docs[..|docs| - 1], d);
    }
  }

  lemma {:induction false} DeleteMembers(docs: seq<Doc>, id: nat)
    ensures forall x | x in Delete(docs, id) :: x in docs
  {
    if docs != [] {
      DeleteMembers(docs[..|docs| - 1], id);
    }
  }

  lemma StoredIsSound(s: State, e: Entry)
    requires Sound(s)
    ensures Sound(Stored(s, e))
  {
    hide Insert, Parse;
    InsertMembers(s.docs, Doc(s.nextId, e));
  }

  lemma StepKeepsSound(s: State, e: Event)
    requires Sound(s) && WellFormed(LogOf(s)) && Reaches(s, e)
    ensures Sound(Step(s, e))
  {
    hide Insert, Delete, Parse, InTime, ClockCheck, Since, OnShiftWalk, OpenBreakWalk, Resumes, OffBefore, Entries;
    match e
    case ReadClock(id, kind, note, lookback, today, allowed) =>
      if ClockCheck(Since(LogOf(s), lookback), kind, allowed, today).Accepted? {
        AcceptedFrom(LogOf(s), kind, lookback, today, allowed);
      }
    case ReadManager(id, now, manager) =>
    case ReadResume(id, today) =>
      if s.docs != [] && Resumes(LogOf(s), today) {
        ResumeTakesTimeOut(s.docs, today);
      }
    case Write(id, now) =>
      if id in s.jobs {
        if s.jobs[id].Resuming? {
          DeleteMembers(s.docs, s.jobs[id].target);
        } else {
          StoredIsSound(s, NextEntry(s.jobs[id], now));
        }
      }
    case AutoEnd(at) => StoredIsSound(s, Entry(TimeOut, at, STAGED_IDLE_NOTE));
  }

  lemma StepKeepsGrammarExactlyWhen(s: State, e: Event)
    requires Sound(s) && WellFormed(LogOf(s))
    ensures WellFormed(LogOf(Step(s, e))) <==> InTurn(s, e)
  {
    hide Insert, Delete, Parse, InTime, ClockCheck, Since, OnShiftWalk, OpenBreakWalk, Resumes, Entries, Latest;
    hide Present, EndsShift;
    match e
    case ReadClock(_, _, _, _, _, _) =>
    case ReadManager(_, _, _) =>
    case ReadResume(_, _) =>
    case Write(id, now) =>
      if id in s.jobs {
        var job := s.jobs[id];
        assert Fits(s.docs, s.nextId, job);
        if job.Resuming? {
          DeleteKeepsGrammarExactlyWhen(s.docs, job.target);
        } else {
          InsertKeepsGrammarExactlyWhen(s.docs, Doc(s.nextId, NextEntry(job, now)));
        }
      }
    case AutoEnd(at) =>
      InsertKeepsGrammarExactlyWhen(s.docs, Doc(s.nextId, Entry(TimeOut, at, STAGED_IDLE_NOTE)));
  }

  // ----- Whole runs

  ghost predicate AllReach(s: State, events: seq<Event>) {
    events != [] ==>
      AllReach(s, events[..|events| - 1]) && Reaches(Run(s, events[..|events| - 1]), events[|events| - 1])
  }

  /** Before the run and after every step of it. */
  ghost predicate AlwaysWellFormed(s: State, events: seq<Event>) {
    WellFormed(LogOf(Run(s, events))) && (events != [] ==> AlwaysWellFormed(s, events[..|events| - 1]))
  }

  predicate AlwaysInTurn(s: State, events: seq<Event>) {
    events != [] ==>
      AlwaysInTurn(s, events[..|events| - 1]) && InTurn(Run(s, events[..|events| - 1]), events[|events| - 1])
  }

  lemma {:induction false} WellFormedRunsAreSound(s: State, events: seq<Event>)
    requires Sound(s) && AllReach(s, events) && AlwaysWellFormed(s, events)
    ensures Sound(Run(s, events))
  {
    hide Sound, WellFormed, Reaches, Step;
    if events != [] {
      var front := events[..|events| - 1];
      WellFormedRunsAreSound(s, front);
      assert WellFormed(LogOf(Run(s, front)));
      StepKeepsSound(Run(s, front), events[|events| - 1]);
    }
  }

  /**
   However requests overlap and whenever automatic clock-outs come in between: the log stays in the
   grammar all along exactly if every write finds it in the phase its request counts on and comes last, and
   every resume deletes what is still the last entry or is gone already.
   */
  lemma {:induction false} LogStaysInGrammarExactlyWhen(s: State, events: seq<Event>)
    requires Sound(s) && WellFormed(LogOf(s)) && AllReach(s, events)
    ensures AlwaysWellFormed(s, events) <==> AlwaysInTurn(s, events)
  {
    hide Sound, WellFormed, Reaches, Step, InTurn;
    if events != [] {
      var front := events[..|events| - 1];
      LogStaysInGrammarExactlyWhen(s, front);
      if AlwaysWellFormed(s, front) {
        WellFormedRunsAreSound(s, front);
        assert WellFormed(LogOf(Run(s, front)));
        StepKeepsGrammarExactlyWhen(Run(s, front), events[|events| - 1]);
      }
    }
  }

  /** After such a run walking and counting readers agree. */
  lemma RunsInTurnAreReadAlike(s: State, events: seq<Event>)
    requires Sound(s) && WellFormed(LogOf(s)) && AllReach(s, events) && AlwaysInTurn(s, events)
    ensures var log := LogOf(Run(s, events));
      && WellFormed(log)
      && (OnShiftWalk(log) <==> Parse(log) != Some(Off))
      && (BreakWalk(log) <==> OnBreakByCount(log))
      && (OpenBreakWalk(log) <==> OnBreakByCount(log))
  {
    hide Sound, WellFormed, Reaches, Step, InTurn, OnBreakByCount, OnShiftWalk, BreakWalk, OpenBreakWalk, Parse;
    LogStaysInGrammarExactlyWhen(s, events);
    ReadersAgree(LogOf(Run(s, events)));
  }

  // ----- One append that comes late

  /**
   An entry that the clock accepted over one log and stores in another: it keeps the grammar exactly if the
   log is in the same phase again, whatever was written meanwhile.
   */
  lemma LateAppendKeepsGrammarExactlyWhen(
    seen: Log, log: Log, e: Entry, lookback: int, today: int, allowed: bool)
    requires WellFormed(seen) && OffBefore(seen, lookback)
    requires Clocked(seen, e, lookback, today, allowed).1.Accepted?
    requires WellFormed(log) && After(log, e.at)
    ensures WellFormed(log + [e]) <==> Parse(log) == Parse(seen)
  {
    AcceptedFrom(seen, e.kind, lookback, today, allowed);
    OneWayOn(Parse(log).value, e.kind);
    assert forall i | 0 <= i < |log| :: log[i].at <= e.at;
    Appended(log, e);
    hide Parse, InTime, Clocked, After;
  }

  /** A read that leads to a write leaves a request that counts on the phase it has read. */
  lemma ReadsCountOnTheirPhase(s: State, e: Event)
    requires WellFormed(LogOf(s)) && (e.ReadClock? || e.ReadManager?)
    requires e.id !in s.jobs && e.id in Step(s, e).jobs
    ensures CountsOn(Step(s, e).jobs[e.id]) == Parse(LogOf(s))
  {
    WalksTellThePhase(LogOf(s));
    hide Parse, InTime, ClockCheck, Since, Entries, OnShiftWalk, OpenBreakWalk;
    assert Parse(LogOf(s)).value.Off? || Parse(LogOf(s)).value.On? || Parse(LogOf(s)).value.OnBreak?;
  }

  // ----- A request by itself

  lemma RunOneMore(s: State, events: seq<Event>, e: Event)
    ensures Run(s, events + [e]) == Step(Run(s, events), e)
  {
    assert (events + [e])[..|events|] == events;
  }

  lemma TwoSteps(s: State, a: Event, b: Event)
    ensures Run(s, [a, b]) == Step(Step(s, a), b)
  {
    assert [a, b] == [] + [a] + [b];
    RunOneMore(s, [], a);
    RunOneMore(s, [] + [a], b);
    hide Step;
  }

  lemma InsertLast(docs: seq<Doc>, d: Doc)
    requires After(Entries(docs), d.entry.at) || Latest(Entries(docs), d.entry)
    ensures Entries(Insert(docs, d)) == Entries(docs) + [d.entry]
  {
    EntriesLength(docs);
    if docs != [] {
      LastEntry(docs);
    }
    OneMoreEntry(docs, d);
    hide Entries;
  }

  /** Reading and writing in a row are the clock. */
  lemma AloneIsClocked(
    s: State, id: nat, kind: Kind, note: string, now: int, lookback: int, today: int, allowed: bool)
    requires id !in s.jobs && After(LogOf(s), now)
    ensures LogOf(Run(s, [ReadClock(id, kind, note, lookback, today, allowed), Write(id, now)]))
         == Clocked(LogOf(s), Entry(kind, now, note), lookback, today, allowed).0
  {
    TwoSteps(s, ReadClock(id, kind, note, lookback, today, allowed), Write(id, now));
    InsertLast(s.docs, Doc(s.nextId, Entry(kind, now, note)));
    hide Insert, Entries, ClockCheck, Since, After, Run;
  }

  /** Reading and deleting in a row are the resume. */
  lemma AloneIsResumed(s: State, id: nat, today: int, now: int)
    requires id !in s.jobs
    ensures LogOf(Run(s, [ReadResume(id, today), Write(id, now)])) == ShiftResumed(LogOf(s), today).0
  {
    TwoSteps(s, ReadResume(id, today), Write(id, now));
    EntriesLength(s.docs);
    if s.docs != [] {
      LastEntry(s.docs);
    }
    hide Run, Entries, Since, Count, LastTimeIn, Resumable;
  }

  lemma InsertTwice(docs: seq<Doc>, a: Doc, b: Doc)
    requires After(Entries(docs), a.entry.at) && a.entry.at == b.entry.at && !b.entry.kind.TimeIn?
    ensures Entries(Insert(docs, a)) == Entries(docs) + [a.entry]
    ensures Entries(Insert(Insert(docs, a), b)) == Entries(docs) + [a.entry] + [b.entry]
  {
    InsertLast(docs, a);
    var once := Entries(docs) + [a.entry];
    assert once[|once| - 1] == a.entry;
    InsertLast(Insert(docs, a), b);
    hide Insert, Entries;
  }

  lemma ThreeSteps(s: State, a: Event, b: Event, c: Event)
    ensures Run(s, [a, b, c]) == Step(Step(Step(s, a), b), c)
  {
    TwoSteps(s, a, b);
    RunOneMore(s, [a, b], c);
    assert [a, b] + [c] == [a, b, c];
    hide Step, Run;
  }

  /** Reading and writing twice in a row are a manager's clock-out. */
  lemma {:induction false} AloneIsManagerClockedOut(s: State, id: nat, now: int, manager: string)
    requires id !in s.jobs && After(LogOf(s), now)
    ensures LogOf(Run(s, [ReadManager(id, now, manager), Write(id, now), Write(id, now)]))
         == ManagerClockedOut(LogOf(s), now, manager).0
  {
    hide Run, Insert, Entries, After, OnShiftWalk, OpenBreakWalk, ManualNote;
    ThreeSteps(s, ReadManager(id, now, manager), Write(id, now), Write(id, now));
    var breakEnd := NextEntry(Closing(now, manager, true), now);
    var end := NextEntry(Closing(now, manager, false), now);
    if OpenBreakWalk(LogOf(s)) {
      InsertTwice(s.docs, Doc(s.nextId, breakEnd), Doc(s.nextId + 1, end));
    } else {
      InsertLast(s.docs, Doc(s.nextId, end));
      assert LogOf(s) + [] == LogOf(s);
    }
  }
}
