/**
 Requests about AI modes and shadow drafts that overlap. Each reads, writes and logs in three
 operations, and may stop after any of them. The log stays truthful exactly as long as every write
 still finds what its request read, and rows are logged in the order of their writes.
 */
module AiModeRuns {
  import opened Text
  import opened AiOperatingMode

  /** What a request has read before it writes. */
  datatype Job = Job(seen: Metadata, request: Request)

  /** `owed` are the rows of the writes not logged yet, oldest write first. */
  datatype State = State(org: Org, reading: map<nat, Job>, owed: seq<seq<Row>>)

  datatype Event =
    | Read(id: nat, request: Request)
    | Write(id: nat)
    | LogRows(k: nat)   // of the k-th write not logged yet
    | Lose(k: nat)      // that request dies before it logs

  function Without(owed: seq<seq<Row>>, k: nat): seq<seq<Row>>
    requires k < |owed|
  {
    owed[..k] + owed[k + 1..]
  }

  function Step(s: State, e: Event): State {
    match e
    case Read(id, request) => s.(reading := s.reading[id := Job(s.org.metadata, request)])
    case Write(id) =>
      if id !in s.reading then s
      else
        var job := s.reading[id];
        State(s.org.(metadata := Written(s.org.metadata, job.seen, job.request)), s.reading - {id},
              if Writes(job.seen, job.request) then s.owed + [RowsFor(job.seen, job.request)] else s.owed)
    case LogRows(k) =>
      if k >= |s.owed| then s
      else s.(org := s.org.(log := s.org.log + s.owed[k]), owed := Without(s.owed, k))
    case Lose(k) => if k >= |s.owed| then s else s.(owed := Without(s.owed, k))
  }

  function Run(s: State, events: seq<Event>): State {
    if events == [] then s else Step(Run(s, events[..|events| - 1]), events[|events| - 1])
  }

  function Initial(org: Org): State {
    State(org, map[], [])
  }

  // ----- What is logged and what is owed

  function Joined(owed: seq<seq<Row>>): seq<Row> {
    if owed == [] then [] else Joined(owed[..|owed| - 1]) + owed[|owed| - 1]
  }

  function OwedRows(owed: seq<seq<Row>>, c: Channel): seq<Row> {
    RowsOf(Joined(owed), c)
  }

  /** The rows logged, and then those owed in the order of their writes, lead to the stored setting. */
  predicate Owing(start: Metadata, s: State, c: Channel) {
    Path(start.Setting(c), RowsOf(s.org.log, c) + OwedRows(s.owed, c), s.org.metadata.Setting(c))
  }

  lemma {:induction false} JoinedParts(a: seq<seq<Row>>, b: seq<seq<Row>>)
    ensures Joined(a + b) == Joined(a) + Joined(b)
  {
    if b == [] {
      assert a + b == a;
    } else {
      var front, last := b[..|b| - 1], b[|b| - 1];
      assert (a + b)[..|a + b| - 1] == a + front;
      JoinedParts(a, front);
      assert Joined(a) + Joined(front) + last == Joined(a) + (Joined(front) + last);
    }
  }

  lemma OneJoined(rows: seq<Row>)
    ensures Joined([rows]) == rows
  {
    assert [rows][..0] == [];
    assert Joined([rows]) == Joined([]) + rows;
  }

  lemma OwedParts(owed: seq<seq<Row>>, k: nat, c: Channel)
    requires k < |owed|
    ensures OwedRows(owed, c) == OwedRows(owed[..k], c) + RowsOf(owed[k], c) + OwedRows(owed[k + 1..], c)
    ensures OwedRows(Without(owed, k), c) == OwedRows(owed[..k], c) + OwedRows(owed[k + 1..], c)
  {
    hide Joined, RowsOf;
    var a, b := owed[..k], owed[k + 1..];
    assert owed == a + [owed[k]] + b;
    JoinedParts(a + [owed[k]], b);
    JoinedParts(a, [owed[k]]);
    JoinedParts(a, b);
    OneJoined(owed[k]);
    RowsOfAppended(Joined(a) + owed[k], Joined(b), c);
    RowsOfAppended(Joined(a), owed[k], c);
    RowsOfAppended(Joined(a), Joined(b), c);
  }

  // ----- Each step, exactly

  /** A write finds the channel as its request read it. */
  predicate Fresh(stored: Metadata, job: Job, c: Channel) {
    Writes(job.seen, job.request) && Covers(job.request, c) ==> stored.Setting(c) == job.seen.Setting(c)
  }

  /** Rows that come back to where they start. */
  predicate Idle(rows: seq<Row>) {
    rows == [] || rows[0].fromMode == rows[|rows| - 1].toMode
  }

  /** Nothing of the channel is overtaken, unless by rows that lead from its place and back to it. */
  predicate InTurn(owed: seq<seq<Row>>, k: nat, c: Channel)
    requires k < |owed|
  {
    var before, rows := OwedRows(owed[..k], c), RowsOf(owed[k], c);
    before == [] || rows == [] || (Idle(rows) && rows[0].fromMode == before[0].fromMode)
  }

  predicate Orderly(s: State, e: Event, c: Channel) {
    match e
    case Read(_, _) => true
    case Write(id) => id in s.reading ==> Fresh(s.org.metadata, s.reading[id], c)
    case LogRows(k) => k < |s.owed| ==> InTurn(s.owed, k, c)
    case Lose(k) => k < |s.owed| ==> Idle(RowsOf(s.owed[k], c))
  }

  lemma Unwritten(stored: Metadata, job: Job)
    requires !Writes(job.seen, job.request)
    ensures Written(stored, job.seen, job.request) == stored
  {
  }

  lemma OneMoreOwed(owed: seq<seq<Row>>, rows: seq<Row>, c: Channel)
    ensures OwedRows(owed + [rows], c) == OwedRows(owed, c) + RowsOf(rows, c)
  {
    assert (owed + [rows])[..|owed|] == owed;
    RowsOfAppended(Joined(owed), rows, c);
  }

  /** At most one more row: the path goes on to where the row leads exactly if it starts where the path ends. */
  lemma AppendExactlyWhen(start: string, all: seq<Row>, rows: seq<Row>, end: string)
    requires Path(start, all, end) && |rows| <= 1
    ensures rows == [] ==> forall to :: Path(start, all + rows, to) <==> to == end
    ensures rows != [] ==> (Path(start, all + rows, rows[0].toMode) <==> rows[0].fromMode == end)
  {
    if rows == [] {
      assert all + rows == all;
      forall to | Path(start, all, to) ensures to == end {
        PathIsUnique(start, all, end, to);
      }
    } else {
      assert rows == [rows[0]];
      PathExtends(start, all, rows[0]);
      if Path(start, all, rows[0].fromMode) {
        PathIsUnique(start, all, end, rows[0].fromMode);
      }
    }
  }

  lemma WriteKeepsOwingExactlyWhen(start: Metadata, s: State, id: nat, c: Channel)
    requires Owing(start, s, c) && id in s.reading
    ensures Owing(start, Step(s, Write(id)), c) <==> Fresh(s.org.metadata, s.reading[id], c)
  {
    hide Writes, Written, RowsFor, RowsOf, Metadata.Setting, OwedRows, Covers;
    var job := s.reading[id];
    if Writes(job.seen, job.request) {
      OneMoreOwed(s.owed, RowsFor(job.seen, job.request), c);
      WrittenChannel(s.org.metadata, job.seen, job.request, c);
      var rows := RowsOf(RowsFor(job.seen, job.request), c);
      var all := RowsOf(s.org.log, c) + OwedRows(s.owed, c);
      assert RowsOf(s.org.log, c) + (OwedRows(s.owed, c) + rows) == all + rows;
      AppendExactlyWhen(start.Setting(c), all, rows, s.org.metadata.Setting(c));
    } else {
      Unwritten(s.org.metadata, job);
    }
  }

  lemma FourParts(start: string, log: seq<Row>, a: seq<Row>, x: seq<Row>, b: seq<Row>, end: string)
    returns (m: string, u: string, v: string)
    requires Path(start, log + (a + x + b), end)
    ensures Path(start, log, m) && Path(m, a, u) && Path(u, x, v) && Path(v, b, end)
  {
    hide Path;
    PathJoins(start, log, a + x + b, end);
    m :| Path(start, log, m) && Path(m, a + x + b, end);
    PathJoins(m, a + x, b, end);
    v :| Path(m, a + x, v) && Path(v, b, end);
    PathJoins(m, a, x, v);
    u :| Path(m, a, u) && Path(u, x, v);
  }

  lemma Join(start: string, log: seq<Row>, a: seq<Row>, x: seq<Row>, b: seq<Row>,
             m: string, u: string, v: string, end: string)
    requires Path(start, log, m) && Path(m, a, u) && Path(u, x, v) && Path(v, b, end)
    ensures Path(start, log + (a + x + b), end)
  {
    hide Path;
    PathJoins(m, a, x, v);
    PathJoins(m, a + x, b, end);
    PathJoins(start, log, a + x + b, end);
  }

  lemma Overtakes(start: string, log: seq<Row>, a: seq<Row>, x: seq<Row>, b: seq<Row>, end: string)
    requires Path(start, log + (a + x + b), end) && a != [] && x != []
    ensures Path(start, log + x + (a + b), end) <==> Idle(x) && x[0].fromMode == a[0].fromMode
  {
    var m, u, v := FourParts(start, log, a, x, b, end);
    PathLinks(m, a, u);
    PathLinks(u, x, v);
    if Path(start, log + x + (a + b), end) {
      assert log + x + (a + b) == log + (x + a + b);
      var m', u', v' := FourParts(start, log, x, a, b, end);
      PathIsUnique(start, log, m, m');
      PathLinks(m', x, u');
      PathLinks(u', a, v');
    }
    if Idle(x) && x[0].fromMode == a[0].fromMode {
      assert m == u == v;
      assert log + x + (a + b) == log + (x + a + b);
      Join(start, log, x, a, b, m, u, v, end);
    }
  }

  /** Bringing a stretch of rows forward keeps the path exactly if it overtakes nothing or leads nowhere. */
  lemma ForwardExactlyWhen(start: string, log: seq<Row>, a: seq<Row>, x: seq<Row>, b: seq<Row>, end: string)
    requires Path(start, log + (a + x + b), end)
    ensures Path(start, log + x + (a + b), end)
       <==> a == [] || x == [] || (Idle(x) && x[0].fromMode == a[0].fromMode)
  {
    if a == [] {
      assert log + (a + x + b) == log + x + (a + b);
    } else if x == [] {
      assert log + (a + x + b) == log + x + (a + b);
    } else {
      Overtakes(start, log, a, x, b, end);
    }
  }

  lemma LogKeepsOwingExactlyWhen(start: Metadata, s: State, k: nat, c: Channel)
    requires Owing(start, s, c) && k < |s.owed|
    ensures Owing(start, Step(s, LogRows(k)), c) <==> InTurn(s.owed, k, c)
  {
    hide RowsOf, Metadata.Setting, OwedRows, Path;
    OwedParts(s.owed, k, c);
    RowsOfAppended(s.org.log, s.owed[k], c);
    ForwardExactlyWhen(start.Setting(c), RowsOf(s.org.log, c), OwedRows(s.owed[..k], c), RowsOf(s.owed[k], c),
                       OwedRows(s.owed[k + 1..], c), s.org.metadata.Setting(c));
  }

  /** Where a path starts is settled by its rows and its end. */
  lemma {:induction false} StartIsUnique(start: string, other: string, rows: seq<Row>, end: string)
    requires Path(start, rows, end) && Path(other, rows, end)
    ensures start == other
  {
    PathLinks(start, rows, end);
    PathLinks(other, rows, end);
  }

  /** Leaving a stretch of rows out keeps the path exactly if it leads nowhere. */
  lemma LeaveOutExactlyWhen(start: string, log: seq<Row>, a: seq<Row>, x: seq<Row>, b: seq<Row>, end: string)
    requires Path(start, log + (a + x + b), end)
    ensures Path(start, log + (a + b), end) <==> Idle(x)
  {
    var m, u, v := FourParts(start, log, a, x, b, end);
    PathLinks(u, x, v);
    assert a + [] + b == a + b;
    if Path(start, log + (a + b), end) {
      var m', u', v' := FourParts(start, log, a, [], b, end);
      PathIsUnique(start, log, m, m');
      PathIsUnique(m, a, u, u');
      StartIsUnique(v, v', b, end);
    }
    if Idle(x) {
      Join(start, log, a, [], b, m, u, v, end);
    }
  }

  lemma LossKeepsOwingExactlyWhen(start: Metadata, s: State, k: nat, c: Channel)
    requires Owing(start, s, c) && k < |s.owed|
    ensures Owing(start, Step(s, Lose(k)), c) <==> Idle(RowsOf(s.owed[k], c))
  {
    hide RowsOf, Metadata.Setting, OwedRows, Path;
    OwedParts(s.owed, k, c);
    LeaveOutExactlyWhen(start.Setting(c), RowsOf(s.org.log, c), OwedRows(s.owed[..k], c), RowsOf(s.owed[k], c),
                        OwedRows(s.owed[k + 1..], c), s.org.metadata.Setting(c));
  }

  lemma SameOwing(start: Metadata, s: State, t: State, c: Channel)
    requires s.org == t.org && s.owed == t.owed
    ensures Owing(start, s, c) == Owing(start, t, c)
  {
  }

  lemma StepKeepsOwingExactlyWhen(start: Metadata, s: State, e: Event, c: Channel)
    requires Owing(start, s, c)
    ensures Owing(start, Step(s, e), c) <==> Orderly(s, e, c)
  {
    hide Owing, Fresh, InTurn, Idle;
    match e
    case Read(id, request) => SameOwing(start, s, Step(s, e), c);
    case Write(id) =>
      if id in s.reading {
        WriteKeepsOwingExactlyWhen(start, s, id, c);
      }
    case LogRows(k) =>
      if k < |s.owed| {
        LogKeepsOwingExactlyWhen(start, s, k, c);
      }
    case Lose(k) =>
      if k < |s.owed| {
        LossKeepsOwingExactlyWhen(start, s, k, c);
      }
  }

  // ----- Whole runs

  /** Before the run and after every step of it. */
  predicate AlwaysOwing(start: Metadata, s: State, events: seq<Event>, c: Channel) {
    Owing(start, Run(s, events), c) && (events != [] ==> AlwaysOwing(start, s, events[..|events| - 1], c))
  }

  predicate AlwaysOrderly(s: State, events: seq<Event>, c: Channel) {
    events != [] ==>
      && AlwaysOrderly(s, events[..|events| - 1], c)
      && Orderly(Run(s, events[..|events| - 1]), events[|events| - 1], c)
  }

  /**
   However requests overlap: what is logged and still owed leads to the stored setting at every
   moment, exactly if every write is fresh, every logging is in turn and no death loses a change.
   */
  lemma {:induction false} LogIsTruthfulExactlyWhen(start: Metadata, s: State, events: seq<Event>, c: Channel)
    requires Owing(start, s, c)
    ensures AlwaysOwing(start, s, events, c) <==> AlwaysOrderly(s, events, c)
  {
    hide Owing, Orderly, Step;
    if events != [] {
      var front, e := events[..|events| - 1], events[|events| - 1];
      LogIsTruthfulExactlyWhen(start, s, front, c);
      if AlwaysOwing(start, s, front, c) {
        assert Owing(start, Run(s, front), c);
        StepKeepsOwingExactlyWhen(start, Run(s, front), e, c);
      }
    }
  }

  lemma NothingOwed(start: Metadata, s: State, c: Channel)
    requires s.org == Org(start, []) && s.owed == []
    ensures Owing(start, s, c)
  {
  }

  /** Once nothing is owed, the log itself tells the channel's history, from its first setting to the stored one. */
  lemma OrderlyRunsAreAccounted(start: Metadata, events: seq<Event>, c: Channel)
    requires AlwaysOrderly(Initial(Org(start, [])), events, c)
    requires OwedRows(Run(Initial(Org(start, [])), events).owed, c) == []
    ensures Accounted(start, Run(Initial(Org(start, [])), events).org, c)
  {
    var s := Initial(Org(start, []));
    NothingOwed(start, s, c);
    LogIsTruthfulExactlyWhen(start, s, events, c);
    hide Run, OwedRows, RowsOf;
    var t := Run(s, events);
    assert AlwaysOwing(start, s, events, c);
    assert Owing(start, t, c);
    assert RowsOf(t.org.log, c) + [] == RowsOf(t.org.log, c);
  }

  /** Over every interleaving each row is a real change, and none goes live without its reason. */
  ghost predicate AllSound(s: State) {
    Sound(s.org.log) && forall k | 0 <= k < |s.owed| :: Sound(s.owed[k])
  }

  lemma StepIsSound(s: State, e: Event)
    requires AllSound(s)
    ensures AllSound(Step(s, e))
  {
    hide Flips, LiveWithReason, Writes, Written, RowsFor;
    if e.Write? && e.id in s.reading {
      LoggedRowsAreSound(s.reading[e.id].seen, s.reading[e.id].request);
    }
  }

  lemma {:induction false} LogIsSound(s: State, events: seq<Event>)
    requires AllSound(s)
    ensures AllSound(Run(s, events))
  {
    hide Step, AllSound;
    if events != [] {
      LogIsSound(s, events[..|events| - 1]);
      StepIsSound(Run(s, events[..|events| - 1]), events[|events| - 1]);
    }
  }

  lemma StepKeepsSwitch(s: State, e: Event)
    requires SwitchAgrees(s.org.metadata)
    ensures SwitchAgrees(Step(s, e).org.metadata)
  {
    hide SwitchAgrees, Written, Writes, RowsFor;
    if e.Write? && e.id in s.reading {
      WriteSetsSwitch(s.org.metadata, s.reading[e.id].seen, s.reading[e.id].request);
    }
  }

  /** The old switch tells whether some channel is live, whatever was overwritten by whom. */
  lemma {:induction false} EnabledExactlyWhenSomeChannelIsLive(s: State, events: seq<Event>)
    requires SwitchAgrees(s.org.metadata)
    ensures SwitchAgrees(Run(s, events).org.metadata)
  {
    hide Step, SwitchAgrees;
    if events != [] {
      EnabledExactlyWhenSomeChannelIsLive(s, events[..|events| - 1]);
      StepKeepsSwitch(Run(s, events[..|events| - 1]), events[|events| - 1]);
    }
  }

  // ----- No way into live unconfirmed

  /** Nobody holds the channel live: neither the organization nor what a request has read. */
  ghost predicate NowhereLive(s: State, c: Channel) {
    !ConfiguredLive(s.org.metadata, c) && forall id | id in s.reading :: !ConfiguredLive(s.reading[id].seen, c)
  }

  /** The write of this event was confirmed for the channel, or took it over from the old switch. */
  predicate ConfirmedWrite(s: State, e: Event, c: Channel) {
    e.Write? && e.id in s.reading
    && (AsksForLive(s.reading[e.id].request, c) || TakesOverLive(s.reading[e.id].seen, s.reading[e.id].request, c))
  }

  lemma NotLiveUnconfirmed(s: State, e: Event, c: Channel)
    requires c != ShadowDrafts && NowhereLive(s, c) && !NowhereLive(Step(s, e), c)
    ensures ConfirmedWrite(s, e, c)
  {
    hide AsksForLive, TakesOverLive, ConfiguredLive, Written, Writes, RowsFor;
    if e.Write? && e.id in s.reading {
      var job := s.reading[e.id];
      EnteringLiveIsConfirmed(s.org.metadata, job.seen, job.request, c);
    }
  }

  /**
   However requests overlap: the write that first puts a channel live is that of a confirmed request, which
   asks for this channel or takes it over from the old switch.
   */
  lemma {:induction false} LiveWasConfirmed(s: State, events: seq<Event>, c: Channel) returns (i: nat)
    requires c != ShadowDrafts && NowhereLive(s, c) && !NowhereLive(Run(s, events), c)
    ensures i < |events| && NowhereLive(Run(s, events[..i]), c) && !NowhereLive(Run(s, events[..i + 1]), c)
    ensures ConfirmedWrite(Run(s, events[..i]), events[i], c)
  {
    hide NowhereLive, ConfirmedWrite, Step;
    var n := |events| - 1;
    var front := events[..n];
    assert events[..n + 1] == events;
    if NowhereLive(Run(s, front), c) {
      i := n;
      NotLiveUnconfirmed(Run(s, front), events[n], c);
    } else {
      i := LiveWasConfirmed(s, front, c);
      assert front[..i] == events[..i] && front[..i + 1] == events[..i + 1];
    }
  }

  /** The organization's modes are configured, and every request has read them so. */
  predicate AllConfigured(s: State) {
    s.org.metadata.configured.Some? && forall id | id in s.reading :: s.reading[id].seen.configured.Some?
  }

  lemma StepKeepsConfigured(s: State, e: Event)
    requires AllConfigured(s)
    ensures AllConfigured(Step(s, e))
  {
    hide Written, Writes, RowsFor;
    if e.Write? && e.id in s.reading {
      StaysConfiguredBy(s.org.metadata, s.reading[e.id].seen, s.reading[e.id].request);
    }
  }

  lemma {:induction false} RunKeepsConfigured(s: State, events: seq<Event>)
    requires AllConfigured(s)
    ensures AllConfigured(Run(s, events))
  {
    hide AllConfigured, Step;
    if events != [] {
      RunKeepsConfigured(s, events[..|events| - 1]);
      StepKeepsConfigured(Run(s, events[..|events| - 1]), events[|events| - 1]);
    }
  }

  /** Once modes are configured, it is a confirmed request that chose live for this very channel. */
  lemma LiveWasAskedFor(s: State, events: seq<Event>, c: Channel) returns (i: nat)
    requires c != ShadowDrafts && AllConfigured(s) && NowhereLive(s, c) && !NowhereLive(Run(s, events), c)
    ensures i < |events| && NowhereLive(Run(s, events[..i]), c) && !NowhereLive(Run(s, events[..i + 1]), c)
    ensures var before := Run(s, events[..i]);
      events[i].Write? && events[i].id in before.reading && AsksForLive(before.reading[events[i].id].request, c)
  {
    hide NowhereLive, Run, AsksForLive;
    i := LiveWasConfirmed(s, events, c);
    RunKeepsConfigured(s, events[..i]);
  }

  // ----- Only admins

  predicate FromAdmin(r: Request) {
    match r
    case Modes(m) => m.admin
    case Shadow(w) => w.admin
  }

  /** Whatever was seen, a request of anybody else writes nothing and logs nothing. */
  lemma OnlyAdminsWrite(stored: Metadata, seen: Metadata, r: Request)
    requires !FromAdmin(r)
    ensures !Writes(seen, r) && Written(stored, seen, r) == stored && RowsFor(seen, r) == []
  {
  }

  /** A request between read and write was submitted by an event of the run, and read what was stored then. */
  lemma {:induction false} JobWasRead(org: Org, events: seq<Event>, id: nat) returns (i: nat)
    requires id in Run(Initial(org), events).reading
    ensures i < |events| && events[i].Read? && events[i].id == id
    ensures Run(Initial(org), events).reading[id] == Job(Run(Initial(org), events[..i]).org.metadata, events[i].request)
  {
    hide Written, RowsFor, Writes;
    var n := |events| - 1;
    if events[n].Read? && events[n].id == id {
      i := n;
    } else {
      i := JobWasRead(org, events[..n], id);
      assert events[..n][..i] == events[..i];
    }
  }

  /** Event `j` is the write of an admin's request, submitted at event `i`. */
  predicate WrittenByAdmin(org: Org, events: seq<Event>, i: nat, j: nat)
    requires j < |events|
  {
    && i < j && events[i].Read? && events[j].Write? && events[i].id == events[j].id && FromAdmin(events[i].request)
    && events[j].id in Run(Initial(org), events[..j]).reading
    && Run(Initial(org), events[..j]).reading[events[j].id].request == events[i].request
  }

  lemma WriterIsAdmin(org: Org, events: seq<Event>, j: nat) returns (i: nat)
    requires j < |events| && events[j].Write? && events[j].id in Run(Initial(org), events[..j]).reading
    requires var job := Run(Initial(org), events[..j]).reading[events[j].id]; Writes(job.seen, job.request)
    ensures WrittenByAdmin(org, events, i, j)
  {
    hide Run, Writes;
    var job := Run(Initial(org), events[..j]).reading[events[j].id];
    i := JobWasRead(org, events[..j], events[j].id);
    if !FromAdmin(job.request) {
      OnlyAdminsWrite(job.seen, job.seen, job.request);
      assert false;
    }
  }

  /** In every interleaving, whatever changes the stored modes or the switch is the write of an admin's request. */
  lemma ChangesGoBackToAdmins(org: Org, events: seq<Event>, j: nat) returns (i: nat)
    requires j < |events|
    requires Run(Initial(org), events[..j + 1]).org.metadata != Run(Initial(org), events[..j]).org.metadata
    ensures WrittenByAdmin(org, events, i, j)
  {
    hide Written, Writes, RowsFor, WrittenByAdmin;
    assert events[..j + 1][..j] == events[..j];
    var before := Run(Initial(org), events[..j]);
    var job := before.reading[events[j].id];
    if !Writes(job.seen, job.request) {
      Unwritten(before.org.metadata, job);
    }
    i := WriterIsAdmin(org, events, j);
  }

  /** The row is one of those that event `j` writes for its request. */
  predicate RowOf(org: Org, events: seq<Event>, j: nat, row: Row)
    requires j < |events|
  {
    && events[j].Write? && events[j].id in Run(Initial(org), events[..j]).reading
    && var job := Run(Initial(org), events[..j]).reading[events[j].id]; row in RowsFor(job.seen, job.request)
  }

  /** A row that is logged, after the ones at the start, or that is still owed. */
  predicate Recorded(org: Org, s: State, row: Row) {
    || (exists k :: |org.log| <= k < |s.org.log| && s.org.log[k] == row)
    || (exists k :: 0 <= k < |s.owed| && row in s.owed[k])
  }

  lemma {:induction false} LogOnlyGrows(org: Org, events: seq<Event>)
    ensures org.log <= Run(Initial(org), events).org.log
  {
    hide Written, Writes, RowsFor;
    if events != [] {
      LogOnlyGrows(org, events[..|events| - 1]);
    }
  }

  lemma NewlyRecorded(org: Org, s: State, e: Event, row: Row)
    requires |org.log| <= |s.org.log| && Recorded(org, Step(s, e), row) && !Recorded(org, s, row)
    ensures e.Write? && e.id in s.reading
    ensures var job := s.reading[e.id]; Writes(job.seen, job.request) && row in RowsFor(job.seen, job.request)
  {
    hide Writes, Written, RowsFor;
  }

  lemma NothingRecorded(org: Org, row: Row)
    ensures !Recorded(org, Run(Initial(org), []), row)
  {
  }

  lemma SameWriter(org: Org, events: seq<Event>, n: nat, i: nat, j: nat)
    requires j < n <= |events| && WrittenByAdmin(org, events[..n], i, j)
    ensures WrittenByAdmin(org, events, i, j)
  {
    hide Run;
    assert events[..n][..j] == events[..j];
  }

  /** In every interleaving, each row that is logged, or still owed, is of a write of an admin's request. */
  lemma {:induction false} RowsGoBackToAdmins(org: Org, events: seq<Event>, row: Row) returns (i: nat, j: nat)
    requires Recorded(org, Run(Initial(org), events), row)
    ensures j < |events| && WrittenByAdmin(org, events, i, j) && RowOf(org, events, j, row)
  {
    hide Recorded, Step, RowsFor, Writes, WrittenByAdmin;
    if events == [] {
      NothingRecorded(org, row);
      assert false;
    } else {
      var n := |events| - 1;
      if Recorded(org, Run(Initial(org), events[..n]), row) {
        i, j := RowsGoBackToAdmins(org, events[..n], row);
        assert events[..n][..j] == events[..j];
        SameWriter(org, events, n, i, j);
      } else {
        LogOnlyGrows(org, events[..n]);
        NewlyRecorded(org, Run(Initial(org), events[..n]), events[n], row);
        j := n;
        i := WriterIsAdmin(org, events, j);
      }
    }
  }

  /** Requests of others, however they overlap, leave the organization as it was. */
  lemma {:induction false} OthersChangeNothing(org: Org, events: seq<Event>)
    requires forall i | 0 <= i < |events| && events[i].Read? :: !FromAdmin(events[i].request)
    ensures var end := Run(Initial(org), events);
      end.org == org && end.owed == [] && forall id | id in end.reading :: !FromAdmin(end.reading[id].request)
  {
    hide Written, Writes, RowsFor, FromAdmin;
    if events != [] {
      var n := |events| - 1;
      OthersChangeNothing(org, events[..n]);
      var before := Run(Initial(org), events[..n]);
      if events[n].Write? && events[n].id in before.reading {
        var job := before.reading[events[n].id];
        OnlyAdminsWrite(org.metadata, job.seen, job.request);
      }
    }
  }

  // ----- One at a time

  lemma AloneLogsItsRows(org: Org, r: Request, s: State)
    requires s.org == org.(metadata := Written(org.metadata, org.metadata, r))
    requires s.owed == if Writes(org.metadata, r) then [RowsFor(org.metadata, r)] else []
    ensures Step(s, LogRows(0)).org == Serve(org, r)
  {
    assert org.log + [] == org.log;
  }

  /** A request by itself goes through the three operations. */
  lemma ServedAlone(org: Org, r: Request)
    ensures Run(Initial(org), [Read(0, r), Write(0), LogRows(0)]).org == Serve(org, r)
  {
    hide Writes, Written, RowsFor;
    var es := [Read(0, r), Write(0), LogRows(0)];
    assert es[..1] == [Read(0, r)] && es[..2] == [Read(0, r), Write(0)];
    assert es[..2][..1] == es[..1] && es[..1][..0] == [];
    var s1 := Step(Initial(org), Read(0, r));
    assert Run(Initial(org), es[..1]) == s1;
    var s2 := Step(s1, Write(0));
    assert Run(Initial(org), es[..2]) == s2;
    assert Run(Initial(org), es) == Step(s2, LogRows(0));
    AloneLogsItsRows(org, r, s2);
  }

  function ServeAll(org: Org, requests: seq<Request>): Org {
    if requests == [] then org else Serve(ServeAll(org, requests[..|requests| - 1]), requests[|requests| - 1])
  }

  lemma NothingToLog(seen: Metadata, r: Request)
    requires !Writes(seen, r)
    ensures RowsFor(seen, r) == []
  {
  }

  lemma ServeIsAccounted(start: Metadata, org: Org, r: Request, c: Channel)
    requires Accounted(start, org, c)
    ensures Accounted(start, Serve(org, r), c)
  {
    hide Writes, Written, RowsFor, RowsOf, Path, Metadata.Setting, Covers;
    var m, rows := org.metadata, RowsFor(org.metadata, r);
    RowsOfAppended(org.log, rows, c);
    if Writes(m, r) {
      WrittenChannel(m, m, r, c);
      AppendExactlyWhen(start.Setting(c), RowsOf(org.log, c), RowsOf(rows, c), m.Setting(c));
    } else {
      Unwritten(m, Job(m, r));
      assert rows == [] by { NothingToLog(m, r); }
      NoRows(c);
      assert RowsOf(org.log, c) + [] == RowsOf(org.log, c);
    }
  }

  /** Requests served one at a time: each channel's rows lead from its first setting to its last. */
  lemma {:induction false} LogLeadsToTheStoredSetting(start: Metadata, requests: seq<Request>, c: Channel)
    ensures Accounted(start, ServeAll(Org(start, []), requests), c)
  {
    hide Serve;
    if requests != [] {
      hide Accounted;
      LogLeadsToTheStoredSetting(start, requests[..|requests| - 1], c);
      ServeIsAccounted(start, ServeAll(Org(start, []), requests[..|requests| - 1]), requests[|requests| - 1], c);
    }
  }

  /** Request `i` put the channel live, where it has been since. */
  ghost predicate EnteredAt(org: Org, requests: seq<Request>, c: Channel, i: nat)
    requires i < |requests|
  {
    && !ConfiguredLive(ServeAll(org, requests[..i]).metadata, c)
    && forall j | i < j <= |requests| :: ConfiguredLive(ServeAll(org, requests[..j]).metadata, c)
  }

  lemma ServeEntersLive(org: Org, r: Request, c: Channel)
    requires c != ShadowDrafts
    requires ConfiguredLive(Serve(org, r).metadata, c) && !ConfiguredLive(org.metadata, c)
    ensures AsksForLive(r, c) || TakesOverLive(org.metadata, r, c)
  {
    hide ConfiguredLive, AsksForLive, TakesOverLive, Written;
    EnteringLiveIsConfirmed(org.metadata, org.metadata, r, c);
  }

  lemma {:induction false} ServeAllKeepsConfigured(org: Org, requests: seq<Request>)
    requires org.metadata.configured.Some?
    ensures ServeAll(org, requests).metadata.configured.Some?
  {
    hide Written, Writes, RowsFor;
    if requests != [] {
      ServeAllKeepsConfigured(org, requests[..|requests| - 1]);
      var before := ServeAll(org, requests[..|requests| - 1]);
      StaysConfiguredBy(before.metadata, before.metadata, requests[|requests| - 1]);
    }
  }

  /** One at a time, it is the very request that put the channel live, where it has been since, that was confirmed. */
  lemma {:induction false} EntryWasConfirmed(org: Org, requests: seq<Request>, c: Channel) returns (i: nat)
    requires c != ShadowDrafts && !ConfiguredLive(org.metadata, c)
    requires ConfiguredLive(ServeAll(org, requests).metadata, c)
    ensures i < |requests| && EnteredAt(org, requests, c, i)
    ensures AsksForLive(requests[i], c) || TakesOverLive(ServeAll(org, requests[..i]).metadata, requests[i], c)
    ensures org.metadata.configured.Some? ==> AsksForLive(requests[i], c)
  {
    hide Serve, ConfiguredLive, AsksForLive;
    var n := |requests| - 1;
    var front := requests[..n];
    var before := ServeAll(org, front);
    assert requests[..n + 1] == requests;
    if ConfiguredLive(before.metadata, c) {
      i := EntryWasConfirmed(org, front, c);
      assert forall j | 0 <= j <= n :: front[..j] == requests[..j];
    } else {
      i := n;
      ServeEntersLive(before, requests[n], c);
      if org.metadata.configured.Some? {
        ServeAllKeepsConfigured(org, front);
      }
    }
  }

  // ----- Two requests

  lemma SwappedLog(s: State, c: Channel)
    requires |s.owed| == 2
    ensures var t := Step(Step(s, LogRows(1)), LogRows(0));
      && t.org.metadata == s.org.metadata
      && RowsOf(t.org.log, c) == RowsOf(s.org.log, c) + RowsOf(s.owed[1], c) + RowsOf(s.owed[0], c)
  {
    hide RowsOf;
    var x, y := s.owed[0], s.owed[1];
    assert Without(s.owed, 1) == [x];
    RowsOfAppended(s.org.log, y, c);
    RowsOfAppended(s.org.log + y, x, c);
  }

  lemma TwoOwed(owed: seq<seq<Row>>, c: Channel)
    requires |owed| == 2
    ensures OwedRows(owed, c) == RowsOf(owed[0], c) + RowsOf(owed[1], c)
  {
    hide RowsOf;
    OneMoreOwed([owed[0]], owed[1], c);
    assert owed == [owed[0]] + [owed[1]];
    OneJoined(owed[0]);
  }

  lemma SwappedRows(start: string, log: seq<Row>, a: Row, b: Row, end: string)
    requires Path(start, log + [a] + [b], end)
    ensures Path(start, log + [b] + [a], end) <==> a.fromMode == a.toMode && b.fromMode == b.toMode
  {
    PathExtends(start, log + [a], b);
    PathExtends(start, log, a);
    PathExtends(start, log + [b], a);
    PathExtends(start, log, b);
    hide Path;
    if Path(start, log, b.fromMode) {
      PathIsUnique(start, log, a.fromMode, b.fromMode);
    }
  }

  /** Two writes logged in the other order: the log is right afterwards only if neither changed the channel. */
  lemma SwappedLogsAreAccountedExactlyWhen(start: Metadata, s: State, c: Channel)
    requires Owing(start, s, c) && |s.owed| == 2
    requires |RowsOf(s.owed[0], c)| == |RowsOf(s.owed[1], c)| == 1
    ensures Accounted(start, Step(Step(s, LogRows(1)), LogRows(0)).org, c)
       <==> Idle(RowsOf(s.owed[0], c)) && Idle(RowsOf(s.owed[1], c))
  {
    hide RowsOf, Metadata.Setting, Path, OwedRows;
    var a, b, log := RowsOf(s.owed[0], c), RowsOf(s.owed[1], c), RowsOf(s.org.log, c);
    SwappedLog(s, c);
    TwoOwed(s.owed, c);
    assert log + (a + b) == log + a + b;
    assert a == [a[0]] && b == [b[0]];
    SwappedRows(start.Setting(c), log, a[0], b[0], s.org.metadata.Setting(c));
  }

  const LIVE_BY_SMS := Metadata(Some(map[Sms := "live"]), true, false)
  const TURN_SMS_OFF := Modes(ModesRequest(true, Some(map[Sms := "off"]), "", ""))
  const TRAIN_SMS := Modes(ModesRequest(true, Some(map[Sms := "training"]), "", ""))
  const TRAIN_EMAIL := Modes(ModesRequest(true, Some(map[Email := "training"]), "", ""))

  lemma ThreeSettings()
    ensures LIVE_BY_SMS.Setting(Sms) == "live"
    ensures Writes(LIVE_BY_SMS, TURN_SMS_OFF) && Writes(LIVE_BY_SMS, TRAIN_EMAIL)
    ensures Written(LIVE_BY_SMS, LIVE_BY_SMS, TURN_SMS_OFF).Setting(Sms) == "off"
  {
    hide Trim, Rows;
    var r := TURN_SMS_OFF.modes;
    assert NextMode(LIVE_BY_SMS, r, Sms) == "off" && LIVE_BY_SMS.Mode(Sms) == "live";
    assert Changes(LIVE_BY_SMS, r, Sms);
    assert !GoesLive(LIVE_BY_SMS, r, Sms) && !GoesLive(LIVE_BY_SMS, r, Email) && !GoesLive(LIVE_BY_SMS, r, Webchat);
    assert Decide(LIVE_BY_SMS, r) == Updated;
    WrittenMode(LIVE_BY_SMS, LIVE_BY_SMS, r, Sms);
    assert Changes(LIVE_BY_SMS, TRAIN_EMAIL.modes, Email);
    assert Decide(LIVE_BY_SMS, TRAIN_EMAIL.modes) == Updated;
  }

  lemma RunOneMore(s: State, events: seq<Event>, e: Event)
    ensures Run(s, events + [e]) == Step(Run(s, events), e)
  {
    assert (events + [e])[..|events|] == events;
  }

  /** Both read, then one writes and logs, then the other. */
  function Overlap(a: Request, b: Request): seq<Event> {
    [Read(0, a), Read(1, b)] + [Write(0)] + [LogRows(0)] + [Write(1)] + [LogRows(0)]
  }

  lemma RunNothing(s: State)
    ensures Run(s, []) == s
  {
  }

  lemma OverlapEnds(org: Org, a: Request, b: Request)
    requires Writes(org.metadata, a) && Writes(org.metadata, b)
    ensures var m := org.metadata;
      Run(Initial(org), Overlap(a, b)).org
      == Org(Written(Written(m, m, a), m, b), org.log + RowsFor(m, a) + RowsFor(m, b))
  {
    hide Writes, Written, RowsFor, Run;
    var es := [Read(0, a)];
    RunNothing(Initial(org));
    RunOneMore(Initial(org), [], Read(0, a));
    RunOneMore(Initial(org), [Read(0, a)], Read(1, b));
    assert [] + [Read(0, a)] == [Read(0, a)] && [Read(0, a)] + [Read(1, b)] == [Read(0, a), Read(1, b)];
    var both := [Read(0, a), Read(1, b)];
    RunOneMore(Initial(org), both, Write(0));
    RunOneMore(Initial(org), both + [Write(0)], LogRows(0));
    RunOneMore(Initial(org), both + [Write(0)] + [LogRows(0)], Write(1));
    RunOneMore(Initial(org), both + [Write(0)] + [LogRows(0)] + [Write(1)], LogRows(0));
  }

  /** One writes, the other reads that and writes too, and then logs first. */
  function Swap(a: Request, b: Request): seq<Event> {
    [Read(0, a), Write(0)] + [Read(1, b)] + [Write(1)] + [LogRows(1)] + [LogRows(0)]
  }

  lemma SwapEnds(org: Org, a: Request, b: Request)
    requires Writes(org.metadata, a) && Writes(Written(org.metadata, org.metadata, a), b)
    ensures var m := org.metadata;
      var n := Written(m, m, a);
      Run(Initial(org), Swap(a, b)).org == Org(Written(n, n, b), org.log + RowsFor(n, b) + RowsFor(m, a))
  {
    hide Writes, Written, RowsFor, Run;
    RunNothing(Initial(org));
    RunOneMore(Initial(org), [], Read(0, a));
    RunOneMore(Initial(org), [Read(0, a)], Write(0));
    assert [] + [Read(0, a)] == [Read(0, a)] && [Read(0, a)] + [Write(0)] == [Read(0, a), Write(0)];
    var one := [Read(0, a), Write(0)];
    RunOneMore(Initial(org), one, Read(1, b));
    RunOneMore(Initial(org), one + [Read(1, b)], Write(1));
    RunOneMore(Initial(org), one + [Read(1, b)] + [Write(1)], LogRows(1));
    RunOneMore(Initial(org), one + [Read(1, b)] + [Write(1)] + [LogRows(1)], LogRows(0));
  }

  /** A late write silently sets a channel it was not asked about back to what it had read. */
  lemma LateWriteRestoresWhatItRead(stored: Metadata, seen: Metadata, late: Request, c: Channel)
    requires Writes(seen, late) && late.Modes? && c != ShadowDrafts && !Asks(late.modes, c) && !seen.FromLegacy()
    ensures Written(stored, seen, late).Setting(c) == seen.Setting(c)
    ensures RowsOf(RowsFor(seen, late), c) == []
  {
    hide Decide, RowsOf, Rows, Metadata.Mode;
    WrittenMode(stored, seen, late.modes, c);
    LoggedRows(seen, late.modes, 3, c);
  }

  lemma LastRowDiffers(start: string, rows: seq<Row>, end: string)
    requires rows != [] && rows[|rows| - 1].toMode != end
    ensures !Path(start, rows, end)
  {
  }

  /** Neither request confirms anything, and after both sms is live again although its last row says off. */
  lemma LateWriteRevivesLive()
    ensures var end := Run(Initial(Org(LIVE_BY_SMS, [])), Overlap(TURN_SMS_OFF, TRAIN_EMAIL)).org;
      && end.metadata.Setting(Sms) == "live"
      && !Accounted(LIVE_BY_SMS, end, Sms)
  {
    ThreeSettings();
    hide Writes, Written, RowsFor, Run, Metadata.Setting, RowsOf, Overlap;
    var m, a, b := LIVE_BY_SMS, TURN_SMS_OFF, TRAIN_EMAIL;
    OverlapEnds(Org(m, []), a, b);
    LateWriteRestoresWhatItRead(Written(m, m, a), m, b, Sms);
    WrittenChannel(m, m, a, Sms);
    assert [] + RowsFor(m, a) == RowsFor(m, a);
    RowsOfAppended(RowsFor(m, a), RowsFor(m, b), Sms);
    assert RowsOf(RowsFor(m, a), Sms) + [] == RowsOf(RowsFor(m, a), Sms);
    LastRowDiffers(m.Setting(Sms), RowsOf(RowsFor(m, a), Sms), "live");
  }

  lemma StaysConfigured()
    ensures var n := Written(LIVE_BY_SMS, LIVE_BY_SMS, TURN_SMS_OFF);
      n.Mode(Email) == "off" && n.Mode(Webchat) == "off"
  {
    ThreeSettings();
    hide Rows, Decide;
    WrittenMode(LIVE_BY_SMS, LIVE_BY_SMS, TURN_SMS_OFF.modes, Email);
    WrittenMode(LIVE_BY_SMS, LIVE_BY_SMS, TURN_SMS_OFF.modes, Webchat);
  }

  lemma SmsTrains()
    ensures var n := Written(LIVE_BY_SMS, LIVE_BY_SMS, TURN_SMS_OFF);
      Writes(n, TRAIN_SMS) && Written(n, n, TRAIN_SMS).Setting(Sms) == "training"
  {
    ThreeSettings();
    hide Trim, Rows, Written, Metadata.Mode;
    var n := Written(LIVE_BY_SMS, LIVE_BY_SMS, TURN_SMS_OFF);
    var r := TRAIN_SMS.modes;
    assert NextMode(n, r, Sms) == "training" && n.Mode(Sms) == "off";
    assert Changes(n, r, Sms);
    StaysConfigured();
    assert n.Mode(Email) != "live" && n.Mode(Webchat) != "live";
    assert Decide(n, r) == Updated;
    WrittenMode(n, n, r, Sms);
  }

  /** Both writes are fresh, but the second is logged first: the last row does not say where sms stands. */
  lemma LateLogBreaksTheHistory()
    ensures var end := Run(Initial(Org(LIVE_BY_SMS, [])), Swap(TURN_SMS_OFF, TRAIN_SMS)).org;
      && end.metadata.Setting(Sms) == "training"
      && !Accounted(LIVE_BY_SMS, end, Sms)
  {
    ThreeSettings();
    SmsTrains();
    hide Writes, Written, RowsFor, Run, Metadata.Setting, RowsOf, Swap;
    var m, a, b := LIVE_BY_SMS, TURN_SMS_OFF, TRAIN_SMS;
    var n := Written(m, m, a);
    SwapEnds(Org(m, []), a, b);
    WrittenChannel(m, m, a, Sms);
    WrittenChannel(n, n, b, Sms);
    assert [] + RowsFor(n, b) == RowsFor(n, b);
    RowsOfAppended(RowsFor(n, b), RowsFor(m, a), Sms);
    LastRowDiffers(m.Setting(Sms), RowsOf(RowsFor(n, b) + RowsFor(m, a), Sms), "training");
  }
}
