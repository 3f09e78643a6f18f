/**
 Quick status changes of an appointment: each request reads the status, then writes on condition
 that it is still the one it read, pushing a history entry if the status really changes.
 */
module AppointmentStatus {

  datatype Status = Scheduled | Confirmed | Cancelled | Completed | NoShow

  datatype Change = Change(from: Status, to: Status)

  datatype Doc = Doc(status: Status, history: seq<Change>)

  function Written(d: Doc, current: Status, wanted: Status): (Doc, bool) {
    if d.status != current then (d, false)
    else (Doc(wanted, if current == wanted then d.history else d.history + [Change(current, wanted)]), true)
  }

  class Appointment {
    var status: Status
    var statusHistory: seq<Change>

    function Value(): Doc
      reads this
    {
      Doc(status, statusHistory)
    }

    /** The guarded write of a request that read `current`; false is the 409 answer. */
    method UpdateStatus(current: Status, wanted: Status) returns (ok: bool)
      modifies this
      ensures ok <==> old(status) == current
      ensures ok ==> status == wanted
      ensures ok ==> statusHistory == old(statusHistory) + (if current == wanted then [] else [Change(current, wanted)])
      ensures !ok ==> unchanged(this)
      ensures (Value(), ok) == Written(old(Value()), current, wanted)
    {
      if status != current {
        return false;
      }
      status := wanted;
      if current != wanted {
        statusHistory := statusHistory + [Change(current, wanted)];
      }
      ok := true;
    }
  }

  /** The status one arrives at by following the history from `start`, if every entry continues the one before. */
  predicate Chain(start: Status, history: seq<Change>, end: Status) {
    if history == [] then start == end
    else
      var last := history[|history| - 1];
      last.to == end && last.from != last.to && Chain(start, history[..|history| - 1], last.from)
  }

  /** The document, and the status each request in flight has read. */
  datatype State = State(doc: Doc, seen: map<nat, Status>)

  datatype Event = Read(request: nat) | Write(request: nat, wanted: Status)

  function Step(s: State, e: Event): State {
    match e
    case Read(r) => s.(seen := s.seen[r := s.doc.status])
    case Write(r, wanted) =>
      if r in s.seen then State(Written(s.doc, s.seen[r], wanted).0, s.seen - {r}) else s
  }

  function Run(s: State, events: seq<Event>): State {
    if events == [] then s else Step(Run(s, events[..|events| - 1]), events[|events| - 1])
  }

  /** However requests overlap, and even if a status comes back in between, the history never breaks. */
  lemma {:induction false} HistoryIsUnbroken(s: State, events: seq<Event>, start: Status)
    requires Chain(start, s.doc.history, s.doc.status)
    ensures var d := Run(s, events).doc; Chain(start, d.history, d.status)
    ensures s.doc.history <= Run(s, events).doc.history
  {
    if events != [] {
      HistoryIsUnbroken(s, events[..|events| - 1], start);
      var before, e := Run(s, events[..|events| - 1]), events[|events| - 1];
      var after := Step(before, e);
      assert after.doc.history == before.doc.history
          || after.doc.history[..|before.doc.history|] == before.doc.history;
    }
  }

  /** An unbroken history, entry by entry. */
  lemma {:induction false} ChainLinks(start: Status, history: seq<Change>, end: Status)
    requires Chain(start, history, end)
    ensures history == [] ==> start == end
    ensures history != [] ==> history[0].from == start && history[|history| - 1].to == end
    ensures forall i | 0 < i < |history| :: history[i].from == history[i - 1].to
    ensures forall i | 0 <= i < |history| :: history[i].from != history[i].to
  {
    if history != [] {
      ChainLinks(start, history[..|history| - 1], history[|history| - 1].from);
    }
  }

  /** Event `i` of the run is a write whose request read the status that is still there. */
  predicate Accepted(s: State, events: seq<Event>, i: nat)
    requires i < |events|
  {
    var before := Run(s, events[..i]);
    events[i].Write? && events[i].request in before.seen && before.seen[events[i].request] == before.doc.status
  }

  /** The entries owed to the accepted writes of a run: one for each that names another status. */
  function Owed(s: State, events: seq<Event>): seq<Change> {
    if events == [] then []
    else
      var n := |events| - 1;
      var status := Run(s, events[..n]).doc.status;
      Owed(s, events[..n])
      + if Accepted(s, events, n) && events[n].wanted != status then [Change(status, events[n].wanted)] else []
  }

  /** One event: an accepted write sets the status and adds its entry, anything else changes nothing. */
  lemma StepWritesWhatIsAsked(s: State, events: seq<Event>)
    requires events != []
    ensures var n := |events| - 1;
      var before, after := Run(s, events[..n]).doc, Run(s, events).doc;
      if !Accepted(s, events, n) then after == before
      else
        && after.status == events[n].wanted
        && after.history == before.history
          + if before.status == events[n].wanted then [] else [Change(before.status, events[n].wanted)]
  {
  }

  lemma {:induction false} AcceptedInPrefix(s: State, events: seq<Event>, n: nat, i: nat)
    requires i < n <= |events|
    ensures Accepted(s, events[..n], i) <==> Accepted(s, events, i)
  {
    assert events[..n][..i] == events[..i];
  }

  lemma {:induction false} QuietEventsKeepStatus(s: State, events: seq<Event>, n: nat)
    requires n <= |events|
    requires forall i | n <= i < |events| :: !Accepted(s, events, i)
    ensures Run(s, events).doc == Run(s, events[..n]).doc
  {
    hide Run, Accepted;
    if n == |events| {
      assert events[..n] == events;
    } else {
      var last := |events| - 1;
      assert events[..last][..n] == events[..n];
      forall i | n <= i < last
        ensures !Accepted(s, events[..last], i)
      {
        AcceptedInPrefix(s, events, last, i);
      }
      QuietEventsKeepStatus(s, events[..last], n);
      StepWritesWhatIsAsked(s, events);
    }
  }

  lemma LastWrite(s: State, events: seq<Event>, i: nat)
    requires i < |events| && Accepted(s, events, i)
    requires forall j | i < j < |events| :: !Accepted(s, events, j)
    ensures Run(s, events).doc.status == events[i].wanted
  {
    hide Run;
    QuietEventsKeepStatus(s, events, i + 1);
    AcceptedInPrefix(s, events, i + 1, i);
    assert events[..i + 1][..i] == events[..i];
    StepWritesWhatIsAsked(s, events[..i + 1]);
  }

  /** In every run the status is the one asked for by the last accepted write, or the first one. */
  lemma LastAcceptedWriteDecides(s: State, events: seq<Event>)
    ensures (forall i | 0 <= i < |events| :: !Accepted(s, events, i)) ==> Run(s, events).doc == s.doc
    ensures forall i | 0 <= i < |events| && Accepted(s, events, i)
      && (forall j | i < j < |events| :: !Accepted(s, events, j)) :: Run(s, events).doc.status == events[i].wanted
  {
    if forall i | 0 <= i < |events| :: !Accepted(s, events, i) {
      QuietEventsKeepStatus(s, events, 0);
    }
    forall i | 0 <= i < |events| && Accepted(s, events, i) && (forall j | i < j < |events| :: !Accepted(s, events, j))
      ensures Run(s, events).doc.status == events[i].wanted
    {
      LastWrite(s, events, i);
    }
  }

  /** The history has grown by the entries owed to accepted writes, in order, and by nothing else. */
  lemma {:induction false} HistoryGrowsAsOwed(s: State, events: seq<Event>)
    ensures Run(s, events).doc.history == s.doc.history + Owed(s, events)
  {
    if events != [] {
      HistoryGrowsAsOwed(s, events[..|events| - 1]);
      StepWritesWhatIsAsked(s, events);
    }
  }

  /** What a request has read stays with it until it reads again or writes. */
  lemma {:induction false} ReadIsKept(s: State, events: seq<Event>, i: nat, j: nat)
    requires i < j <= |events| && events[i].Read?
    requires forall k | i < k < j :: events[k].request != events[i].request
    ensures var seen := Run(s, events[..j]).seen;
      events[i].request in seen && seen[events[i].request] == Run(s, events[..i]).doc.status
    decreases j
  {
    assert events[..j][..j - 1] == events[..j - 1];
    if j > i + 1 {
      ReadIsKept(s, events, i, j - 1);
    }
  }

  /** A write is accepted exactly when the status is again, or still, what its request read. */
  lemma AcceptedExactlyWhen(s: State, events: seq<Event>, i: nat, j: nat)
    requires i < j < |events| && events[i].Read? && events[j].Write? && events[j].request == events[i].request
    requires forall k | i < k < j :: events[k].request != events[i].request
    ensures Accepted(s, events, j) <==> Run(s, events[..i]).doc.status == Run(s, events[..j]).doc.status
  {
    hide Run;
    ReadIsKept(s, events, i, j);
  }
}
