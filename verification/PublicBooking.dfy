/**
 Public test-drive bookings that share one client request key. The first request takes the claim
 for the key and works; the others are answered from the claim. Requests overlap freely, every
 database operation is one atomic step, and a request may die between any two of them. Here the claim
 does not expire.
 */
module PublicBooking {
  import opened Text

  /** The claim document of the key; its fields are filled in when the work is done. */
  datatype Claim = Claim(appointment: Option<nat>, lead: Option<nat>)

  /** What lead intake answers; an accepted inquiry may or may not name a lead. */
  datatype Intake = Accepted(associated: Option<nat>) | Inactive | Error

  datatype Reply = Booked(appointment: nat) | AlreadyProcessing | Failed

  /** How far a request has come. */
  datatype Stage =
    | Claimed(intakeOn: bool)
    | IntakeBooked(appointment: nat)
    | IntakeFailed
    | IntakeAccepted(appointment: nat, associated: Option<nat>)
    | Legacy
    | LegacyLead(lead: nat)
    | LegacyBooked(appointment: nat, lead: nat)
    | Recorded(appointment: nat)
    | Done

  /** `live` are the appointments that exist for the key; `next` numbers new documents. */
  datatype State = State(
    claim: Option<Claim>, live: set<nat>, next: nat, stages: map<nat, Stage>, replies: map<nat, Reply>)

  const INITIAL: State := State(None, {}, 0, map[], map[])

  datatype Event =
    | Arrive(request: nat, intakeOn: bool)
    | Advance(request: nat, intake: Intake)   // `intake` matters only while the request awaits it
    | Die(request: nat)

  // ----- One step

  function Moved(s: State, r: nat, stage: Stage): State {
    s.(stages := s.stages[r := stage])
  }

  function Answered(s: State, r: nat, reply: Reply): State {
    s.(stages := s.stages[r := Done], replies := s.replies[r := reply])
  }

  /** The answer to a request that finds the claim taken. */
  function FromClaim(c: Claim, intakeOn: bool): Reply {
    if c.appointment.Some? && (c.lead.Some? || intakeOn) then Booked(c.appointment.value) else AlreadyProcessing
  }

  /** Updates the claim if there is one. */
  function Record(claim: Option<Claim>, keyed: bool, appointment: nat, lead: Option<nat>): Option<Claim> {
    if keyed && claim.Some? then Some(Claim(Some(appointment), lead)) else claim
  }

  function Work(keyed: bool, s: State, r: nat, intake: Intake): State
    requires r in s.stages
  {
    match s.stages[r]
    case Claimed(true) =>
      Moved(s.(live := s.live + {s.next}, next := s.next + 1), r, IntakeBooked(s.next))
    case Claimed(false) => Moved(s, r, Legacy)
    case IntakeBooked(a) =>
      (match intake
       case Accepted(lead) => Moved(s, r, IntakeAccepted(a, lead))
       case Inactive => Moved(s.(live := s.live - {a}), r, Legacy)
       case Error => Moved(s.(live := s.live - {a}), r, IntakeFailed))
    case IntakeFailed => Answered(if keyed then s.(claim := None) else s, r, Failed)
    case IntakeAccepted(a, lead) => Moved(s.(claim := Record(s.claim, keyed, a, lead)), r, Recorded(a))
    case Legacy => Moved(s.(next := s.next + 1), r, LegacyLead(s.next))
    case LegacyLead(lead) =>
      Moved(s.(live := s.live + {s.next}, next := s.next + 1), r, LegacyBooked(s.next, lead))
    case LegacyBooked(a, lead) => Moved(s.(claim := Record(s.claim, keyed, a, Some(lead))), r, Recorded(a))
    case Recorded(a) => Answered(s, r, Booked(a))
    case Done => s
  }

  /** `keyed` tells whether the requests carry a key at all; without one nothing is claimed. */
  function Step(keyed: bool, s: State, e: Event): State {
    match e
    case Arrive(r, intakeOn) =>
      if r in s.stages then s
      else if !keyed then Moved(s, r, Claimed(intakeOn))
      else if s.claim.None? then Moved(s.(claim := Some(Claim(None, None))), r, Claimed(intakeOn))
      else Answered(s, r, FromClaim(s.claim.value, intakeOn))
    case Advance(r, intake) =>
      if r in s.stages then Work(keyed, s, r, intake) else s
    case Die(r) =>
      if r in s.stages && !s.stages[r].Done? then Answered(s, r, Failed) else s
  }

  function Run(keyed: bool, s: State, events: seq<Event>): State {
    if events == [] then s else Step(keyed, Run(keyed, s, events[..|events| - 1]), events[|events| - 1])
  }

  // ----- The handler, with nothing else going on

  /** Request 0 arrives and then takes `steps` steps. */
  function Alone(keyed: bool, s: State, intakeOn: bool, intake: Intake, steps: nat): State {
    if steps == 0 then Step(keyed, s, Arrive(0, intakeOn))
    else Step(keyed, Alone(keyed, s, intakeOn, intake, steps - 1), Advance(0, intake))
  }

  predicate Answers(end: State, value: State, reply: Reply) {
    && end.claim == value.claim && end.live == value.live && end.next == value.next
    && 0 in end.replies && end.replies[0] == reply && 0 in end.stages && end.stages[0] == Done
  }

  predicate Fresh(s: State, keyed: bool) {
    s.stages == map[] && s.replies == map[] && (keyed ==> s.claim.None?)
  }

  lemma AloneStep(keyed: bool, s: State, intakeOn: bool, intake: Intake, k: nat)
    ensures Alone(keyed, s, intakeOn, intake, k + 1)
         == Step(keyed, Alone(keyed, s, intakeOn, intake, k), Advance(0, intake))
  {
  }

  lemma {:induction false} AnsweredStays(keyed: bool, s: State, intakeOn: bool, intake: Intake, k: nat, n: nat)
    requires k <= n
    requires var t := Alone(keyed, s, intakeOn, intake, k); 0 in t.stages && t.stages[0] == Done
    ensures Alone(keyed, s, intakeOn, intake, n) == Alone(keyed, s, intakeOn, intake, k)
  {
    if k < n {
      AnsweredStays(keyed, s, intakeOn, intake, k, n - 1);
      AloneStep(keyed, s, intakeOn, intake, n - 1);
    }
  }

  lemma TurnedAway(s: State, intakeOn: bool, intake: Intake)
    requires s.stages == map[] && s.claim.Some?
    ensures Answers(Alone(true, s, intakeOn, intake, 6), s, FromClaim(s.claim.value, intakeOn))
  {
    assert Alone(true, s, intakeOn, intake, 0).stages[0] == Done;
    AnsweredStays(true, s, intakeOn, intake, 0, 6);
  }

  lemma Arrived(keyed: bool, s: State, intakeOn: bool, intake: Intake)
    requires Fresh(s, keyed)
    ensures Alone(keyed, s, intakeOn, intake, 0)
         == Moved(if keyed then s.(claim := Some(Claim(None, None))) else s, 0, Claimed(intakeOn))
  {
  }

  lemma IntakeFails(keyed: bool, s: State)
    requires Fresh(s, keyed)
    ensures var end := State(if keyed then None else s.claim, s.live + {s.next} - {s.next}, s.next + 1, map[], map[]);
      Answers(Alone(keyed, s, true, Error, 6), end, Failed)
  {
    hide Alone;
    Arrived(keyed, s, true, Error);
    AloneStep(keyed, s, true, Error, 0);
    AloneStep(keyed, s, true, Error, 1);
    AloneStep(keyed, s, true, Error, 2);
    AnsweredStays(keyed, s, true, Error, 3, 6);
  }

  lemma IntakeAccepts(keyed: bool, s: State, intake: Intake)
    requires Fresh(s, keyed) && intake.Accepted?
    ensures var claim := if keyed then Some(Claim(Some(s.next), intake.associated)) else s.claim;
      Answers(Alone(keyed, s, true, intake, 6),
              State(claim, s.live + {s.next}, s.next + 1, map[], map[]), Booked(s.next))
  {
    hide Alone;
    Arrived(keyed, s, true, intake);
    AloneStep(keyed, s, true, intake, 0);
    AloneStep(keyed, s, true, intake, 1);
    AloneStep(keyed, s, true, intake, 2);
    AloneStep(keyed, s, true, intake, 3);
    AnsweredStays(keyed, s, true, intake, 4, 6);
  }

  lemma BooksWithoutIntake(keyed: bool, s: State, intake: Intake)
    requires Fresh(s, keyed)
    ensures var claim := if keyed then Some(Claim(Some(s.next + 1), Some(s.next))) else s.claim;
      Answers(Alone(keyed, s, false, intake, 6),
              State(claim, s.live + {s.next + 1}, s.next + 2, map[], map[]), Booked(s.next + 1))
  {
    hide Alone;
    Arrived(keyed, s, false, intake);
    AloneStep(keyed, s, false, intake, 0);
    AloneStep(keyed, s, false, intake, 1);
    AloneStep(keyed, s, false, intake, 2);
    AloneStep(keyed, s, false, intake, 3);
    AloneStep(keyed, s, false, intake, 4);
    AnsweredStays(keyed, s, false, intake, 5, 6);
  }

  lemma BooksAfterInactive(keyed: bool, s: State)
    requires Fresh(s, keyed)
    ensures var claim := if keyed then Some(Claim(Some(s.next + 2), Some(s.next + 1))) else s.claim;
      Answers(Alone(keyed, s, true, Inactive, 6),
              State(claim, s.live + {s.next} - {s.next} + {s.next + 2}, s.next + 3, map[], map[]), Booked(s.next + 2))
  {
    hide Alone;
    Arrived(keyed, s, true, Inactive);
    AloneStep(keyed, s, true, Inactive, 0);
    AloneStep(keyed, s, true, Inactive, 1);
    AloneStep(keyed, s, true, Inactive, 2);
    AloneStep(keyed, s, true, Inactive, 3);
    AloneStep(keyed, s, true, Inactive, 4);
    AloneStep(keyed, s, true, Inactive, 5);
  }

  class BookingCollections {
    var claim: Option<Claim>
    var live: set<nat>
    var next: nat

    function Value(): State
      reads this
    {
      State(claim, live, next, map[], map[])
    }

    /** One request from its claim to its answer: the stages above, gone through without interruption. */
    method CreatePublicTestDriveBooking(keyed: bool, intakeOn: bool, intake: Intake) returns (reply: Reply)
      modifies this
      ensures keyed && old(claim).Some? ==>
        && Value() == old(Value())
        && reply == match old(claim).value
                    case Claim(Some(a), Some(_)) => Booked(a)
                    case Claim(Some(a), None) => if intakeOn then Booked(a) else AlreadyProcessing
                    case Claim(None, _) => AlreadyProcessing
      ensures !(keyed && old(claim).Some?) && intakeOn && intake.Error? ==>
        reply == Failed && live == old(live) - {old(next)} && claim == if keyed then None else old(claim)
      ensures !(keyed && old(claim).Some?) && intakeOn && intake.Accepted? ==>
        && reply == Booked(old(next)) && live == old(live) + {old(next)}
        && claim == if keyed then Some(Claim(Some(old(next)), intake.associated)) else old(claim)
      ensures !(keyed && old(claim).Some?) && (intakeOn ==> intake.Inactive?) ==>
        var lead := if intakeOn then old(next) + 1 else old(next);
        && reply == Booked(lead + 1) && next == lead + 2
        && live == (if intakeOn then old(live) - {old(next)} else old(live)) + {lead + 1}
        && claim == if keyed then Some(Claim(Some(lead + 1), Some(lead))) else old(claim)
      ensures Answers(Alone(keyed, old(Value()), intakeOn, intake, 6), Value(), reply)
    {
      hide Alone;
      ghost var before := Value();
      if keyed {
        if claim.Some? {
          reply := FromClaim(claim.value, intakeOn);
          TurnedAway(before, intakeOn, intake);
          return;
        }
        claim := Some(Claim(None, None));
      }
      if intakeOn {
        var bookingAppointment := next;
        live, next := live + {next}, next + 1;
        if intake.Error? {
          live := live - {bookingAppointment};
          if keyed {
            claim := None;
          }
          reply := Failed;
          IntakeFails(keyed, before);
          return;
        }
        if intake.Accepted? {
          if keyed && claim.Some? {
            claim := Some(Claim(Some(bookingAppointment), intake.associated));
          }
          reply := Booked(bookingAppointment);
          IntakeAccepts(keyed, before, intake);
          return;
        }
        live := live - {bookingAppointment};
      }
      var lead := next;
      next := next + 1;
      var appointment := next;
      live, next := live + {next}, next + 1;
      if keyed && claim.Some? {
        claim := Some(Claim(Some(appointment), Some(lead)));
      }
      reply := Booked(appointment);
      if intakeOn {
        BooksAfterInactive(keyed, before);
      } else {
        BooksWithoutIntake(keyed, before, intake);
      }
    }
  }

  // ----- What every reachable state satisfies

  predicate Working(s: State, r: nat) {
    r in s.stages && !s.stages[r].Done?
  }

  predicate AtMostOne(live: set<nat>) {
    forall a, b | a in live && b in live :: a == b
  }

  /** What a working request knows about the shared documents. */
  predicate Knows(s: State, stage: Stage) {
    match stage
    case Claimed(_) => s.live == {} && s.claim == Some(Claim(None, None))
    case IntakeFailed => s.live == {} && s.claim == Some(Claim(None, None))
    case Legacy => s.live == {} && s.claim == Some(Claim(None, None))
    case LegacyLead(_) => s.live == {} && s.claim == Some(Claim(None, None))
    case IntakeBooked(a) => s.live == {a} && s.claim == Some(Claim(None, None))
    case IntakeAccepted(a, _) => s.live == {a} && s.claim == Some(Claim(None, None))
    case LegacyBooked(a, _) => s.live == {a} && s.claim == Some(Claim(None, None))
    case Recorded(a) => s.live == {a} && s.claim.Some? && s.claim.value.appointment == Some(a)
    case Done => true
  }

  ghost predicate Invariant(s: State) {
    && AtMostOne(s.live)
    && (forall q, r | Working(s, q) && Working(s, r) :: q == r)
    && (forall r | Working(s, r) :: Knows(s, s.stages[r]))
    && (s.claim.None? ==> s.live == {})
    && (s.claim.Some? && s.claim.value.appointment.None? ==> s.claim.value.lead.None?)
    && (s.claim.Some? && s.claim.value.appointment.Some? ==> s.live == {s.claim.value.appointment.value})
    && (forall r | r in s.replies && s.replies[r].Booked? ::
          s.claim.Some? && s.claim.value.appointment == Some(s.replies[r].appointment))
  }

  lemma ArrivalKeepsInvariant(s: State, r: nat, intakeOn: bool)
    requires Invariant(s)
    ensures Invariant(Step(true, s, Arrive(r, intakeOn)))
  {
    var t := Step(true, s, Arrive(r, intakeOn));
    forall q | Working(t, q) ensures q == r || Working(s, q) {
      assert q != r ==> (q in s.stages && t.stages[q] == s.stages[q]);
    }
  }

  lemma WorkKeepsInvariant(s: State, r: nat, intake: Intake)
    requires Invariant(s) && Working(s, r)
    ensures Invariant(Work(true, s, r, intake))
  {
    var t := Work(true, s, r, intake);
    assert Knows(s, s.stages[r]);
    forall q | Working(t, q) ensures q == r {
      assert q != r ==> Working(s, q);
    }
  }

  lemma StepKeepsInvariant(s: State, e: Event)
    requires Invariant(s)
    ensures Invariant(Step(true, s, e))
  {
    match e
    case Arrive(r, intakeOn) => ArrivalKeepsInvariant(s, r, intakeOn);
    case Advance(r, intake) =>
      if Working(s, r) {
        WorkKeepsInvariant(s, r, intake);
      }
    case Die(r) =>
      var t := Step(true, s, e);
      assert forall q | Working(t, q) :: q != r && Working(s, q);
  }

  lemma {:induction false} RunKeepsInvariant(s: State, events: seq<Event>)
    requires Invariant(s)
    ensures Invariant(Run(true, s, events))
  {
    if events != [] {
      RunKeepsInvariant(s, events[..|events| - 1]);
      StepKeepsInvariant(Run(true, s, events[..|events| - 1]), events[|events| - 1]);
    }
  }

  /**
   Requests that share a key leave at most one appointment alive at any moment, and every "booked"
   answer names that same appointment, which is still there.
   */
  lemma OneAppointmentPerKey(events: seq<Event>)
    ensures var s := Run(true, INITIAL, events);
      && AtMostOne(s.live)
      && (forall q, r | q in s.replies && r in s.replies && s.replies[q].Booked? && s.replies[r].Booked? ::
            s.replies[q] == s.replies[r])
      && (forall r | r in s.replies && s.replies[r].Booked? :: s.replies[r].appointment in s.live)
  {
    RunKeepsInvariant(INITIAL, events);
  }

  ghost predicate BooksOnce(keyed: bool, events: seq<Event>) {
    AtMostOne(Run(keyed, INITIAL, events).live)
  }

  /** The key is what guarantees it: without one, two requests book twice. */
  lemma OneAppointmentExactlyWhenKeyed(keyed: bool)
    ensures keyed <==> forall events :: BooksOnce(keyed, events)
  {
    if keyed {
      forall events ensures BooksOnce(keyed, events) {
        OneAppointmentPerKey(events);
      }
    } else {
      var s1 := Step(false, INITIAL, Arrive(0, true));
      var s2 := Step(false, s1, Advance(0, Inactive));
      var s3 := Step(false, s2, Arrive(1, true));
      var s4 := Step(false, s3, Advance(1, Inactive));
      var es := [Arrive(0, true), Advance(0, Inactive), Arrive(1, true), Advance(1, Inactive)];
      assert es[..0] == [] && es[..1][..0] == [] && es[..2][..1] == es[..1] && es[..3][..2] == es[..2];
      assert Run(false, INITIAL, es[..0]) == INITIAL;
      assert Run(false, INITIAL, es[..1]) == s1;
      assert Run(false, INITIAL, es[..2]) == s2;
      assert Run(false, INITIAL, es[..3]) == s3;
      assert Run(false, INITIAL, es) == s4;
      assert 0 in s4.live && 1 in s4.live;
      assert !BooksOnce(keyed, es);
    }
  }

  /** A claim whose owner died before recording it: nobody is working, nothing is recorded. */
  ghost predicate Abandoned(s: State) {
    s.claim == Some(Claim(None, None)) && forall r | r in s.stages :: s.stages[r].Done?
  }

  /** Until its claim expires such a key is blocked: later requests are turned away, nothing is booked or removed. */
  lemma {:induction false} AbandonedClaimBlocksKey(s: State, events: seq<Event>)
    requires Abandoned(s)
    ensures var t := Run(true, s, events);
      && Abandoned(t) && t.live == s.live
      && forall r | r in t.replies :: r in s.stages || r in s.replies || t.replies[r] == AlreadyProcessing
  {
    if events != [] {
      AbandonedClaimBlocksKey(s, events[..|events| - 1]);
      var before, e := Run(true, s, events[..|events| - 1]), events[|events| - 1];
      assert e.Advance? && e.request in before.stages ==> before.stages[e.request].Done?;
    }
  }

  // ----- When a key can still be booked

  predicate BooksFor(s: State, events: seq<Event>, r: nat) {
    var t := Run(true, s, events);
    r in t.replies && t.replies[r].Booked?
  }

  ghost predicate CanBook(s: State, r: nat) {
    exists events :: BooksFor(s, events, r)
  }

  predicate Unknown(s: State, r: nat) {
    r !in s.stages && r !in s.replies
  }

  lemma {:induction false} RunFromFront(s: State, e: Event, events: seq<Event>)
    ensures Run(true, s, [e] + events) == Run(true, Step(true, s, e), events)
  {
    hide Step;
    var all := [e] + events;
    if events == [] {
      assert all[..0] == [] && all == [e];
      assert Run(true, s, []) == s;
    } else {
      assert all[..|all| - 1] == [e] + events[..|events| - 1];
      RunFromFront(s, e, events[..|events| - 1]);
    }
  }

  /** What can be booked after one more step can be booked. */
  lemma BooksLater(s: State, e: Event, r: nat)
    requires CanBook(Step(true, s, e), r)
    ensures CanBook(s, r)
  {
    hide Run, Step;
    var events :| BooksFor(Step(true, s, e), events, r);
    RunFromFront(s, e, events);
    assert BooksFor(s, [e] + events, r);
  }

  lemma AnsweredCanBook(s: State, r: nat)
    requires r in s.replies && s.replies[r].Booked?
    ensures CanBook(s, r)
  {
    assert Run(true, s, []) == s;
    assert BooksFor(s, [], r);
  }

  /** With the claim recorded, or none, a new request is answered "booked". */
  lemma FreeKeyCanBook(s: State, r: nat)
    requires Unknown(s, r) && (s.claim.Some? ==> s.claim.value.appointment.Some?)
    ensures CanBook(s, r)
  {
    hide CanBook;
    var accepted := Accepted(None);
    var s0 := Step(true, s, Arrive(r, true));
    if s.claim.Some? {
      AnsweredCanBook(s0, r);
    } else {
      var s1 := Step(true, s0, Advance(r, accepted));
      var s2 := Step(true, s1, Advance(r, accepted));
      var s3 := Step(true, s2, Advance(r, accepted));
      var s4 := Step(true, s3, Advance(r, accepted));
      AnsweredCanBook(s4, r);
      BooksLater(s3, Advance(r, accepted), r);
      BooksLater(s2, Advance(r, accepted), r);
      BooksLater(s1, Advance(r, accepted), r);
      BooksLater(s0, Advance(r, accepted), r);
    }
    BooksLater(s, Arrive(r, true), r);
  }

  /** How many steps a request is from its answer if its inquiry is accepted. */
  function Left(stage: Stage): nat {
    match stage
    case Claimed(intakeOn) => if intakeOn then 4 else 5
    case IntakeBooked(_) => 3
    case IntakeFailed => 1
    case IntakeAccepted(_, _) => 2
    case Legacy => 4
    case LegacyLead(_) => 3
    case LegacyBooked(_, _) => 2
    case Recorded(_) => 1
    case Done => 0
  }

  lemma OneStepOn(s: State, q: nat, r: nat)
    requires Invariant(s) && Working(s, q) && Unknown(s, r)
    ensures var t := Step(true, s, Advance(q, Accepted(None)));
      && Unknown(t, r)
      && (Working(t, q) ==> Left(t.stages[q]) < Left(s.stages[q]))
      && (!Working(t, q) ==> t.claim.Some? ==> t.claim.value.appointment.Some?)
  {
    assert Knows(s, s.stages[q]);
  }

  /** Letting the working request finish frees the key or records the claim. */
  lemma {:induction false} WorkingKeyCanBook(s: State, q: nat, r: nat)
    requires Invariant(s) && Working(s, q) && Unknown(s, r)
    ensures CanBook(s, r)
    decreases Left(s.stages[q])
  {
    hide CanBook;
    var e := Advance(q, Accepted(None));
    var t := Step(true, s, e);
    WorkKeepsInvariant(s, q, Accepted(None));
    OneStepOn(s, q, r);
    hide Step, Work, Invariant;
    if Working(t, q) {
      WorkingKeyCanBook(t, q, r);
    } else {
      FreeKeyCanBook(t, r);
    }
    BooksLater(s, e, r);
  }

  /** A request not heard of yet can still be answered "booked" exactly if the key is not abandoned. */
  lemma BookableExactlyWhen(s: State, r: nat)
    requires Invariant(s) && Unknown(s, r)
    ensures CanBook(s, r) <==> !Abandoned(s)
  {
    if Abandoned(s) {
      forall events ensures !BooksFor(s, events, r) {
        AbandonedClaimBlocksKey(s, events);
      }
    } else if q :| Working(s, q) {
      WorkingKeyCanBook(s, q, r);
    } else {
      assert forall q | q in s.stages :: !Working(s, q) && s.stages[q].Done?;
      assert s.claim != Some(Claim(None, None));
      FreeKeyCanBook(s, r);
    }
  }

  /** The appointment a request has created and not yet given up or recorded. */
  function Holding(stage: Stage): Option<nat> {
    match stage
    case IntakeBooked(a) => Some(a)
    case IntakeAccepted(a, _) => Some(a)
    case LegacyBooked(a, _) => Some(a)
    case Recorded(a) => Some(a)
    case _ => None
  }

  /** A death abandons the key exactly if it comes before the claim is recorded; an appointment made by then stays. */
  lemma DeathAbandonsExactlyWhen(s: State, r: nat)
    requires Invariant(s) && Working(s, r)
    ensures Abandoned(Step(true, s, Die(r))) <==> !s.stages[r].Recorded?
    ensures Step(true, s, Die(r)).live == match Holding(s.stages[r]) case Some(a) => {a} case None => {}
  {
    assert Knows(s, s.stages[r]);
    var t := Step(true, s, Die(r));
    forall q | q in t.stages ensures t.stages[q].Done? {
      assert Working(s, q) ==> q == r;
    }
  }
}
