/**
 Booking a service slot: the counter is raised by a conditional update before the appointment is
 created and lowered again if creating it fails. Requests overlap; each update is one atomic step.
 */
module ServiceSlots {

  datatype Slot = Slot(maxBookings: nat, currentBookings: int, isBlocked: bool)

  predicate Available(slot: Slot) {
    !slot.isBlocked && slot.currentBookings < slot.maxBookings
  }

  datatype Outcome = Created | SlotTaken | CreationFailed

  class ServiceSlot {
    var maxBookings: nat
    var currentBookings: int
    var isBlocked: bool

    function Value(): Slot
      reads this
    {
      Slot(maxBookings, currentBookings, isBlocked)
    }

    /** `findOneAndUpdate` with the availability filter. */
    method Reserve() returns (reserved: bool)
      modifies this
      ensures reserved <==> !old(isBlocked) && old(currentBookings) < old(maxBookings)
      ensures Value() == if reserved then old(Value()).(currentBookings := old(currentBookings) + 1) else old(Value())
    {
      reserved := !isBlocked && currentBookings < maxBookings;
      if reserved {
        currentBookings := currentBookings + 1;
      }
    }

    method Release()
      modifies this
      ensures Value() == old(Value()).(currentBookings := old(currentBookings) - 1)
    {
      currentBookings := currentBookings - 1;
    }

    /** The handler with nothing else going on: only a created appointment keeps its place. */
    method CreateAppointment(wantsSlot: bool, creationSucceeds: bool) returns (outcome: Outcome)
      modifies this
      ensures outcome == if wantsSlot && (old(isBlocked) || old(currentBookings) >= old(maxBookings)) then SlotTaken
                         else if creationSucceeds then Created else CreationFailed
      ensures Value() == if wantsSlot && outcome == Created
                         then old(Value()).(currentBookings := old(currentBookings) + 1) else old(Value())
    {
      var slotConsumed := false;
      if wantsSlot {
        var reserved := Reserve();
        if !reserved {
          return SlotTaken;
        }
        slotConsumed := true;
      }
      if !creationSucceeds {
        if slotConsumed {
          Release();
        }
        return CreationFailed;
      }
      outcome := Created;
    }
  }

  // ----- Every interleaving

  /** `holding` are the requests between their reservation and its outcome; `lost` counts those that died there. */
  datatype State = State(slot: Slot, holding: set<nat>, committed: nat, lost: nat)

  datatype Event =
    Reserve(request: nat) | Commit(request: nat) | Fail(request: nat) | Die(request: nat) | SetBlocked(blocked: bool)

  function Step(s: State, e: Event): State {
    match e
    case Reserve(r) =>
      if r !in s.holding && Available(s.slot)
      then s.(slot := s.slot.(currentBookings := s.slot.currentBookings + 1), holding := s.holding + {r}) else s
    case Commit(r) =>
      if r in s.holding then s.(holding := s.holding - {r}, committed := s.committed + 1) else s
    case Fail(r) =>
      if r in s.holding
      then s.(slot := s.slot.(currentBookings := s.slot.currentBookings - 1), holding := s.holding - {r}) else s
    case Die(r) =>
      if r in s.holding then s.(holding := s.holding - {r}, lost := s.lost + 1) else s
    case SetBlocked(blocked) => s.(slot := s.slot.(isBlocked := blocked))
  }

  function Run(s: State, events: seq<Event>): State {
    if events == [] then s else Step(Run(s, events[..|events| - 1]), events[|events| - 1])
  }

  function CommitsIn(s: State, events: seq<Event>): nat {
    if events == [] then 0
    else
      var before, e := Run(s, events[..|events| - 1]), events[|events| - 1];
      CommitsIn(s, events[..|events| - 1]) + (if e.Commit? && e.request in before.holding then 1 else 0)
  }

  /** The deaths that left a place taken. */
  function DeathsWhileHolding(s: State, events: seq<Event>): nat {
    if events == [] then 0
    else
      var before, e := Run(s, events[..|events| - 1]), events[|events| - 1];
      DeathsWhileHolding(s, events[..|events| - 1]) + (if e.Die? && e.request in before.holding then 1 else 0)
  }

  predicate Accounted(s: State) {
    && s.slot.currentBookings == s.committed + |s.holding| + s.lost
    && s.slot.currentBookings <= s.slot.maxBookings
  }

  /** A reservation is refused exactly if the slot is blocked or all its places are booked, held or lost. */
  lemma ReservesExactlyWhen(s: State, r: nat)
    requires Accounted(s) && r !in s.holding
    ensures r in Step(s, Reserve(r)).holding
       <==> !s.slot.isBlocked && s.committed + |s.holding| + s.lost < s.slot.maxBookings
  {
  }

  /** Reserving and then committing or failing is what the handler does by itself. */
  lemma AloneIsCreateAppointment(s: State, r: nat)
    requires s.holding == {} && Available(s.slot)
    ensures Step(Step(s, Reserve(r)), Commit(r))
         == s.(slot := s.slot.(currentBookings := s.slot.currentBookings + 1), committed := s.committed + 1)
    ensures Step(Step(s, Reserve(r)), Fail(r)) == s
    ensures Step(Step(s, Reserve(r)), Die(r))
         == s.(slot := s.slot.(currentBookings := s.slot.currentBookings + 1), lost := s.lost + 1)
  {
    assert {r} - {r} == {};
    assert Step(s, Reserve(r)).holding == {r};
  }

  /**
   In every run the counter is exactly the booked places, plus the reservations in flight, plus those
   whose request died while holding one: never negative, never above the maximum.
   */
  lemma {:induction false} CounterIsAccountedFor(s: State, events: seq<Event>)
    requires Accounted(s)
    ensures var t := Run(s, events);
      && Accounted(t)
      && 0 <= t.slot.currentBookings <= t.slot.maxBookings == s.slot.maxBookings
      && t.committed == s.committed + CommitsIn(s, events)
      && t.lost == s.lost + DeathsWhileHolding(s, events)
  {
    if events != [] {
      var init, e := events[..|events| - 1], events[|events| - 1];
      CounterIsAccountedFor(s, init);
      var before := Run(s, init);
      if !e.SetBlocked? && e.request in before.holding {
        assert |before.holding - {e.request}| == |before.holding| - 1;
      }
    }
  }
}
