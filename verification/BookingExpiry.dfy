/**
 Claims on booking keys expire: seven days after it was taken, the database removes a claim, recorded or
 not, whatever its request is doing. When that keeps one appointment per key, and what it frees.
 */
module BookingExpiry {
  import opened Text
  import opened PublicBooking

  datatype Happening = Plain(event: Event) | Expire

  function Expired(s: State): State {
    s.(claim := None)
  }

  function Next(s: State, h: Happening): State {
    match h
    case Plain(e) => Step(true, s, e)
    case Expire => Expired(s)
  }

  function After(s: State, happenings: seq<Happening>): State {
    if happenings == [] then s
    else Next(After(s, happenings[..|happenings| - 1]), happenings[|happenings| - 1])
  }

  /** No appointment of the key is alive, and no request is working on it. */
  ghost predicate Quiet(s: State) {
    s.live == {} && forall r :: !Working(s, r)
  }

  /** From here on, however requests overlap or die, at most one appointment is alive. */
  ghost predicate OneFromHere(s: State) {
    forall events :: AtMostOne(Run(true, s, events).live)
  }

  lemma QuietExpiryKeepsInvariant(s: State)
    requires Invariant(s) && Quiet(s)
    ensures Invariant(Expired(s))
  {
    var t := Expired(s);
    assert forall r :: Working(t, r) <==> Working(s, r);
  }

  lemma Continued(s: State, e: Event)
    requires !OneFromHere(Step(true, s, e))
    ensures !OneFromHere(s)
  {
    hide Run, Step;
    var events :| !AtMostOne(Run(true, Step(true, s, e), events).live);
    RunFromFront(s, e, events);
    assert !AtMostOne(Run(true, s, [e] + events).live);
  }

  lemma TwoAlive(s: State, a: nat, b: nat)
    requires a in s.live && b in s.live && a != b
    ensures !OneFromHere(s)
  {
    assert Run(true, s, []) == s;
    assert !AtMostOne(Run(true, s, []).live);
  }

  /** Ids are given once. */
  predicate Numbered(s: State) {
    forall a | a in s.live :: a < s.next
  }

  /** Someone not heard of yet takes the free key and books beside what is alive. */
  lemma NewcomerBooksBeside(s: State, a: nat, r: nat)
    requires s.claim.None? && Numbered(s) && a in s.live && r !in s.stages
    ensures !OneFromHere(s)
  {
    var s1 := Step(true, s, Arrive(r, true));
    var s2 := Step(true, s1, Advance(r, Error));
    TwoAlive(s2, a, s.next);
    Continued(s1, Advance(r, Error));
    Continued(s, Arrive(r, true));
  }

  lemma WorkerBooksNext(s: State, q: nat, a: nat, other: nat)
    requires Numbered(s) && a in s.live && Working(s, q) && Holding(s.stages[q]).None? && other !in s.stages
    ensures !OneFromHere(s)
    decreases Left(s.stages[q])
  {
    var e := Advance(q, Error);
    var t := Step(true, s, e);
    match s.stages[q] {
      case Claimed(intakeOn) =>
        if intakeOn {
          TwoAlive(t, a, s.next);
        } else {
          WorkerBooksNext(t, q, a, other);
        }
      case Legacy => WorkerBooksNext(t, q, a, other);
      case LegacyLead(_) => TwoAlive(t, a, s.next);
      case IntakeFailed => NewcomerBooksBeside(t, a, other);
    }
    Continued(s, e);
  }

  /** A request that still works books beside the newcomer, or frees the key for another. */
  lemma WorkerBooksBeside(s: State, q: nat, r: nat, other: nat)
    requires s.claim.None? && Numbered(s) && s.live == {} && Working(s, q) && Holding(s.stages[q]).None?
    requires r !in s.stages && other !in s.stages && r != other
    ensures !OneFromHere(s)
  {
    var s1 := Step(true, s, Arrive(r, true));
    var s2 := Step(true, s1, Advance(r, Error));
    WorkerBooksNext(s2, q, s.next, other);
    Continued(s1, Advance(r, Error));
    Continued(s, Arrive(r, true));
  }

  lemma {:induction false} Largest(taken: set<nat>) returns (top: nat)
    requires taken != {}
    ensures top in taken && forall x | x in taken :: x <= top
  {
    var x :| x in taken;
    var rest := taken - {x};
    assert taken == rest + {x};
    if rest == {} {
      top := x;
    } else {
      var y := Largest(rest);
      top := if x < y then y else x;
    }
  }

  lemma Fresher(taken: set<nat>) returns (r: nat)
    ensures r !in taken
  {
    if taken == {} {
      r := 0;
    } else {
      var top := Largest(taken);
      r := top + 1;
    }
  }

  lemma SomeoneNew(s: State) returns (r: nat, other: nat)
    ensures r !in s.stages && other !in s.stages && r != other
  {
    r := Fresher(s.stages.Keys);
    other := Fresher(s.stages.Keys + {r});
  }

  /**
   An expiry keeps one appointment per key for all that may follow exactly if it falls on a key with no
   appointment alive and no request working.
   */
  lemma ExpiryIsSafeExactlyWhen(s: State)
    requires Invariant(s) && Numbered(s)
    ensures OneFromHere(Expired(s)) <==> Quiet(s)
  {
    var t := Expired(s);
    if Quiet(s) {
      QuietExpiryKeepsInvariant(s);
      forall events ensures AtMostOne(Run(true, t, events).live) {
        RunKeepsInvariant(t, events);
      }
    } else {
      var r, other := SomeoneNew(s);
      if s.live != {} {
        var a :| a in s.live;
        NewcomerBooksBeside(t, a, r);
      } else {
        var q :| Working(s, q);
        assert Knows(s, s.stages[q]);
        WorkerBooksBeside(t, q, r, other);
      }
    }
  }

  lemma StepKeepsNumbered(s: State, e: Event)
    requires Numbered(s)
    ensures Numbered(Step(true, s, e))
  {
  }

  /** Every expiry of the run falls on a quiet key. */
  ghost predicate QuietExpiries(s: State, happenings: seq<Happening>) {
    happenings != [] ==>
      && QuietExpiries(s, happenings[..|happenings| - 1])
      && (happenings[|happenings| - 1].Expire? ==> Quiet(After(s, happenings[..|happenings| - 1])))
  }

  lemma ExpiredIsNumbered(s: State)
    requires Numbered(s)
    ensures Numbered(Expired(s))
  {
  }

  lemma {:induction false} QuietRunKeepsInvariant(s: State, happenings: seq<Happening>)
    requires Invariant(s) && Numbered(s) && QuietExpiries(s, happenings)
    ensures Invariant(After(s, happenings)) && Numbered(After(s, happenings))
  {
    hide Invariant, Numbered, Step, Expired, Quiet;
    if happenings != [] {
      var before, h := After(s, happenings[..|happenings| - 1]), happenings[|happenings| - 1];
      QuietRunKeepsInvariant(s, happenings[..|happenings| - 1]);
      match h
      case Plain(e) =>
        StepKeepsInvariant(before, e);
        StepKeepsNumbered(before, e);
      case Expire =>
        QuietExpiryKeepsInvariant(before);
        ExpiredIsNumbered(before);
    }
  }

  /**
   Over runs of any length, with claims expiring and keys used again: as long as each expiry falls on a
   quiet key, at most one appointment is alive at any moment and all "booked" answers name it.
   */
  lemma OneAppointmentWithQuietExpiries(happenings: seq<Happening>)
    requires QuietExpiries(INITIAL, happenings)
    ensures var s := After(INITIAL, happenings);
      && AtMostOne(s.live)
      && (forall r | r in s.replies && s.replies[r].Booked? :: s.replies[r].appointment in s.live)
  {
    hide After, QuietExpiries;
    QuietRunKeepsInvariant(INITIAL, happenings);
  }

  lemma InitialIsFine()
    ensures Invariant(INITIAL) && Numbered(INITIAL)
  {
  }

  /** The first expiry that is not quiet opens the way to two appointments. */
  lemma LoudExpiryAllowsTwo(happenings: seq<Happening>)
    requires QuietExpiries(INITIAL, happenings) && !Quiet(After(INITIAL, happenings))
    ensures !OneFromHere(After(INITIAL, happenings + [Expire]))
  {
    hide Invariant, Numbered, Quiet, OneFromHere;
    assert Invariant(INITIAL) && Numbered(INITIAL) by { InitialIsFine(); }
    QuietRunKeepsInvariant(INITIAL, happenings);
    ExpiryIsSafeExactlyWhen(After(INITIAL, happenings));
    assert (happenings + [Expire])[..|happenings|] == happenings;
  }

  /**
   An abandoned key can be booked again once its claim has expired; safely so exactly if the request that
   died had no appointment alive.
   */
  lemma AbandonedKeyIsFreed(s: State, r: nat)
    requires Invariant(s) && Numbered(s) && Abandoned(s) && Unknown(s, r)
    ensures !CanBook(s, r) && CanBook(Expired(s), r)
    ensures OneFromHere(Expired(s)) <==> s.live == {}
  {
    hide CanBook, OneFromHere;
    BookableExactlyWhen(s, r);
    FreeKeyCanBook(Expired(s), r);
    ExpiryIsSafeExactlyWhen(s);
  }
}
