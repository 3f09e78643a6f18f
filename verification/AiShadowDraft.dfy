/**
 The shadow-draft usage report: the most recent local days of an organization, found by sampling
 the clock every twelve hours. The organization may be in any zone with two offsets one hour apart,
 whenever its clocks change, midnight included.
 */
module AiShadowDraft {
  import opened Gregorian
  import opened LocalTime
  import opened Text

  const HALF_DAY: int := 12 * HOUR

  /** The key of the usage day of `t`: its local date. */
  function UsageDay(z: Zone, t: int): Date {
    DateOfDay(DayOf(z, t))
  }

  /** The local day at sample number `k`. */
  function SampledDay(z: Zone, now: int, k: int): int {
    DayOf(z, now - k * HALF_DAY)
  }

  /** Twelve hours back is the same local day or the one before. */
  lemma SampleStep(z: Zone, now: int, k: int)
    requires TwoOffsets(z)
    ensures SampledDay(z, now, k) - 1 <= SampledDay(z, now, k + 1) <= SampledDay(z, now, k)
  {
    var a, b := Wall(z, now - k * HALF_DAY), Wall(z, now - (k + 1) * HALF_DAY);
    assert a - 13 * HOUR <= b <= a - 11 * HOUR;
  }

  /** After `2n + 3` samples at least `n + 1` local days have gone by. */
  lemma SamplesReachBack(z: Zone, now: int, n: int)
    requires TwoOffsets(z)
    ensures SampledDay(z, now, 2 * n + 3) <= DayOf(z, now) - (n + 1)
  {
    assert Wall(z, now - (2 * n + 3) * HALF_DAY) <= Wall(z, now) - (n + 1) * DAY - HALF_DAY + HOUR;
  }

  function DaysBefore(z: Zone, now: int, i: int): Date {
    DateOfDay(DayOf(z, now) - i)
  }

  /** The last `n` local days, newest first. */
  function LastDays(z: Zone, now: int, n: nat): (keys: seq<Date>)
    ensures |keys| == n && forall i | 0 <= i < n :: keys[i] == DaysBefore(z, now, i)
  {
    seq(n, i => DaysBefore(z, now, i))
  }

  /** Where the search stands: `n` days found by the samples before number `k`. */
  ghost predicate Sampled(z: Zone, now: int, days: nat, n: int, k: int) {
    && 0 <= k <= (days + 2) * 2 && 0 <= n <= days
    && (k == 0 <==> n == 0)
    && (k > 0 ==> SampledDay(z, now, k - 1) == DayOf(z, now) - (n - 1))
    && (k == (days + 2) * 2 ==> n == days)
  }

  lemma KnownKey(z: Zone, now: int, n: nat, day: int)
    ensures DateOfDay(day) in LastDays(z, now, n) <==> DayOf(z, now) - n < day <= DayOf(z, now)
  {
    hide DateOfDay;
    var keys := LastDays(z, now, n);
    forall i | 0 <= i < n ensures keys[i] == DateOfDay(day) <==> day == DayOf(z, now) - i {
      DatesAreDays(day, DayOf(z, now) - i);
    }
    if DayOf(z, now) - n < day <= DayOf(z, now) {
      assert keys[DayOf(z, now) - day] == DateOfDay(day);
    }
  }

  lemma NextSample(z: Zone, now: int, days: nat, n: nat, k: int)
    requires TwoOffsets(z)
    requires Sampled(z, now, days, n, k) && n < days && k < (days + 2) * 2
    ensures var key := UsageDay(z, now - k * HALF_DAY);
      if key in LastDays(z, now, n) then Sampled(z, now, days, n, k + 1)
      else Sampled(z, now, days, n + 1, k + 1) && LastDays(z, now, n) + [key] == LastDays(z, now, n + 1)
  {
    hide DateOfDay;
    KnownKey(z, now, n, SampledDay(z, now, k));
    if k > 0 {
      SampleStep(z, now, k - 1);
    }
    if k == 2 * days + 3 {
      SamplesReachBack(z, now, days);
    }
  }

  /**
   The sampled keys are exactly the last `days` local days, each once, newest first; the cap on
   the number of samples is never what ends the search.
   */
  method RecentDayKeys(z: Zone, days: nat, now: int) returns (keys: seq<Date>)
    requires TwoOffsets(z)
    ensures keys == LastDays(z, now, days)
  {
    hide DateOfDay;
    keys := [];
    var offset := 0;
    while |keys| < days && offset < (days + 2) * 2
      invariant keys == LastDays(z, now, |keys|)
      invariant Sampled(z, now, days, |keys|, offset)
    {
      NextSample(z, now, days, |keys|, offset);
      var key := UsageDay(z, now - offset * HALF_DAY);
      if key !in keys {
        keys := keys + [key];
      }
      offset := offset + 1;
    }
  }

  /** The query's lower bound, `days + 1` periods of 24 hours ago, is no later than any instant of a reported day. */
  lemma WindowCoversReportedDays(z: Zone, days: nat, now: int, t: int)
    requires TwoOffsets(z)
    requires UsageDay(z, t) in LastDays(z, now, days)
    ensures now - (days + 1) * DAY <= t
  {
    hide DateOfDay;
    KnownKey(z, now, days, DayOf(z, t));
    assert Wall(z, now) - Wall(z, t) < days * DAY;
  }

  // ----- Statuses and counts

  /** `Interrupted` is only ever shown: it is a draft in progress whose lease has lapsed. */
  datatype Status =
    | Claimed | Generating | Ready | BlockedSafety | NeedsHuman | SkippedCap | SkippedAttention | SkippedTechnical
    | Failed | Interrupted

  const DISPLAY_STATUSES: seq<Status> :=
    [Claimed, Generating, Ready, BlockedSafety, NeedsHuman, SkippedCap, SkippedAttention, SkippedTechnical, Failed,
     Interrupted]
  const IN_PROGRESS: set<Status> := {Claimed, Generating}

  type Stored = s: Status | s != Interrupted witness Claimed

  datatype Draft = Draft(status: Stored, leaseExpiresAt: Option<int>, createdAt: int)

  function DisplayStatus(d: Draft, now: int): Status {
    if d.status in IN_PROGRESS && (d.leaseExpiresAt.None? || d.leaseExpiresAt.value < now) then Interrupted
    else d.status
  }

  /** The database query for one displayed status. */
  datatype Filter = Filter(statuses: set<Status>, lease: Lease)
  datatype Lease = Any | FromNowOn | LapsedOrNone

  function StatusFilter(status: Status): Filter {
    if status == Interrupted then Filter(IN_PROGRESS, LapsedOrNone)
    else if status in IN_PROGRESS then Filter({status}, FromNowOn)
    else Filter({status}, Any)
  }

  predicate Matches(f: Filter, d: Draft, now: int) {
    && d.status in f.statuses
    && match f.lease
       case Any => true
       case FromNowOn => d.leaseExpiresAt.Some? && d.leaseExpiresAt.value >= now
       case LapsedOrNone => d.leaseExpiresAt.None? || d.leaseExpiresAt.value < now
  }

  /** The list filtered by a status is exactly the drafts shown with it. */
  lemma FilterSelectsWhatIsShown(d: Draft, status: Status, now: int)
    ensures Matches(StatusFilter(status), d, now) <==> DisplayStatus(d, now) == status
  {
    assert StatusFilter(Interrupted).statuses == {Claimed, Generating};
  }

  /** One group of the aggregation: what was created from `since` on, that day, shown with that status. */
  function CountGroup(z: Zone, drafts: seq<Draft>, since: int, day: Date, status: Status, now: int): nat {
    if drafts == [] then 0
    else
      var d := drafts[|drafts| - 1];
      CountGroup(z, drafts[..|drafts| - 1], since, day, status, now)
      + (if d.createdAt >= since && UsageDay(z, d.createdAt) == day && DisplayStatus(d, now) == status then 1 else 0)
  }

  /** The day's total is added up over its groups. */
  function SumGroups(z: Zone, drafts: seq<Draft>, since: int, day: Date, now: int, n: nat): nat
    requires n <= |DISPLAY_STATUSES|
  {
    if n == 0 then 0
    else SumGroups(z, drafts, since, day, now, n - 1) + CountGroup(z, drafts, since, day, DISPLAY_STATUSES[n - 1], now)
  }

  function CreatedOn(z: Zone, drafts: seq<Draft>, day: Date): nat {
    if drafts == [] then 0
    else
      var d := drafts[|drafts| - 1];
      CreatedOn(z, drafts[..|drafts| - 1], day) + (if UsageDay(z, d.createdAt) == day then 1 else 0)
  }

  function Position(s: Status): nat {
    match s
    case Claimed => 0
    case Generating => 1
    case Ready => 2
    case BlockedSafety => 3
    case NeedsHuman => 4
    case SkippedCap => 5
    case SkippedAttention => 6
    case SkippedTechnical => 7
    case Failed => 8
    case Interrupted => 9
  }

  lemma PositionIsUnique(s: Status, n: nat)
    requires n < |DISPLAY_STATUSES|
    ensures DISPLAY_STATUSES[n] == s <==> n == Position(s)
  {
  }

  lemma {:induction false} OneMoreDraft(z: Zone, drafts: seq<Draft>, since: int, day: Date, now: int, n: nat)
    requires drafts != [] && n <= |DISPLAY_STATUSES|
    ensures var d := drafts[|drafts| - 1];
      SumGroups(z, drafts, since, day, now, n) == SumGroups(z, drafts[..|drafts| - 1], since, day, now, n)
        + (if d.createdAt >= since && UsageDay(z, d.createdAt) == day && Position(DisplayStatus(d, now)) < n
           then 1 else 0)
  {
    hide UsageDay, DisplayStatus, Position;
    if n > 0 {
      OneMoreDraft(z, drafts, since, day, now, n - 1);
      PositionIsUnique(DisplayStatus(drafts[|drafts| - 1], now), n - 1);
    }
  }

  lemma {:induction false} NoDrafts(z: Zone, since: int, day: Date, now: int, n: nat)
    requires n <= |DISPLAY_STATUSES|
    ensures SumGroups(z, [], since, day, now, n) == 0
  {
    if n > 0 {
      NoDrafts(z, since, day, now, n - 1);
    }
  }

  /** On each reported day the groups add up to every draft created that day: none is cut off, none counted twice. */
  lemma {:induction false} UsageCountsEveryDraft(z: Zone, drafts: seq<Draft>, days: nat, day: Date, now: int)
    requires TwoOffsets(z) && day in LastDays(z, now, days)
    ensures SumGroups(z, drafts, now - (days + 1) * DAY, day, now, |DISPLAY_STATUSES|) == CreatedOn(z, drafts, day)
  {
    hide SumGroups, UsageDay, DisplayStatus;
    var since := now - (days + 1) * DAY;
    if drafts == [] {
      NoDrafts(z, since, day, now, |DISPLAY_STATUSES|);
    } else {
      var d := drafts[|drafts| - 1];
      UsageCountsEveryDraft(z, drafts[..|drafts| - 1], days, day, now);
      OneMoreDraft(z, drafts, since, day, now, |DISPLAY_STATUSES|);
      if UsageDay(z, d.createdAt) == day {
        WindowCoversReportedDays(z, days, now, d.createdAt);
      }
    }
  }
}
