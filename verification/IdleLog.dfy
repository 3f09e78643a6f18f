/**
 The idle log of a time sheet: the gaps of more than ten minutes that activity and breaks leave in a
 session. The controller clips, sorts, merges and sweeps; the gaps it reports are exactly the
 maximal free stretches of the session.
 */
module IdleLog {
  import opened Text
  import opened Gregorian
  import opened LocalTime
  import opened ShiftLog
  import opened TimeLogEngine
  import opened Sorting
  import Dashboard = AppointmentDashboard
  import opened TimeSheetDays
  import TimeSheet

  const MIN_GAP: int := 600_000

  // ----- Free stretches

  /** The same test that selects what belongs to a session. */
  predicate Meets(a: Span, lo: int, hi: int) {
    a.start < hi && a.end > lo
  }

  predicate Free(spans: seq<Span>, lo: int, hi: int) {
    forall i | 0 <= i < |spans| :: !Meets(spans[i], lo, hi)
  }

  predicate Within(session: Span, p: Span) {
    session.start <= p.start <= p.end <= session.end
  }

  predicate Long(p: Span) {
    p.end - p.start > MIN_GAP
  }

  /** Free, long enough, and in no larger free stretch of the session. */
  ghost predicate MaximalFree(session: Span, spans: seq<Span>, p: Span) {
    && Within(session, p) && Long(p) && Free(spans, p.start, p.end)
    && forall q: Span |
         Within(session, q) && q.start <= p.start && p.end <= q.end && Free(spans, q.start, q.end) :: q == p
  }

  // ----- Clipping

  function Clip(session: Span, a: Span): Span {
    Span(Max(a.start, session.start), Min(a.end, session.end))
  }

  /** What meets the session, clipped to it. */
  function Clipped(session: Span, spans: seq<Span>): seq<Span> {
    if spans == [] then []
    else
      var last := spans[|spans| - 1];
      Clipped(session, spans[..|spans| - 1])
      + (if Meets(last, session.start, session.end) then [Clip(session, last)] else [])
  }

  const STARTS_EARLIER: (Span, Span) -> bool := (a: Span, b: Span) => a.start < b.start

  /** In order of their starts. */
  predicate Ordered(spans: seq<Span>) {
    Sorting.Ordered(spans, STARTS_EARLIER)
  }

  predicate AllWithin(session: Span, spans: seq<Span>) {
    forall i | 0 <= i < |spans| :: Within(session, spans[i])
  }

  lemma FreeOfMore(spans: seq<Span>, a: Span, lo: int, hi: int)
    ensures Free(spans + [a], lo, hi) <==> Free(spans, lo, hi) && !Meets(a, lo, hi)
  {
    var more := spans + [a];
    assert more[|spans|] == a;
    assert forall i | 0 <= i < |spans| :: more[i] == spans[i];
  }

  /** Clipping keeps what is free inside the session. */
  lemma {:induction false} ClippingKeepsFree(session: Span, spans: seq<Span>, lo: int, hi: int)
    requires session.start <= lo < hi <= session.end
    ensures Free(Clipped(session, spans), lo, hi) <==> Free(spans, lo, hi)
  {
    if spans != [] {
      var front, last := spans[..|spans| - 1], spans[|spans| - 1];
      ClippingKeepsFree(session, front, lo, hi);
      FreeOfMore(front, last, lo, hi);
      FreeOfMore(Clipped(session, front), Clip(session, last), lo, hi);
      assert spans == front + [last];
      assert Clipped(session, front) + [] == Clipped(session, front);
      hide Free;
    }
  }

  lemma {:induction false} ClippedIsWithin(session: Span, spans: seq<Span>)
    requires Forward(spans) && session.start <= session.end
    ensures AllWithin(session, Clipped(session, spans))
  {
    if spans != [] {
      ClippedIsWithin(session, spans[..|spans| - 1]);
    }
  }

  lemma WithinOfMore(session: Span, spans: seq<Span>, a: Span)
    ensures AllWithin(session, spans + [a]) <==> AllWithin(session, spans) && Within(session, a)
  {
    var more := spans + [a];
    assert more[|spans|] == a;
    assert forall i | 0 <= i < |spans| :: more[i] == spans[i];
  }

  lemma FreeByMember(spans: seq<Span>, lo: int, hi: int)
    ensures Free(spans, lo, hi) <==> forall a | a in spans :: !Meets(a, lo, hi)
  {
    forall i | 0 <= i < |spans|
      ensures spans[i] in spans
    {
    }
  }

  /** The order of the spans does not matter to what is free. */
  lemma SameSpansSameFree(a: seq<Span>, b: seq<Span>, lo: int, hi: int)
    requires multiset(a) == multiset(b)
    ensures Free(a, lo, hi) <==> Free(b, lo, hi)
  {
    SameMembers(a, b);
    FreeByMember(a, lo, hi);
    FreeByMember(b, lo, hi);
    hide Free, Meets;
  }

  lemma SameSpansWithin(session: Span, a: seq<Span>, b: seq<Span>)
    requires multiset(a) == multiset(b) && AllWithin(session, a)
    ensures AllWithin(session, b)
  {
    SameMembers(a, b);
    forall i | 0 <= i < |b|
      ensures Within(session, b[i])
    {
      assert b[i] in a;
    }
  }

  // ----- Merging

  /** What the merge keeps: the same stretches are free. */
  ghost predicate SameFree(a: seq<Span>, b: seq<Span>) {
    forall lo, hi | lo < hi :: Free(a, lo, hi) <==> Free(b, lo, hi)
  }

  lemma NothingMerged(session: Span)
    ensures Ordered([]) && AllWithin(session, []) && SameFree([], [])
  {
  }

  lemma InOrder(session: Span, occupied: seq<Span>, i: nat)
    requires Ordered(occupied) && AllWithin(session, occupied) && i < |occupied|
    ensures Within(session, occupied[i])
    ensures i > 0 ==> occupied[i - 1].start <= occupied[i].start
  {
  }

  lemma PushApart(session: Span, merged: seq<Span>, done: seq<Span>, a: Span)
    requires Ordered(merged) && AllWithin(session, merged) && SameFree(merged, done) && Within(session, a)
    requires merged != [] ==> merged[|merged| - 1].start <= a.start
    ensures Ordered(merged + [a]) && AllWithin(session, merged + [a]) && SameFree(merged + [a], done + [a])
  {
    OrderedByLast(merged, a, STARTS_EARLIER);
    WithinOfMore(session, merged, a);
    forall lo, hi | lo < hi
      ensures Free(merged + [a], lo, hi) <==> Free(done + [a], lo, hi)
    {
      FreeOfMore(merged, a, lo, hi);
      FreeOfMore(done, a, lo, hi);
    }
    hide Free, Ordered, AllWithin;
  }

  /** Spans that overlap or touch make one span. */
  lemma MergeLast(session: Span, merged: seq<Span>, done: seq<Span>, a: Span)
    requires Ordered(merged) && AllWithin(session, merged) && SameFree(merged, done) && Within(session, a)
    requires merged != []
    requires merged[|merged| - 1].start <= a.start <= merged[|merged| - 1].end
    ensures var last := merged[|merged| - 1];
      var joined := merged[|merged| - 1 := Span(last.start, Max(last.end, a.end))];
      Ordered(joined) && AllWithin(session, joined) && SameFree(joined, done + [a])
  {
    var front, last := merged[..|merged| - 1], merged[|merged| - 1];
    var wide := Span(last.start, Max(last.end, a.end));
    assert merged == front + [last];
    assert merged[|merged| - 1 := wide] == front + [wide];
    forall lo, hi | lo < hi
      ensures Free(front + [wide], lo, hi) <==> Free(done + [a], lo, hi)
    {
      FreeOfMore(front, last, lo, hi);
      FreeOfMore(front, wide, lo, hi);
      FreeOfMore(done, a, lo, hi);
    }
  }

  method Merge(session: Span, occupied: seq<Span>) returns (merged: seq<Span>)
    requires Ordered(occupied) && AllWithin(session, occupied)
    ensures Ordered(merged) && AllWithin(session, merged)
    ensures SameFree(merged, occupied)
  {
    hide Free, SameFree, Ordered, AllWithin;
    merged := [];
    NothingMerged(session);
    assert occupied[..0] == [];
    for i := 0 to |occupied|
      invariant Ordered(merged) && AllWithin(session, merged)
      invariant SameFree(merged, occupied[..i])
      invariant merged != [] ==> i > 0 && merged[|merged| - 1].start <= occupied[i - 1].start
    {
      var a := occupied[i];
      InOrder(session, occupied, i);
      assert occupied[..i + 1] == occupied[..i] + [a];
      if merged != [] && a.start <= merged[|merged| - 1].end {
        var last := merged[|merged| - 1];
        MergeLast(session, merged, occupied[..i], a);
        merged := merged[|merged| - 1 := Span(last.start, Max(last.end, a.end))];
      } else {
        PushApart(session, merged, occupied[..i], a);
        merged := merged + [a];
      }
    }
    assert occupied[..|occupied|] == occupied;
  }

  // ----- Sweeping

  predicate InGap(gaps: seq<Span>, lo: int, hi: int) {
    exists k | 0 <= k < |gaps| :: gaps[k].start <= lo && hi <= gaps[k].end
  }

  /** Everything long and free up to the cursor is in one of the gaps. */
  ghost predicate Complete(spans: seq<Span>, start: int, cursor: int, gaps: seq<Span>) {
    forall lo, hi | start <= lo && hi <= cursor && hi - lo > MIN_GAP && Free(spans, lo, hi) :: InGap(gaps, lo, hi)
  }

  /** Every gap is long, free, and begins and ends at the session's edge or against a span. */
  ghost predicate Gaps(spans: seq<Span>, start: int, cursor: int, gaps: seq<Span>) {
    && (forall k | 0 <= k < |gaps| :: start <= gaps[k].start && gaps[k].end <= cursor && Long(gaps[k]))
    && (forall k | 0 <= k < |gaps| :: Free(spans, gaps[k].start, gaps[k].end))
    && (forall k | 0 < k < |gaps| :: gaps[k - 1].end <= gaps[k].start)
  }

  /** The cursor stands at the start, or at the end of a span already passed, and none passed reaches beyond it. */
  predicate Passed(spans: seq<Span>, start: int, i: nat, cursor: int)
    requires i <= |spans|
  {
    && (forall j | 0 <= j < i :: spans[j].end <= cursor)
    && (cursor == start || exists j | 0 <= j < i :: spans[j].end == cursor)
  }

  lemma AtStart(spans: seq<Span>, start: int)
    ensures Passed(spans, start, 0, start) && Gaps(spans, start, start, []) && Complete(spans, start, start, [])
  {
  }

  lemma PassOne(spans: seq<Span>, start: int, i: nat, cursor: int)
    requires i < |spans| && Passed(spans, start, i, cursor)
    ensures Passed(spans, start, i + 1, Max(cursor, spans[i].end))
  {
    if spans[i].end <= cursor {
      if cursor != start {
        var j :| 0 <= j < i && spans[j].end == cursor;
        assert 0 <= j < i + 1;
      }
    }
  }

  /** From the cursor to the next span, everything is free. */
  lemma FreeUpTo(spans: seq<Span>, start: int, i: nat, cursor: int, end: int)
    requires i <= |spans| && Passed(spans, start, i, cursor)
    requires forall j | i <= j < |spans| :: end <= spans[j].start
    ensures Free(spans, cursor, end)
  {
  }

  /** A free stretch that begins before the cursor ends there at the latest. */
  lemma NoStraddling(spans: seq<Span>, start: int, i: nat, cursor: int, lo: int, hi: int)
    requires i <= |spans| && Passed(spans, start, i, cursor) && Forward(spans)
    requires start <= lo < cursor && Free(spans, lo, hi)
    ensures hi <= cursor
  {
    var j :| 0 <= j < i && spans[j].end == cursor;
    assert !Meets(spans[j], lo, hi);
  }

  lemma OneMoreGap(spans: seq<Span>, start: int, cursor: int, gaps: seq<Span>, end: int, later: int)
    requires Gaps(spans, start, cursor, gaps) && start <= cursor <= later && end <= later
    requires Free(spans, cursor, end)
    ensures Gaps(spans, start, later, if end > cursor + MIN_GAP then gaps + [Span(cursor, end)] else gaps)
  {
    hide Free;
    var more := gaps + [Span(cursor, end)];
    assert forall k | 0 <= k < |gaps| :: more[k] == gaps[k];
  }

  lemma InMoreGaps(gaps: seq<Span>, p: Span, lo: int, hi: int)
    ensures InGap(gaps + [p], lo, hi) <==> InGap(gaps, lo, hi) || (p.start <= lo && hi <= p.end)
  {
    var more := gaps + [p];
    assert more[|gaps|] == p;
    assert forall k | 0 <= k < |gaps| :: more[k] == gaps[k];
  }

  lemma Advance(session: Span, spans: seq<Span>, i: nat, cursor: int, gaps: seq<Span>)
    requires Ordered(spans) && AllWithin(session, spans) && i < |spans| && session.start <= cursor <= session.end
    requires Passed(spans, session.start, i, cursor)
    requires Gaps(spans, session.start, cursor, gaps) && Complete(spans, session.start, cursor, gaps)
    ensures var more := if spans[i].start > cursor + MIN_GAP then gaps + [Span(cursor, spans[i].start)] else gaps;
      var next := Max(cursor, spans[i].end);
      && Passed(spans, session.start, i + 1, next)
      && Gaps(spans, session.start, next, more)
      && Complete(spans, session.start, next, more)
  {
    var next := Max(cursor, spans[i].end);
    PassOne(spans, session.start, i, cursor);
    FreeUpTo(spans, session.start, i, cursor, spans[i].start);
    OneMoreGap(spans, session.start, cursor, gaps, spans[i].start, next);
    forall lo, hi | session.start <= lo && hi <= next && hi - lo > MIN_GAP && Free(spans, lo, hi)
      ensures InGap(if spans[i].start > cursor + MIN_GAP then gaps + [Span(cursor, spans[i].start)] else gaps, lo, hi)
    {
      InMoreGaps(gaps, Span(cursor, spans[i].start), lo, hi);
      if lo < cursor {
        NoStraddling(spans, session.start, i, cursor, lo, hi);
      } else {
        assert !Meets(spans[i], lo, hi);
      }
    }
    hide Free, InGap, Gaps, Passed, Ordered, AllWithin;
  }

  lemma Finish(session: Span, spans: seq<Span>, cursor: int, gaps: seq<Span>)
    requires AllWithin(session, spans) && session.start <= cursor <= session.end
    requires Passed(spans, session.start, |spans|, cursor)
    requires Gaps(spans, session.start, cursor, gaps) && Complete(spans, session.start, cursor, gaps)
    ensures var more := if session.end > cursor + MIN_GAP then gaps + [Span(cursor, session.end)] else gaps;
      Gaps(spans, session.start, session.end, more) && Complete(spans, session.start, session.end, more)
  {
    FreeUpTo(spans, session.start, |spans|, cursor, session.end);
    OneMoreGap(spans, session.start, cursor, gaps, session.end, session.end);
    forall lo, hi | session.start <= lo && hi <= session.end && hi - lo > MIN_GAP && Free(spans, lo, hi)
      ensures InGap(if session.end > cursor + MIN_GAP then gaps + [Span(cursor, session.end)] else gaps, lo, hi)
    {
      InMoreGaps(gaps, Span(cursor, session.end), lo, hi);
      if lo < cursor {
        NoStraddling(spans, session.start, |spans|, cursor, lo, hi);
      }
    }
    hide Free, InGap, Gaps, Passed, AllWithin;
  }

  method Sweep(session: Span, merged: seq<Span>) returns (gaps: seq<Span>)
    requires session.start <= session.end && Ordered(merged) && AllWithin(session, merged)
    ensures Gaps(merged, session.start, session.end, gaps)
    ensures Complete(merged, session.start, session.end, gaps)
  {
    hide Ordered, AllWithin, Gaps, Complete, Passed;
    gaps := [];
    var cursor := session.start;
    AtStart(merged, session.start);
    for i := 0 to |merged|
      invariant session.start <= cursor <= session.end
      invariant Passed(merged, session.start, i, cursor)
      invariant Gaps(merged, session.start, cursor, gaps) && Complete(merged, session.start, cursor, gaps)
    {
      InOrder(session, merged, i);
      Advance(session, merged, i, cursor, gaps);
      if merged[i].start > cursor + MIN_GAP {
        gaps := gaps + [Span(cursor, merged[i].start)];
      }
      cursor := Max(cursor, merged[i].end);
    }
    Finish(session, merged, cursor, gaps);
    if session.end > cursor + MIN_GAP {
      gaps := gaps + [Span(cursor, session.end)];
    }
  }

  // ----- The gaps are the maximal free stretches

  lemma GapIsLongAndFree(session: Span, spans: seq<Span>, gaps: seq<Span>, k: nat)
    requires k < |gaps| && Gaps(spans, session.start, session.end, gaps)
    ensures Within(session, gaps[k]) && Long(gaps[k]) && Free(spans, gaps[k].start, gaps[k].end)
  {
    hide Free;
  }

  lemma LongIsInGap(session: Span, spans: seq<Span>, gaps: seq<Span>, q: Span)
    requires Complete(spans, session.start, session.end, gaps)
    requires Within(session, q) && Long(q) && Free(spans, q.start, q.end)
    ensures InGap(gaps, q.start, q.end)
  {
    hide Free, InGap;
  }

  lemma {:induction false} GapsAscend(spans: seq<Span>, start: int, end: int, gaps: seq<Span>, j: nat, k: nat)
    requires Gaps(spans, start, end, gaps) && j < k < |gaps|
    ensures gaps[j].end <= gaps[k].start
  {
    hide Free;
    if j + 1 < k {
      GapsAscend(spans, start, end, gaps, j, k - 1);
      assert Long(gaps[k - 1]);
    }
  }

  /** Gaps do not meet, so one that holds another is the same. */
  lemma OneGap(spans: seq<Span>, start: int, end: int, gaps: seq<Span>, j: nat, k: nat)
    requires Gaps(spans, start, end, gaps) && j < |gaps| && k < |gaps|
    requires gaps[j].start <= gaps[k].start && gaps[k].end <= gaps[j].end
    ensures j == k
  {
    hide Free;
    if j < k {
      GapsAscend(spans, start, end, gaps, j, k);
    } else if k < j {
      GapsAscend(spans, start, end, gaps, k, j);
    }
  }

  lemma InOneGap(session: Span, spans: seq<Span>, gaps: seq<Span>, q: Span, k: nat)
    requires k < |gaps|
    requires Gaps(spans, session.start, session.end, gaps) && Complete(spans, session.start, session.end, gaps)
    requires Within(session, q) && q.start <= gaps[k].start && gaps[k].end <= q.end && Free(spans, q.start, q.end)
    ensures q == gaps[k]
  {
    hide Free, Gaps, Complete;
    GapIsLongAndFree(session, spans, gaps, k);
    LongIsInGap(session, spans, gaps, q);
    var j :| 0 <= j < |gaps| && gaps[j].start <= q.start && q.end <= gaps[j].end;
    OneGap(spans, session.start, session.end, gaps, j, k);
  }

  lemma GapIsMaximal(session: Span, spans: seq<Span>, gaps: seq<Span>, k: nat)
    requires k < |gaps|
    requires Gaps(spans, session.start, session.end, gaps) && Complete(spans, session.start, session.end, gaps)
    ensures MaximalFree(session, spans, gaps[k])
  {
    hide Free;
    var p := gaps[k];
    forall q: Span | Within(session, q) && q.start <= p.start && p.end <= q.end && Free(spans, q.start, q.end)
      ensures q == p
    {
      InOneGap(session, spans, gaps, q, k);
    }
    hide Complete;
    GapIsLongAndFree(session, spans, gaps, k);
    hide Gaps;
  }

  lemma MaximalIsGap(session: Span, spans: seq<Span>, gaps: seq<Span>, p: Span)
    requires Gaps(spans, session.start, session.end, gaps) && Complete(spans, session.start, session.end, gaps)
    requires MaximalFree(session, spans, p)
    ensures p in gaps
  {
    hide Free, Gaps, Complete;
    LongIsInGap(session, spans, gaps, p);
    var k :| 0 <= k < |gaps| && gaps[k].start <= p.start && p.end <= gaps[k].end;
    GapIsLongAndFree(session, spans, gaps, k);
    assert gaps[k] == p;
  }

  lemma GapsAreMaximal(session: Span, spans: seq<Span>, gaps: seq<Span>, p: Span)
    requires session.start <= session.end
    requires Gaps(spans, session.start, session.end, gaps) && Complete(spans, session.start, session.end, gaps)
    ensures p in gaps <==> MaximalFree(session, spans, p)
  {
    hide Gaps, Complete, MaximalFree;
    if p in gaps {
      var k :| 0 <= k < |gaps| && gaps[k] == p;
      GapIsMaximal(session, spans, gaps, k);
    }
    if MaximalFree(session, spans, p) {
      MaximalIsGap(session, spans, gaps, p);
    }
  }

  /** What is maximal depends only on which stretches are free. */
  lemma SameFreeSameMaximal(session: Span, a: seq<Span>, b: seq<Span>, p: Span)
    requires forall lo, hi | session.start <= lo < hi <= session.end :: Free(a, lo, hi) <==> Free(b, lo, hi)
    ensures MaximalFree(session, a, p) <==> MaximalFree(session, b, p)
  {
    hide Free;
    if Within(session, p) && Long(p) {
      forall q: Span | Within(session, q) && q.start <= p.start && p.end <= q.end
        ensures Free(a, q.start, q.end) <==> Free(b, q.start, q.end)
      {
      }
    }
  }

  // ----- One session

  lemma FreeOfBoth(a: seq<Span>, b: seq<Span>, lo: int, hi: int)
    ensures Free(a + b, lo, hi) <==> Free(a, lo, hi) && Free(b, lo, hi)
  {
    var both := a + b;
    assert forall i | 0 <= i < |a| :: both[i] == a[i];
    assert forall i | 0 <= i < |b| :: both[|a| + i] == b[i];
  }

  lemma OccupiedKeepsFree(session: Span, activity: seq<Span>, breaks: seq<Span>, occupied: seq<Span>, lo: int, hi: int)
    requires multiset(occupied) == multiset(Clipped(session, activity) + Clipped(session, breaks))
    requires session.start <= lo < hi <= session.end
    ensures Free(occupied, lo, hi) <==> Free(activity + breaks, lo, hi)
  {
    hide Free, Clipped;
    SameSpansSameFree(occupied, Clipped(session, activity) + Clipped(session, breaks), lo, hi);
    FreeOfBoth(Clipped(session, activity), Clipped(session, breaks), lo, hi);
    FreeOfBoth(activity, breaks, lo, hi);
    ClippingKeepsFree(session, activity, lo, hi);
    ClippingKeepsFree(session, breaks, lo, hi);
  }

  lemma BothWithin(session: Span, a: seq<Span>, b: seq<Span>)
    requires AllWithin(session, a) && AllWithin(session, b)
    ensures AllWithin(session, a + b)
  {
  }

  /** Some activity was recorded in the session; without any there is nothing to tell idleness from. */
  predicate Tracked(session: Span, activity: seq<Span>) {
    exists i | 0 <= i < |activity| :: Meets(activity[i], session.start, session.end)
  }

  lemma {:induction false} TrackedMeansClipped(session: Span, activity: seq<Span>)
    ensures Clipped(session, activity) != [] <==> Tracked(session, activity)
  {
    if activity != [] {
      var front := activity[..|activity| - 1];
      TrackedMeansClipped(session, front);
      if Tracked(session, front) {
        var i :| 0 <= i < |front| && Meets(front[i], session.start, session.end);
        assert Meets(activity[i], session.start, session.end);
      }
      if Tracked(session, activity) {
        var i :| 0 <= i < |activity| && Meets(activity[i], session.start, session.end);
        assert i < |front| ==> Meets(front[i], session.start, session.end);
      }
    }
  }

  /** One after another, each within the session. */
  predicate Apart(session: Span, gaps: seq<Span>) {
    && (forall k | 0 <= k < |gaps| :: session.start <= gaps[k].start < gaps[k].end <= session.end)
    && (forall k | 0 < k < |gaps| :: gaps[k - 1].end <= gaps[k].start)
  }

  lemma NothingIsApart(session: Span)
    ensures Apart(session, [])
  {
  }

  lemma GapsAreApart(session: Span, spans: seq<Span>, gaps: seq<Span>)
    requires Gaps(spans, session.start, session.end, gaps)
    ensures Apart(session, gaps)
  {
    hide Free;
  }

  lemma SortedIsOrdered(spans: seq<Span>)
    requires Sorting.Ordered(spans, STARTS_EARLIER)
    ensures Ordered(spans)
  {
  }

  lemma MergedKeepsMaximal(
    session: Span, activity: seq<Span>, breaks: seq<Span>, sorted: seq<Span>, merged: seq<Span>, p: Span)
    requires multiset(sorted) == multiset(Clipped(session, activity) + Clipped(session, breaks))
    requires SameFree(merged, sorted)
    ensures MaximalFree(session, merged, p) <==> MaximalFree(session, activity + breaks, p)
  {
    hide Free, Clipped, MaximalFree;
    forall lo, hi | session.start <= lo < hi <= session.end
      ensures Free(merged, lo, hi) <==> Free(activity + breaks, lo, hi)
    {
      OccupiedKeepsFree(session, activity, breaks, sorted, lo, hi);
    }
    SameFreeSameMaximal(session, merged, activity + breaks, p);
  }

  /** The gaps of one session are exactly its maximal free stretches, if it was tracked at all. */
  method SessionGaps(session: Span, activity: seq<Span>, breaks: seq<Span>) returns (gaps: seq<Span>)
    requires session.start <= session.end && Forward(activity) && Forward(breaks)
    ensures forall p :: p in gaps <==> Tracked(session, activity) && MaximalFree(session, activity + breaks, p)
    ensures Apart(session, gaps)
  {
    hide Apart, Free, Clipped, MaximalFree, Gaps, Complete, SameFree, Forward, AllWithin, Ordered, Tracked;
    TrackedMeansClipped(session, activity);
    if Clipped(session, activity) == [] {
      NothingIsApart(session);
      return [];
    }
    var occupied := Clipped(session, activity) + Clipped(session, breaks);
    ClippedIsWithin(session, activity);
    ClippedIsWithin(session, breaks);
    BothWithin(session, Clipped(session, activity), Clipped(session, breaks));
    SortSorts(occupied, STARTS_EARLIER);
    var sorted := Sort(occupied, STARTS_EARLIER);
    SameSpansWithin(session, occupied, sorted);
    assert Ordered(sorted) by { SortedIsOrdered(sorted); }
    var merged := Merge(session, sorted);
    gaps := Sweep(session, merged);
    GapsAreApart(session, merged, gaps);
    forall p ensures p in gaps <==> MaximalFree(session, activity + breaks, p) {
      GapsAreMaximal(session, merged, gaps, p);
      MergedKeepsMaximal(session, activity, breaks, sorted, merged, p);
    }
  }

  // ----- The whole log

  datatype IdlePeriod = IdlePeriod(day: int, idleStart: int, idleEnd: Option<int>, seconds: int)

  /** A gap that reaches the end of the running session is still going on. */
  function PeriodOf(z: Zone, session: Span, running: bool, gap: Span): IdlePeriod {
    IdlePeriod(DayOf(z, gap.start), gap.start, if running && gap.end == session.end then None else Some(gap.end),
               (gap.end - gap.start) / SECOND)
  }

  function PeriodsOf(z: Zone, session: Span, running: bool, gaps: seq<Span>): seq<IdlePeriod> {
    seq(|gaps|, k requires 0 <= k < |gaps| => PeriodOf(z, session, running, gaps[k]))
  }

  const NEWER: (IdlePeriod, IdlePeriod) -> bool := (p: IdlePeriod, q: IdlePeriod) => p.idleStart > q.idleStart

  ghost predicate IdleGap(sessions: seq<Span>, activity: seq<Span>, breaks: seq<Span>, i: nat, gap: Span)
    requires i < |sessions|
  {
    Tracked(sessions[i], activity) && MaximalFree(sessions[i], activity + breaks, gap)
  }

  /** The period describes a gap of one of the first `n` sessions. */
  ghost predicate Reports(
    z: Zone, sessions: seq<Span>, running: bool, activity: seq<Span>, breaks: seq<Span>, n: nat, p: IdlePeriod)
    requires n <= |sessions|
  {
    exists i: nat, gap: Span | i < n && IdleGap(sessions, activity, breaks, i, gap) ::
      p == PeriodOf(z, sessions[i], running && i == |sessions| - 1, gap)
  }

  lemma ReachedGoesForward(log: Log, now: int)
    requires WellFormed(log) && UpTo(log, now)
    ensures Forward(Reached(log, TimeIn, TimeOut, now)) && Forward(Reached(log, BreakIn, BreakOut, now))
  {
    hide Pairs, Parse, InTime;
    TimeSheet.PairsGoForward(log, TimeIn, TimeOut, ON_SHIFT);
    TimeSheet.PairsGoForward(log, BreakIn, BreakOut, ON_BREAK);
    OpenInPhase(log, TimeIn, TimeOut, ON_SHIFT);
    OpenInPhase(log, BreakIn, BreakOut, ON_BREAK);
  }

  method Describe(z: Zone, session: Span, running: bool, gaps: seq<Span>) returns (periods: seq<IdlePeriod>)
    requires Mountain(z) && forall k | 0 <= k < |gaps| :: DayOf(z, gaps[k].start) >= Dashboard.YEAR_100
    ensures periods == PeriodsOf(z, session, running, gaps)
  {
    hide DayOf;
    periods := [];
    for k := 0 to |gaps|
      invariant periods == PeriodsOf(z, session, running, gaps)[..k]
    {
      var day := LocalDay(z, gaps[k].start);
      var idleEnd := if running && gaps[k].end == session.end then None else Some(gaps[k].end);
      periods := periods + [IdlePeriod(day, gaps[k].start, idleEnd, (gaps[k].end - gaps[k].start) / SECOND)];
    }
  }

  /** Sessions follow one another. */
  predicate InSequence(spans: seq<Span>) {
    forall i | 0 < i < |spans| :: spans[i - 1].end <= spans[i].start
  }

  lemma {:induction false} PairsInSequence(log: Log)
    requires WellFormed(log)
    ensures var (done, current) := Pairs(log, TimeIn, TimeOut);
      && InSequence(done)
      && (done != [] ==> log != [] && done[|done| - 1].end <= log[|log| - 1].at)
      && (done != [] && current.Some? ==> done[|done| - 1].end <= current.value)
  {
    if log != [] {
      FrontIsWellFormed(log);
      PairsInSequence(log[..|log| - 1]);
      hide Parse;
    }
  }

  lemma SessionsInSequence(log: Log, now: int)
    requires WellFormed(log)
    ensures InSequence(Reached(log, TimeIn, TimeOut, now))
  {
    PairsInSequence(log);
    hide Pairs, Parse, InTime;
  }

  /** The periods found so far begin one after another, and before `end`. */
  predicate Climbing(periods: seq<IdlePeriod>, end: int) {
    && (forall i, j | 0 <= i < j < |periods| :: periods[i].idleStart < periods[j].idleStart)
    && (forall i | 0 <= i < |periods| :: periods[i].idleStart < end)
  }

  lemma StartOfPeriod(z: Zone, session: Span, running: bool, gaps: seq<Span>, k: nat)
    requires Apart(session, gaps) && k < |gaps|
    ensures PeriodOf(z, session, running, gaps[k]).idleStart == gaps[k].start
    ensures session.start <= gaps[k].start < session.end
  {
  }

  lemma {:induction false} ApartAscends(session: Span, gaps: seq<Span>, j: nat, k: nat)
    requires Apart(session, gaps) && j < k < |gaps|
    ensures gaps[j].start < gaps[k].start
  {
    if j + 1 < k {
      ApartAscends(session, gaps, j, k - 1);
    }
  }

  lemma StillClimbing(z: Zone, found: seq<IdlePeriod>, end: int, session: Span, running: bool, gaps: seq<Span>)
    requires Climbing(found, end) && end <= session.start <= session.end && Apart(session, gaps)
    ensures Climbing(found + PeriodsOf(z, session, running, gaps), session.end)
  {
    hide PeriodOf, Apart;
    var described := PeriodsOf(z, session, running, gaps);
    forall k | 0 <= k < |gaps|
      ensures session.start <= described[k].idleStart < session.end
    {
      StartOfPeriod(z, session, running, gaps, k);
    }
    forall j, k | 0 <= j < k < |gaps|
      ensures described[j].idleStart < described[k].idleStart
    {
      ApartAscends(session, gaps, j, k);
      StartOfPeriod(z, session, running, gaps, j);
      StartOfPeriod(z, session, running, gaps, k);
    }
    hide PeriodsOf;
  }

  lemma OnePeriodPerStart(found: seq<IdlePeriod>, end: int, p: IdlePeriod, q: IdlePeriod)
    requires Climbing(found, end) && p in found && q in found && p.idleStart == q.idleStart
    ensures p == q
  {
  }

  lemma FoundOnce(found: seq<IdlePeriod>, end: int, p: IdlePeriod)
    requires Climbing(found, end) && p in found
    ensures multiset(found)[p] == 1
  {
    var k :| 0 <= k < |found| && found[k] == p;
    assert found == found[..k] + [p] + found[k + 1..];
    assert p !in found[..k] && p !in found[k + 1..];
  }

  /** Sorted, such periods still begin at different times. */
  lemma NewestFirstIsStrict(found: seq<IdlePeriod>, sorted: seq<IdlePeriod>, end: int)
    requires Climbing(found, end) && multiset(sorted) == multiset(found) && Sorting.Ordered(sorted, NEWER)
    ensures forall i, j | 0 <= i < j < |sorted| :: sorted[i].idleStart > sorted[j].idleStart
  {
    SameMembers(sorted, found);
    forall i, j | 0 <= i < j < |sorted| ensures sorted[i].idleStart > sorted[j].idleStart {
      if sorted[i].idleStart == sorted[j].idleStart {
        OnePeriodPerStart(found, end, sorted[i], sorted[j]);
        FoundTwice(sorted, i, j);
        FoundOnce(found, end, sorted[i]);
      }
    }
  }

  lemma NothingReported(
    z: Zone, sessions: seq<Span>, running: bool, activity: seq<Span>, breaks: seq<Span>, p: IdlePeriod)
    ensures !Reports(z, sessions, running, activity, breaks, 0, p)
  {
  }

  lemma GapsAreRecent(z: Zone, session: Span, activity: seq<Span>, breaks: seq<Span>, gaps: seq<Span>)
    requires TwoOffsets(z) && SwitchesAtTwo(z) && DayOf(z, session.start) >= Dashboard.YEAR_100
    requires forall p :: p in gaps <==> Tracked(session, activity) && MaximalFree(session, activity + breaks, p)
    ensures forall k | 0 <= k < |gaps| :: DayOf(z, gaps[k].start) >= Dashboard.YEAR_100
  {
    hide DayOf, Free, Tracked;
    forall k | 0 <= k < |gaps|
      ensures DayOf(z, gaps[k].start) >= Dashboard.YEAR_100
    {
      assert gaps[k] in gaps;
      DaysAscend(z, session.start, gaps[k].start);
    }
  }

  lemma OneMoreSession(
    z: Zone, sessions: seq<Span>, running: bool, activity: seq<Span>, breaks: seq<Span>, i: nat, gaps: seq<Span>,
    p: IdlePeriod)
    requires i < |sessions|
    requires forall g :: g in gaps <==> IdleGap(sessions, activity, breaks, i, g)
    ensures Reports(z, sessions, running, activity, breaks, i + 1, p)
       <==> Reports(z, sessions, running, activity, breaks, i, p)
            || p in PeriodsOf(z, sessions[i], running && i == |sessions| - 1, gaps)
  {
    hide IdleGap;
    var described := PeriodsOf(z, sessions[i], running && i == |sessions| - 1, gaps);
    if p in described {
      var k :| 0 <= k < |described| && described[k] == p;
      assert gaps[k] in gaps;
      assert IdleGap(sessions, activity, breaks, i, gaps[k]);
    }
    if Reports(z, sessions, running, activity, breaks, i + 1, p) {
      var j: nat, gap: Span :| j < i + 1 && IdleGap(sessions, activity, breaks, j, gap)
        && p == PeriodOf(z, sessions[j], running && j == |sessions| - 1, gap);
      if j == i {
        var k :| 0 <= k < |gaps| && gaps[k] == gap;
        assert described[k] == p;
      }
    }
    hide PeriodOf, PeriodsOf;
  }

  lemma NothingClimbs(end: int)
    ensures Climbing([], end)
  {
  }

  /** The loop over the sessions, and the final sort. */
  method PeriodsOfSessions(z: Zone, sessions: seq<Span>, running: bool, activity: seq<Span>, breaks: seq<Span>)
    returns (periods: seq<IdlePeriod>)
    requires Mountain(z) && TimeSheet.Recent(z, sessions)
    requires Forward(sessions) && InSequence(sessions) && Forward(activity) && Forward(breaks)
    ensures forall p :: p in periods <==> Reports(z, sessions, running, activity, breaks, |sessions|, p)
    ensures forall i, j | 0 <= i < j < |periods| :: periods[i].idleStart > periods[j].idleStart
  {
    hide Reports, DayOf, Tracked, MaximalFree, Climbing, Apart, PeriodsOf;
    var found := [];
    ghost var end := if sessions == [] then 0 else sessions[0].start;
    NothingClimbs(end);
    forall p ensures p in found <==> Reports(z, sessions, running, activity, breaks, 0, p) {
      NothingReported(z, sessions, running, activity, breaks, p);
    }
    for i := 0 to |sessions|
      invariant forall p :: p in found <==> Reports(z, sessions, running, activity, breaks, i, p)
      invariant Climbing(found, end)
      invariant i < |sessions| ==> end <= sessions[i].start
    {
      var gaps := SessionGaps(sessions[i], activity, breaks);
      GapsAreRecent(z, sessions[i], activity, breaks, gaps);
      var described := Describe(z, sessions[i], running && i == |sessions| - 1, gaps);
      forall p
        ensures p in found + described <==> Reports(z, sessions, running, activity, breaks, i + 1, p)
      {
        OneMoreSession(z, sessions, running, activity, breaks, i, gaps, p);
      }
      StillClimbing(z, found, end, sessions[i], running && i == |sessions| - 1, gaps);
      found := found + described;
      end := sessions[i].end;
    }
    SortSorts(found, NEWER);
    periods := Sort(found, NEWER);
    SameMembers(periods, found);
    NewestFirstIsStrict(found, periods, end);
  }

  /**
   The log lists, strictly newest first and so none twice, exactly the maximal stretches of more
   than ten minutes in which a tracked session has neither activity nor a break.
   */
  method BuildIdleLog(z: Zone, log: Log, activity: seq<Span>, now: int) returns (periods: seq<IdlePeriod>)
    requires Mountain(z) && WellFormed(log) && UpTo(log, now) && Forward(activity)
    requires TimeSheet.Recent(z, Reached(log, TimeIn, TimeOut, now))
    ensures var sessions := Reached(log, TimeIn, TimeOut, now);
      forall p :: p in periods <==>
        Reports(z, sessions, OnShiftWalk(log), activity, Reached(log, BreakIn, BreakOut, now), |sessions|, p)
    ensures forall i, j | 0 <= i < j < |periods| :: periods[i].idleStart > periods[j].idleStart
  {
    hide Reached, Parse, InTime, UpTo, Pairs, OnShiftWalk, DayOf;
    var sessions, breaks := Reached(log, TimeIn, TimeOut, now), Reached(log, BreakIn, BreakOut, now);
    ReachedGoesForward(log, now);
    SessionsInSequence(log, now);
    periods := PeriodsOfSessions(z, sessions, OnShiftWalk(log), activity, breaks);
  }
}
