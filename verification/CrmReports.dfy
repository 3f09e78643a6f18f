/**
 The leads-over-time chart: leads bucketed by Mountain calendar day, every day of the range listed
 unless the range is wide. Day keys are the dates they spell; their text order is calendar order.
 */
module CrmReports {
  import Sorting
  import opened Text
  import opened Gregorian
  import opened LocalTime
  import Dashboard = AppointmentDashboard

  const MAX_ZERO_FILLED_DAYS: int := 180

  datatype DayCount = DayCount(date: Date, count: nat)

  /** When a lead was created; none if its date does not parse. */
  type CreatedAt = Option<int>

  function MdtDayKey(z: Zone, t: int): Date {
    DateOfDay(DayOf(z, t))
  }

  // ----- What is counted

  predicate FallsOn(z: Zone, lead: CreatedAt, key: Date) {
    lead.Some? && MdtDayKey(z, lead.value) == key
  }

  /** How many of the leads were created on the given day. */
  function CountOn(z: Zone, leads: seq<CreatedAt>, key: Date): nat {
    if leads == [] then 0
    else CountOn(z, leads[..|leads| - 1], key) + (if FallsOn(z, leads[|leads| - 1], key) then 1 else 0)
  }

  /** How many of the leads carry a date at all. */
  function Dated(leads: seq<CreatedAt>): nat {
    if leads == [] then 0
    else Dated(leads[..|leads| - 1]) + (if leads[|leads| - 1].Some? then 1 else 0)
  }

  function Total(series: seq<DayCount>): nat {
    if series == [] then 0 else Total(series[..|series| - 1]) + series[|series| - 1].count
  }

  ghost predicate InRange(leads: seq<CreatedAt>, from: int, to: int) {
    forall i | 0 <= i < |leads| :: leads[i].Some? ==> from <= leads[i].value <= to
  }

  // ----- The Map: entries in the order their keys were first set

  predicate DistinctDates(m: seq<DayCount>) {
    forall i, j | 0 <= i < j < |m| :: m[i].date != m[j].date
  }

  function Get(m: seq<DayCount>, key: Date): nat {
    if m == [] then 0
    else if m[|m| - 1].date == key then m[|m| - 1].count
    else Get(m[..|m| - 1], key)
  }

  function Set(m: seq<DayCount>, key: Date, count: nat): seq<DayCount> {
    if m == [] then [DayCount(key, count)]
    else if m[|m| - 1].date == key then m[..|m| - 1] + [DayCount(key, count)]
    else Set(m[..|m| - 1], key, count) + [m[|m| - 1]]
  }

  lemma SetSteps(m: seq<DayCount>, key: Date, count: nat)
    requires m != []
    ensures var r, init, last := Set(m, key, count), m[..|m| - 1], m[|m| - 1];
      && r != []
      && (last.date == key ==> r[..|r| - 1] == init && r[|r| - 1] == DayCount(key, count))
      && (last.date != key ==> r[..|r| - 1] == Set(init, key, count) && r[|r| - 1] == last)
  {
  }

  lemma {:induction false} SetThenGet(m: seq<DayCount>, key: Date, count: nat, other: Date)
    ensures Get(Set(m, key, count), other) == if other == key then count else Get(m, other)
  {
    if m != [] {
      SetSteps(m, key, count);
      SetThenGet(m[..|m| - 1], key, count, other);
      hide Set;
    }
  }

  lemma {:induction false} SetMovesTotal(m: seq<DayCount>, key: Date, count: nat)
    requires Get(m, key) <= count
    ensures Total(Set(m, key, count)) == Total(m) - Get(m, key) + count
  {
    if m != [] {
      SetSteps(m, key, count);
      if m[|m| - 1].date != key {
        SetMovesTotal(m[..|m| - 1], key, count);
      }
      hide Set;
    } else {
      assert [DayCount(key, count)][..0] == [];
    }
  }

  lemma {:induction false} SetKeepsDates(m: seq<DayCount>, key: Date, count: nat)
    requires DistinctDates(m)
    ensures DistinctDates(Set(m, key, count))
    ensures forall x | x in Set(m, key, count) :: x.date == key || exists y :: y in m && y.date == x.date
  {
    if m != [] {
      var init, last := m[..|m| - 1], m[|m| - 1];
      var r := Set(m, key, count);
      SetSteps(m, key, count);
      SetKeepsDates(init, key, count);
      assert r == r[..|r| - 1] + [r[|r| - 1]];
      assert forall y | y in init :: y in m && (last.date != y.date);
      hide Set;
    }
  }

  lemma SetKeepsMap(m: seq<DayCount>, key: Date, count: nat, other: Date)
    requires DistinctDates(m) && Get(m, key) <= count
    ensures DistinctDates(Set(m, key, count))
    ensures Get(Set(m, key, count), other) == if other == key then count else Get(m, other)
    ensures Total(Set(m, key, count)) == Total(m) - Get(m, key) + count
  {
    hide *;
    SetKeepsDates(m, key, count);
    SetThenGet(m, key, count, other);
    SetMovesTotal(m, key, count);
  }

  lemma {:induction false} GetFinds(m: seq<DayCount>, i: nat)
    requires DistinctDates(m) && i < |m|
    ensures Get(m, m[i].date) == m[i].count
  {
    if i < |m| - 1 {
      GetFinds(m[..|m| - 1], i);
    }
  }

  lemma {:induction false} GetMisses(m: seq<DayCount>, key: Date)
    requires Get(m, key) > 0
    ensures exists i | 0 <= i < |m| :: m[i] == DayCount(key, Get(m, key))
  {
    if m[|m| - 1].date != key {
      GetMisses(m[..|m| - 1], key);
    }
  }

  // ----- Sorting by date

  const DATED_FIRST: (DayCount, DayCount) -> bool := (a: DayCount, b: DayCount) => Earlier(a.date, b.date)

  function SortByDate(m: seq<DayCount>): seq<DayCount> {
    Sorting.Sort(m, DATED_FIRST)
  }

  predicate Ascending(s: seq<DayCount>) {
    forall i, j | 0 <= i < j < |s| :: Earlier(s[i].date, s[j].date)
  }

  lemma {:induction false} InsertKeepsTotal(e: DayCount, s: seq<DayCount>)
    ensures Total(Sorting.Insert(e, s, DATED_FIRST)) == Total(s) + e.count
  {
    var r := Sorting.Insert(e, s, DATED_FIRST);
    if s == [] || !DATED_FIRST(e, s[|s| - 1]) {
      assert r[..|r| - 1] == s;
    } else {
      InsertKeepsTotal(e, s[..|s| - 1]);
      assert r[..|r| - 1] == Sorting.Insert(e, s[..|s| - 1], DATED_FIRST);
    }
  }

  lemma {:induction false} SortKeepsTotal(m: seq<DayCount>)
    ensures Total(SortByDate(m)) == Total(m)
  {
    if m != [] {
      SortKeepsTotal(m[..|m| - 1]);
      InsertKeepsTotal(m[|m| - 1], SortByDate(m[..|m| - 1]));
    }
  }

  lemma OneEntryPerDate(m: seq<DayCount>, a: DayCount, b: DayCount)
    requires DistinctDates(m) && a in m && b in m && a.date == b.date
    ensures a == b
  {
  }

  lemma FoundOnce(m: seq<DayCount>, a: DayCount)
    requires DistinctDates(m) && a in m
    ensures multiset(m)[a] == 1
  {
    var k :| 0 <= k < |m| && m[k] == a;
    assert m == m[..k] + [a] + m[k + 1..];
    assert a !in m[..k] && a !in m[k + 1..];
  }

  lemma DatesStayDistinct(m: seq<DayCount>, s: seq<DayCount>, i: nat, j: nat)
    requires DistinctDates(m) && multiset(s) == multiset(m) && i < j < |s|
    ensures s[i].date != s[j].date
  {
    Sorting.SameMembers(s, m);
    hide DistinctDates;
    if s[i].date == s[j].date {
      OneEntryPerDate(m, s[i], s[j]);
      Sorting.FoundTwice(s, i, j);
      FoundOnce(m, s[i]);
    }
  }

  lemma SortingKeepsEntries(m: seq<DayCount>)
    requires DistinctDates(m)
    ensures Ascending(SortByDate(m))
    ensures multiset(SortByDate(m)) == multiset(m)
    ensures Total(SortByDate(m)) == Total(m)
  {
    SortKeepsTotal(m);
    Sorting.SortSorts(m, DATED_FIRST);
    var s := SortByDate(m);
    hide SortByDate, DistinctDates, Total;
    forall i, j | 0 <= i < j < |s| ensures Earlier(s[i].date, s[j].date) {
      assert !DATED_FIRST(s[j], s[i]);
      DatesStayDistinct(m, s, i, j);
    }
  }

  // ----- The chart

  function CountedDay(z: Zone, leads: seq<CreatedAt>, day: int): DayCount {
    DayCount(DateOfDay(day), CountOn(z, leads, DateOfDay(day)))
  }

  /** The days from `first` to `last`, each with its count. */
  function ZeroFilled(z: Zone, leads: seq<CreatedAt>, first: int, last: int): seq<DayCount>
    decreases last - first + 1
  {
    if last < first then [] else ZeroFilled(z, leads, first, last - 1) + [CountedDay(z, leads, last)]
  }

  /** Every day of the range is listed once, in order, with its true count. */
  lemma {:induction false} ZeroFilledListsEveryDay(z: Zone, leads: seq<CreatedAt>, first: int, last: int)
    requires first <= last + 1
    ensures var s := ZeroFilled(z, leads, first, last);
      |s| == last - first + 1 && forall i | 0 <= i < |s| :: s[i] == CountedDay(z, leads, first + i)
    decreases last - first + 1
  {
    hide CountedDay;
    if first <= last {
      ZeroFilledListsEveryDay(z, leads, first, last - 1);
    }
  }

  /** Only the days with leads, in order, each with its true count. */
  ghost predicate ActiveDays(z: Zone, leads: seq<CreatedAt>, series: seq<DayCount>) {
    && Ascending(series)
    && (forall i | 0 <= i < |series| :: series[i].count == CountOn(z, leads, series[i].date) > 0)
    && (forall key :: CountOn(z, leads, key) > 0 ==> DayCount(key, CountOn(z, leads, key)) in series)
  }

  predicate AllPositive(m: seq<DayCount>) {
    forall i | 0 <= i < |m| :: m[i].count > 0
  }

  ghost predicate Counted(z: Zone, leads: seq<CreatedAt>, m: seq<DayCount>) {
    && DistinctDates(m)
    && (forall key :: Get(m, key) == CountOn(z, leads, key))
    && AllPositive(m)
    && Total(m) == Dated(leads)
  }

  lemma NothingFilled(z: Zone, leads: seq<CreatedAt>, first: int)
    ensures ZeroFilled(z, leads, first, first - 1) == []
  {
  }

  lemma OneMoreFilled(z: Zone, leads: seq<CreatedAt>, m: seq<DayCount>, first: int, last: int)
    requires Counted(z, leads, m) && first <= last
    ensures var key := DateOfDay(last);
      ZeroFilled(z, leads, first, last) == ZeroFilled(z, leads, first, last - 1) + [DayCount(key, Get(m, key))]
  {
    hide DateOfDay, Get, CountOn, DistinctDates, AllPositive, Total, Dated;
  }

  lemma {:induction false} SetKeepsPositive(m: seq<DayCount>, key: Date, count: nat)
    requires AllPositive(m) && count > 0
    ensures AllPositive(Set(m, key, count))
  {
    if m != [] {
      var r := Set(m, key, count);
      SetSteps(m, key, count);
      SetKeepsPositive(m[..|m| - 1], key, count);
      assert r == r[..|r| - 1] + [r[|r| - 1]];
      hide Set;
    }
  }

  lemma CountStep(z: Zone, leads: seq<CreatedAt>, lead: CreatedAt, key: Date)
    ensures CountOn(z, leads + [lead], key) == CountOn(z, leads, key) + (if FallsOn(z, lead, key) then 1 else 0)
  {
    hide FallsOn;
    assert (leads + [lead])[..|leads|] == leads;
  }

  lemma DatedStep(leads: seq<CreatedAt>, lead: CreatedAt)
    ensures Dated(leads + [lead]) == Dated(leads) + (if lead.Some? then 1 else 0)
  {
    assert (leads + [lead])[..|leads|] == leads;
  }

  lemma CountOneMore(z: Zone, leads: seq<CreatedAt>, m: seq<DayCount>, lead: CreatedAt)
    requires Counted(z, leads, m)
    ensures lead.None? ==> Counted(z, leads + [lead], m)
    ensures lead.Some? ==>
      var key := MdtDayKey(z, lead.value);
      Counted(z, leads + [lead], Set(m, key, Get(m, key) + 1))
  {
    hide DateOfDay, Set, Get, DayOf, CountOn, Total, Dated, DistinctDates, AllPositive;
    DatedStep(leads, lead);
    if lead.Some? {
      var key := MdtDayKey(z, lead.value);
      var r := Set(m, key, Get(m, key) + 1);
      forall other ensures Get(r, other) == CountOn(z, leads + [lead], other) {
        SetKeepsMap(m, key, Get(m, key) + 1, other);
        CountStep(z, leads, lead, other);
      }
      SetKeepsMap(m, key, Get(m, key) + 1, key);
      SetKeepsPositive(m, key, Get(m, key) + 1);
    } else {
      forall other ensures Get(m, other) == CountOn(z, leads + [lead], other) {
        CountStep(z, leads, lead, other);
      }
    }
  }

  /** The first loop: one bucket a day, leads without a date skipped. */
  method CountByDay(z: Zone, leads: seq<CreatedAt>) returns (countsByDay: seq<DayCount>)
    ensures Counted(z, leads, countsByDay)
  {
    hide DateOfDay, Set, DayOf;
    countsByDay := [];
    for i := 0 to |leads|
      invariant Counted(z, leads[..i], countsByDay)
    {
      assert leads[..i + 1] == leads[..i] + [leads[i]];
      CountOneMore(z, leads[..i], countsByDay, leads[i]);
      if leads[i].Some? {
        var key := MdtDayKey(z, leads[i].value);
        countsByDay := Set(countsByDay, key, Get(countsByDay, key) + 1);
      }
    }
    assert leads[..|leads|] == leads;
  }

  /** The second loop: every day of the span, with the bucket found for it. */
  method ListDays(z: Zone, leads: seq<CreatedAt>, countsByDay: seq<DayCount>, startDay: int, spanDays: nat)
    returns (days: seq<DayCount>)
    requires Counted(z, leads, countsByDay)
    ensures days == ZeroFilled(z, leads, startDay, startDay + spanDays - 1)
  {
    hide *;
    days := [];
    NothingFilled(z, leads, startDay);
    for offset := 0 to spanDays
      invariant days == ZeroFilled(z, leads, startDay, startDay + offset - 1)
    {
      OneMoreFilled(z, leads, countsByDay, startDay, startDay + offset);
      var key := DateOfDay(startDay + offset);
      days := days + [DayCount(key, Get(countsByDay, key))];
    }
  }

  lemma SortedMapIsActiveDays(z: Zone, leads: seq<CreatedAt>, m: seq<DayCount>)
    requires Counted(z, leads, m)
    ensures ActiveDays(z, leads, SortByDate(m))
    ensures Total(SortByDate(m)) == Total(m)
  {
    hide CountOn, SortByDate;
    SortingKeepsEntries(m);
    var s := SortByDate(m);
    forall i | 0 <= i < |s| ensures s[i].count == CountOn(z, leads, s[i].date) > 0 {
      assert s[i] in multiset(m);
      var j :| 0 <= j < |m| && m[j] == s[i];
      GetFinds(m, j);
    }
    forall key | CountOn(z, leads, key) > 0 ensures DayCount(key, CountOn(z, leads, key)) in s {
      GetMisses(m, key);
      assert DayCount(key, CountOn(z, leads, key)) in multiset(m);
    }
  }

  lemma AppendTotal(s: seq<DayCount>, e: DayCount)
    ensures Total(s + [e]) == Total(s) + e.count
  {
    assert (s + [e])[..|s|] == s;
  }

  lemma {:induction false} NothingToCount(z: Zone, first: int, last: int)
    ensures Total(ZeroFilled(z, [], first, last)) == 0
    decreases last - first + 1
  {
    hide DateOfDay;
    if first <= last {
      NothingToCount(z, first, last - 1);
      AppendTotal(ZeroFilled(z, [], first, last - 1), DayCount(DateOfDay(last), 0));
    }
  }

  lemma {:induction false} OneLeadOneDay(z: Zone, leads: seq<CreatedAt>, first: int, last: int)
    requires leads != []
    ensures var lead := leads[|leads| - 1];
      Total(ZeroFilled(z, leads, first, last)) == Total(ZeroFilled(z, leads[..|leads| - 1], first, last))
        + (if lead.Some? && first <= DayOf(z, lead.value) <= last then 1 else 0)
    decreases last - first + 1
  {
    hide DateOfDay, DayOf, Total;
    var init, lead := leads[..|leads| - 1], leads[|leads| - 1];
    if last < first {
      assert ZeroFilled(z, leads, first, last) == ZeroFilled(z, init, first, last) == [];
    } else {
      var key := DateOfDay(last);
      OneLeadOneDay(z, leads, first, last - 1);
      AppendTotal(ZeroFilled(z, leads, first, last - 1), DayCount(key, CountOn(z, leads, key)));
      AppendTotal(ZeroFilled(z, init, first, last - 1), DayCount(key, CountOn(z, init, key)));
      if lead.Some? {
        DatesAreDays(DayOf(z, lead.value), last);
      }
    }
  }

  /** The days of the range hold every dated lead created in it, whatever the clock did in between. */
  lemma {:induction false} ZeroFilledTotal(z: Zone, leads: seq<CreatedAt>, from: int, to: int)
    requires Mountain(z) && from <= to && InRange(leads, from, to)
    ensures DayOf(z, from) <= DayOf(z, to)
    ensures Total(ZeroFilled(z, leads, DayOf(z, from), DayOf(z, to))) == Dated(leads)
  {
    hide DateOfDay;
    DaysAscend(z, from, to);
    var first, last := DayOf(z, from), DayOf(z, to);
    if leads == [] {
      NothingToCount(z, first, last);
    } else {
      var init, lead := leads[..|leads| - 1], leads[|leads| - 1];
      ZeroFilledTotal(z, init, from, to);
      if lead.Some? {
        DaysAscend(z, from, lead.value);
        DaysAscend(z, lead.value, to);
      }
      OneLeadOneDay(z, leads, first, last);
    }
  }

  method BuildLeadsOverTime(z: Zone, leads: seq<CreatedAt>, from: int, to: int) returns (series: seq<DayCount>)
    requires Mountain(z) && from <= to
    requires DayOf(z, from) >= Dashboard.YEAR_100
    ensures DayOf(z, to) - DayOf(z, from) < MAX_ZERO_FILLED_DAYS ==>
      series == ZeroFilled(z, leads, DayOf(z, from), DayOf(z, to))
    ensures DayOf(z, to) - DayOf(z, from) >= MAX_ZERO_FILLED_DAYS ==> ActiveDays(z, leads, series)
    ensures InRange(leads, from, to) ==> Total(series) == Dated(leads)
  {
    hide DateOfDay, DayNumber, ValidDate, Dashboard.RequestedDay, DayOf;
    hide SortByDate, InRange, ActiveDays, Total, Dated, CountOn, ZeroFilled;
    var countsByDay := CountByDay(z, leads);
    assert Total(countsByDay) == Dated(leads);
    var fromKey, toKey := MdtDayKey(z, from), MdtDayKey(z, to);
    var startDay := Dashboard.RequestedDay(fromKey.year, fromKey.month, fromKey.day);
    var endDay := Dashboard.RequestedDay(toKey.year, toKey.month, toKey.day);
    DaysAscend(z, from, to);
    Dashboard.DateAsRequested(DayOf(z, from));
    Dashboard.DateAsRequested(DayOf(z, to));
    var spanDays := endDay - startDay + 1;
    if 0 < spanDays <= MAX_ZERO_FILLED_DAYS {
      series := ListDays(z, leads, countsByDay, startDay, spanDays);
    } else {
      series := SortByDate(countsByDay);
      SortedMapIsActiveDays(z, leads, countsByDay);
    }
    if InRange(leads, from, to) {
      ZeroFilledTotal(z, leads, from, to);
    }
  }
}
