/**
 Day and month windows of the appointment dashboard: the correction loop that finds a Mountain
 Time midnight, and the ranges built from it.
 */
module AppointmentDashboard {
  import opened Text
  import opened Gregorian
  import opened LocalTime

  datatype Parts = Parts(year: int, month: int, day: int, hour: int, minute: int, second: int)

  datatype Range = Range(start: int, end: int)

  /** 1 January of the year 100, the first day `Date.UTC` does not move into the twentieth century. */
  const YEAR_100: int := DayNumber(Date(100, 1, 1))

  /** `Intl` prints years before 1 by their era, and prints no era here. */
  function PrintedYear(y: int): int {
    if y > 0 then y else 1 - y
  }

  /** What the formatter prints at instant `t`. */
  function FormatToParts(z: Zone, t: int): Parts {
    var d, ms := DateOfDay(DayOf(z, t)), Wall(z, t) % DAY;
    Parts(PrintedYear(d.year), d.month, d.day, ms / HOUR, ms % HOUR / MINUTE, ms % MINUTE / SECOND)
  }

  /** The printed wall clock, read back as universal time. */
  function Represented(z: Zone, t: int): int {
    var p := FormatToParts(z, t);
    Utc(p.year, p.month, p.day, p.hour, p.minute, p.second)
  }

  /** The day a request's year, month and day stand for once `Date.UTC` has read them. */
  function RequestedDay(year: int, month: int, day: int): int {
    MakeDay(FullYear(year), month, day)
  }

  lemma YearReaches100(n: int)
    ensures n >= YEAR_100 <==> DateOfDay(n).year >= 100
  {
    hide DateOfDay, DayNumber;
    var d := DateOfDay(n);
    DayNumbersFollowDates(d, Date(100, 1, 1));
  }

  lemma ClockLosesMilliseconds(ms: int)
    requires 0 <= ms < DAY
    ensures ms / HOUR * HOUR + ms % HOUR / MINUTE * MINUTE + ms % MINUTE / SECOND * SECOND == ms - ms % SECOND
  {
    var minutes := ms % HOUR / MINUTE;
    assert ms % MINUTE == ms % HOUR % MINUTE;
    assert ms % SECOND == ms % MINUTE % SECOND;
  }

  function ReadDate(d: Date): Date {
    Date(FullYear(PrintedYear(d.year)), d.month, d.day)
  }

  function ReadClock(d: Date, ms: int): int
    requires 1 <= d.month <= 12
  {
    DayNumber(d) * DAY + ms - ms % SECOND
  }

  /** Printing and reading back keeps the month, the day and the clock down to the second. */
  lemma ReadBack(z: Zone, t: int)
    ensures var d := DateOfDay(DayOf(z, t));
      Represented(z, t) == ReadClock(ReadDate(d), Wall(z, t) % DAY)
  {
    hide DateOfDay, DayNumber, Wall;
    var d := DateOfDay(DayOf(z, t));
    ClockLosesMilliseconds(Wall(z, t) % DAY);
    NoCarry(FullYear(PrintedYear(d.year)), d.month, d.day);
  }

  /** From the year 100 on, only the milliseconds are lost. */
  lemma RecentClockReadsBack(n: int, w: int)
    requires w / DAY == n >= YEAR_100
    ensures ReadClock(ReadDate(DateOfDay(n)), w % DAY) == w - w % SECOND
  {
    hide DayNumber, DateOfDay;
    YearReaches100(n);
    var r := w % DAY;
    SecondRemainder(w, n * 86_400 + r / SECOND, r % SECOND);
  }

  /** In the ancient past the printed year is positive, so the clock reads back far too late. */
  lemma AncientClockReadsLate(n: int, ms: int)
    requires n < DayFromYear(-1000) && 0 <= ms < DAY
    ensures ReadClock(ReadDate(DateOfDay(n)), ms) >= DayFromYear(1001) * DAY
  {
    hide DayFromYear, DateOfDay;
    var d := DateOfDay(n);
    DayNumbersFollowDates(d, Date(-1000, 1, 1));
    MonthsAscend(d.month, d.month, IsLeap(PrintedYear(d.year)));
    YearsAscend(1001, PrintedYear(d.year));
  }

  /** A day of the year 99 is read back as a day of 1999. */
  lemma Year99ReadsAs1999(d: Date, ms: int)
    requires ValidDate(d) && d.year == 99 && 0 <= ms < DAY
    ensures ReadClock(ReadDate(d), ms) >= DayFromYear(1999) * DAY
  {
    hide DayFromYear, DayNumber;
    var r := ReadDate(d);
    assert r.year == 1999 && ValidDate(r);
    WithinYear(r);
  }

  lemma YearOf100()
    ensures DateOfDay(YEAR_100) == Date(100, 1, 1)
  {
    hide DateOfDay, DayNumber;
    DayRoundTrip(Date(100, 1, 1));
  }

  lemma DayBeforeYear100(d: Date)
    requires ValidDate(d) && DayNumber(d) == YEAR_100 - 1
    ensures d.year == 99
  {
    DayNumbersFollowDates(d, Date(100, 1, 1));
    DayNumbersFollowDates(d, Date(99, 1, 1));
    YearLength(99);
  }

  predicate OffCourse(n: int, guess: int, i: int) {
    if i == 0 then guess == n * DAY else guess < DayFromYear(-1000) * DAY
  }

  lemma AncientIsNotYear100(z: Zone, n: int, guess: int)
    requires Mountain(z) && n == YEAR_100 && OffCourse(n, guess, 4)
    ensures Wall(z, guess) != n * DAY
  {
  }

  /** Where the loop stands before round `i` when it is going to settle. */
  predicate OnCourse(z: Zone, n: int, guess: int, i: int) {
    if i == 0 then guess == n * DAY
    else if i == 1 then guess == n * DAY - z.offset(n * DAY)
    else Wall(z, guess) == n * DAY
  }

  lemma DayAfter(n: int, w: int)
    requires w == -7 * HOUR || w == -6 * HOUR || w == 0 || w == HOUR || w == -HOUR
    ensures (n * DAY + w) % SECOND == 0 && (n * DAY + w) / DAY == if w < 0 then n - 1 else n
  {
    SecondRemainder(n * DAY + w, n * 86_400 + w / SECOND, 0);
    if w < 0 {
      DayQuotient(n * DAY + w, n - 1, w + DAY);
    } else {
      DayQuotient(n * DAY + w, n, w);
    }
  }

  lemma WholeSeconds(z: Zone, n: int, guess: int, i: int)
    requires Mountain(z) && n > YEAR_100
    requires 0 <= i <= 2 && OnCourse(z, n, guess, i)
    ensures Wall(z, guess) % SECOND == 0 && DayOf(z, guess) >= YEAR_100
  {
    var w := Wall(z, guess) - n * DAY;
    assert w == -7 * HOUR || w == -6 * HOUR || w == 0 || w == HOUR || w == -HOUR;
    DayAfter(n, w);
  }

  lemma CorrectionStep(z: Zone, n: int, guess: int, i: int, represented: int)
    requires Mountain(z) && n > YEAR_100
    requires 0 <= i <= 2 && OnCourse(z, n, guess, i)
    requires represented == ReadClock(ReadDate(DateOfDay(DayOf(z, guess))), Wall(z, guess) % DAY)
    ensures represented == Wall(z, guess)
    ensures i < 2 ==> OnCourse(z, n, guess + n * DAY - represented, i + 1)
  {
    hide DayNumber, DateOfDay, ReadClock, ReadDate;
    assert represented == Wall(z, guess) by {
      WholeSeconds(z, n, guess, i);
      RecentClockReadsBack(DayOf(z, guess), Wall(z, guess));
    }
    SteadyAroundMidnight(z, n, n * DAY - z.std - HOUR, n * DAY - z.std);
  }

  lemma DivergingStep(z: Zone, n: int, guess: int, i: int, represented: int)
    requires Mountain(z) && n == YEAR_100
    requires 0 <= i && OffCourse(n, guess, i)
    requires represented == ReadClock(ReadDate(DateOfDay(DayOf(z, guess))), Wall(z, guess) % DAY)
    ensures represented != n * DAY
    ensures OffCourse(n, guess + n * DAY - represented, i + 1)
  {
    hide DateOfDay, ReadClock, ReadDate;
    var m, ms := DayOf(z, guess), Wall(z, guess) % DAY;
    if i == 0 {
      assert m == n - 1 && ms >= 0 by { DayAfter(n, z.offset(guess)); }
      DayBeforeYear100(DateOfDay(m));
      Year99ReadsAs1999(DateOfDay(m), ms);
    } else {
      AncientClockReadsLate(m, ms);
    }
  }

  /**
   The correction loop. After 1 January of the year 100 it settles, with nothing left to correct,
   on the one instant at which the requested day begins; on that day itself it never does.
   */
  method MountainMidnightUtcMs(z: Zone, year: int, month: int, day: int) returns (guess: int)
    requires Mountain(z)
    ensures RequestedDay(year, month, day) > YEAR_100 ==>
      guess == Midnight(z, RequestedDay(year, month, day))
      && Represented(z, guess) == RequestedDay(year, month, day) * DAY
    ensures RequestedDay(year, month, day) == YEAR_100 ==>
      Wall(z, guess) != RequestedDay(year, month, day) * DAY
  {
    hide DateOfDay, DayNumber, Midnight, Represented;
    ghost var n := RequestedDay(year, month, day);
    var desired := Utc(year, month, day, 0, 0, 0);
    assert desired == n * DAY;
    guess := desired;
    for i := 0 to 4
      invariant n > YEAR_100 ==> i <= 2 && OnCourse(z, n, guess, i)
      invariant n == YEAR_100 ==> OffCourse(n, guess, i)
    {
      ReadBack(z, guess);
      var represented := Represented(z, guess);
      if n > YEAR_100 {
        CorrectionStep(z, n, guess, i, represented);
      } else if n == YEAR_100 {
        DivergingStep(z, n, guess, i, represented);
      }
      var correction := desired - represented;
      if correction == 0 {
        break;
      }
      guess := guess + correction;
    }
    if n > YEAR_100 {
      MidnightIsUnique(z, n, guess);
    } else if n == YEAR_100 {
      AncientIsNotYear100(z, n, guess);
    }
  }

  /** The window of local day `n`. */
  function DaySpan(z: Zone, n: int): Range {
    Range(Midnight(z, n), Midnight(z, n + 1) - 1)
  }

  /** The window of a calendar month. */
  function MonthSpan(z: Zone, y: int, m: int): Range
    requires 1 <= m <= 12
  {
    Range(Midnight(z, DayNumber(Date(y, m, 1))), Midnight(z, DayNumber(NextMonth(y, m))) - 1)
  }

  predicate Covers(r: Range, t: int) {
    r.start <= t <= r.end
  }

  /** Asking for a date from the year 100 on means that date. */
  lemma DateAsRequested(n: int)
    requires n >= YEAR_100
    ensures var d := DateOfDay(n); RequestedDay(d.year, d.month, d.day) == n
  {
    hide DateOfDay, DayNumber, MakeDay;
    var d := DateOfDay(n);
    YearReaches100(n);
    NoCarry(d.year, d.month, d.day);
  }

  method DayRangeInMountainTime(z: Zone, year: int, month: int, day: int) returns (r: Range)
    requires Mountain(z)
    ensures RequestedDay(year, month, day) > YEAR_100 ==> r == DaySpan(z, RequestedDay(year, month, day))
  {
    hide DateOfDay, Midnight, Represented;
    var startMs := MountainMidnightUtcMs(z, year, month, day);
    var n := RequestedDay(year, month, day + 1);
    assert n == RequestedDay(year, month, day) + 1;
    var next := DateOfDay(n);
    if n > YEAR_100 {
      DateAsRequested(n);
    }
    var nextStartMs := MountainMidnightUtcMs(z, next.year, next.month, next.day);
    r := Range(startMs, nextStartMs - 1);
  }

  lemma FirstOfNextMonth(y: int, m: int)
    requires 1 <= m <= 12
    ensures MakeDay(y, m, 1) == DayNumber(Date(y, m, 1)) < MakeDay(y, m + 1, 1) == DayNumber(NextMonth(y, m))
    ensures DateOfDay(MakeDay(y, m + 1, 1)) == NextMonth(y, m)
  {
    hide DayNumber, DateOfDay, MakeDay;
    NoCarry(y, m, 1);
    NextMonthCarries(y, m);
    EarlierIsLess(Date(y, m, 1), NextMonth(y, m));
    DayRoundTrip(NextMonth(y, m));
  }

  lemma NextMonthAsRequested(year: int, month: int)
    requires 1 <= month <= 12 && RequestedDay(year, month, 1) > YEAR_100
    ensures RequestedDay(year, month, 1) == DayNumber(Date(FullYear(year), month, 1))
    ensures var next := DateOfDay(RequestedDay(year, month + 1, 1));
      RequestedDay(next.year, next.month, 1) == DayNumber(NextMonth(FullYear(year), month)) > YEAR_100
  {
    hide DateOfDay, DayNumber, MakeDay;
    FirstOfNextMonth(FullYear(year), month);
    DateAsRequested(RequestedDay(year, month + 1, 1));
  }

  method MonthRangeInMountainTime(z: Zone, year: int, month: int) returns (r: Range)
    requires Mountain(z)
    requires 1 <= month <= 12
    ensures RequestedDay(year, month, 1) > YEAR_100 ==> r == MonthSpan(z, FullYear(year), month)
  {
    hide DateOfDay, DayNumber, Midnight, MakeDay, Represented;
    var startMs := MountainMidnightUtcMs(z, year, month, 1);
    var next := DateOfDay(RequestedDay(year, month + 1, 1));
    if RequestedDay(year, month, 1) > YEAR_100 {
      NextMonthAsRequested(year, month);
    }
    var nextStartMs := MountainMidnightUtcMs(z, next.year, next.month, 1);
    r := Range(startMs, nextStartMs - 1);
  }

  /** Every instant lies in the window of exactly one day: its own. */
  lemma DayRangesPartitionTime(z: Zone, n: int, t: int)
    requires Mountain(z)
    ensures Covers(DaySpan(z, n), t) <==> n == DayOf(z, t)
  {
    hide Midnight;
    DayIsInterval(z, n, t);
  }

  /** Windows abut, and a day has 23, 24 or 25 hours: 24 unless its two midnights differ in offset. */
  lemma DayLengths(z: Zone, n: int)
    requires Mountain(z)
    ensures DaySpan(z, n).end + 1 == DaySpan(z, n + 1).start
    ensures var length := DaySpan(z, n).end + 1 - DaySpan(z, n).start;
      length == 24 * HOUR + z.offset(Midnight(z, n)) - z.offset(Midnight(z, n + 1))
      && (length == 23 * HOUR || length == 24 * HOUR || length == 25 * HOUR)
  {
    MidnightIsUnique(z, n, Midnight(z, n));
    MidnightIsUnique(z, n + 1, Midnight(z, n + 1));
  }

  /** A month's window covers exactly the instants whose local date is in that month. */
  lemma MonthIsUnionOfDays(z: Zone, y: int, m: int, t: int)
    requires Mountain(z)
    requires 1 <= m <= 12
    ensures Covers(MonthSpan(z, y, m), t)
            <==> DateOfDay(DayOf(z, t)).year == y && DateOfDay(DayOf(z, t)).month == m
  {
    hide DateOfDay, DayNumber, Midnight;
    MonthIsDayRun(y, m, DayOf(z, t));
    StartsAtMidnight(z, DayNumber(Date(y, m, 1)), t);
    StartsAtMidnight(z, DayNumber(NextMonth(y, m)), t);
  }

  // ----- Request parameters

  predicate DatePattern(s: string) {
    |s| == 10 && s[4] == '-' && s[7] == '-' && AllDigits(s[..4]) && AllDigits(s[5..7]) && AllDigits(s[8..])
  }

  predicate MonthPattern(s: string) {
    |s| == 7 && s[4] == '-' && AllDigits(s[..4]) && AllDigits(s[5..])
  }

  /** The date that a well-formed text spells, real or not. */
  function SpelledDate(s: string): Date
    requires DatePattern(s)
  {
    Date(Number(s[..4]), Number(s[5..7]), Number(s[8..]))
  }

  lemma UtcKeepsDate(d: Date)
    requires d.year >= 0
    ensures 1 <= d.month <= 12 ==>
      (DateOfDay(MakeDay(FullYear(d.year), d.month, d.day)) == d <==> ValidDate(d) && d.year >= 100)
    ensures ValidDate(d) ==> d.day <= 31
  {
    hide DayFromYear, DateOfDay;
    if 1 <= d.month <= 12 {
      NoCarry(FullYear(d.year), d.month, d.day);
      if d.year < 100 {
        YearsAscend(d.year, FullYear(d.year));
      } else if ValidDate(d) {
        DayRoundTrip(d);
      }
    }
  }

  /** A date survives being turned into an instant and read back if it exists and `Date.UTC` keeps its year. */
  predicate SurvivesUtc(d: Date)
    requires d.year >= 0
    ensures SurvivesUtc(d) <==> ValidDate(d) && d.year >= 100
  {
    UtcKeepsDate(d);
    1 <= d.month <= 12 && 1 <= d.day <= 31 && DateOfDay(MakeDay(FullYear(d.year), d.month, d.day)) == d
  }

  function ParseCalendarDate(value: string): (r: Option<Date>)
    ensures r.Some? <==> DatePattern(value) && ValidDate(SpelledDate(value)) && SpelledDate(value).year >= 100
    ensures r.Some? ==> r.value == SpelledDate(value)
  {
    if DatePattern(value) && SurvivesUtc(SpelledDate(value)) then Some(SpelledDate(value)) else None
  }

  function ParseCalendarMonth(value: string): (r: Option<Date>)
    ensures r.Some? <==> MonthPattern(value) && 1 <= Number(value[5..]) <= 12
    ensures r.Some? ==> r.value == Date(Number(value[..4]), Number(value[5..]), 1)
  {
    if !MonthPattern(value) then None
    else if Number(value[5..]) < 1 || Number(value[5..]) > 12 then None
    else Some(Date(Number(value[..4]), Number(value[5..]), 1))
  }

  /** How a month is written before it is parsed again: the year is not padded. */
  function MonthText(y: nat, m: nat): (text: string)
    ensures text != ""
  {
    Show(y) + "-" + Pad2(m)
  }

  lemma FourDigits(n: nat)
    ensures |Show(n)| == 4 <==> 1000 <= n <= 9999
  {
    Length(n, 3);
    Length(n, 4);
    assert Power10(3) == 1000 && Power10(4) == 10000;
  }

  lemma AtMost31(d: Date)
    requires ValidDate(d)
    ensures 1 <= d.month <= 12 && 1 <= d.day <= 31
  {
  }

  /** A month written by the controller parses back exactly when its year has four digits. */
  lemma MonthTextRoundTrip(y: nat, m: nat)
    requires 1 <= m <= 12
    ensures ParseCalendarMonth(MonthText(y, m)) == if 1000 <= y <= 9999 then Some(Date(y, m, 1)) else None
  {
    var s := MonthText(y, m);
    TwoDigits(m);
    FourDigits(y);
    assert |s| == |Show(y)| + 3;
    if |Show(y)| == 4 {
      assert s[..4] == Show(y) && s[5..] == Pad2(m);
    }
  }

  /** The formatted calendar date of an instant. */
  function LocalDate(z: Zone, t: int): (d: Date)
    ensures d.year >= 1 && 1 <= d.month <= 12 && d.day >= 1
  {
    var d := DateOfDay(DayOf(z, t));
    Date(PrintedYear(d.year), d.month, d.day)
  }

  /** `calendarDateLabel`: the year is not padded. */
  function DateText(d: Date): string
    requires d.year >= 0 && d.month >= 0 && d.day >= 0
  {
    MonthText(d.year, d.month) + "-" + Pad2(d.day)
  }

  lemma NoSpaceToTrim(s: string)
    requires s != "" && !IsSpace(s[0]) && !IsSpace(s[|s| - 1])
    ensures Trim(s) == s
  {
  }

  /** A label is a date that parses back exactly when its year has four digits. */
  lemma DateTextRoundTrip(d: Date)
    requires ValidDate(d) && d.year >= 0
    ensures ParseCalendarDate(DateText(d)) == if 1000 <= d.year <= 9999 then Some(d) else None
    ensures Trim(DateText(d)) == DateText(d)
  {
    hide Show, Number, Pad2, Trim, Power10;
    var s := DateText(d);
    AtMost31(d);
    TwoDigits(d.month);
    TwoDigits(d.day);
    FourDigits(d.year);
    assert |s| == |Show(d.year)| + 6;
    NoSpaceToTrim(s);
    if |Show(d.year)| == 4 {
      assert s[..4] == Show(d.year) && s[5..7] == Pad2(d.month) && s[8..] == Pad2(d.day);
    }
  }

  datatype Failure = BadMonth | DateRequired | BadDate

  /** What a request is answered: the window and whether it is a month's, or an error. */
  datatype Answer = Window(range: Range, isMonth: bool, caption: string) | Failed(why: Failure)

  /**
   The parameters of a request. `instantOf` is JavaScript's own `new Date(text)`, which this model
   leaves open; `now` is the clock. An absent parameter is the empty text.
   */
  datatype Query = Query(view: string, month: string, date: string, instantOf: string -> Option<int>, now: int) {
    predicate AsksForMonth() {
      view == "month" || month != ""
    }

    /** The `date` parameter spells a calendar date that exists. */
    predicate GivesDate() {
      var text := Trim(date);
      DatePattern(text) && ValidDate(SpelledDate(text)) && SpelledDate(text).year >= 100
    }

    /** The `date` parameter is no such date, but JavaScript reads it as instant `t`. */
    predicate GivesInstant(t: int) {
      date != "" && !GivesDate() && instantOf(Trim(date)) == Some(t)
    }

    predicate GivesNeither() {
      date == "" || (!GivesDate() && instantOf(Trim(date)).None?)
    }
  }

  /** The answer is the window of just the instants whose local date is `d`. */
  ghost predicate ShowsDay(z: Zone, r: Answer, d: Date) {
    r.Window? && !r.isMonth && forall t :: Covers(r.range, t) <==> DateOfDay(DayOf(z, t)) == d
  }

  /** The answer is the window of just the instants whose local date lies in month `m` of the year `y`. */
  ghost predicate ShowsMonth(z: Zone, r: Answer, y: int, m: int) {
    && r.Window? && r.isMonth
    && forall t :: Covers(r.range, t) <==> DateOfDay(DayOf(z, t)).year == y && DateOfDay(DayOf(z, t)).month == m
  }

  /** The answer to a month the controller has written itself: an error unless the year has four digits. */
  ghost predicate ShowsMonthOf(z: Zone, r: Answer, y: int, m: nat) {
    if 1000 <= y <= 9999 then ShowsMonth(z, r, y, m) && r.caption == MonthText(y, m) else r == Failed(BadMonth)
  }

  /** The answer to a month that the request spells out. */
  ghost predicate ShowsSpelledMonth(z: Zone, r: Answer, text: string) {
    if MonthPattern(text) && 1 <= Number(text[5..]) <= 12 then
      var y, m := Number(text[..4]), Number(text[5..]);
      && r.Window? && r.isMonth && r.caption == MonthText(y, m)
      && (RequestedDay(y, m, 1) > YEAR_100 ==> ShowsMonth(z, r, FullYear(y), m))
    else r == Failed(BadMonth)
  }

  /**
   What the month view owes a request: the month it spells, whatever its date; else the month of
   its date or of its instant; else the present month.
   */
  ghost predicate AnswersMonthView(z: Zone, q: Query, r: Answer) {
    && (Trim(q.month) != "" ==> ShowsSpelledMonth(z, r, Trim(q.month)))
    && (Trim(q.month) == "" ==>
          && (q.GivesDate() ==> var d := SpelledDate(Trim(q.date)); ShowsMonthOf(z, r, d.year, d.month))
          && (forall t | q.GivesInstant(t) ::
                var d := DateOfDay(DayOf(z, t)); ShowsMonthOf(z, r, PrintedYear(d.year), d.month))
          && (q.GivesNeither() ==>
                var d := DateOfDay(DayOf(z, q.now)); ShowsMonthOf(z, r, PrintedYear(d.year), d.month)))
  }

  /** What the day view owes a request: the local day of its date or of its instant, else an error. */
  ghost predicate AnswersDayView(z: Zone, q: Query, r: Answer) {
    && (q.GivesDate() ==>
          var d := SpelledDate(Trim(q.date));
          && r.Window? && !r.isMonth && r.caption == DateText(d)
          && (DayNumber(d) > YEAR_100 ==> ShowsDay(z, r, d)))
    && (forall t | q.GivesInstant(t) ::
          var n := DayOf(z, t);
          && r.Window? && !r.isMonth && r.caption == DateText(LocalDate(z, t))
          && (n > YEAR_100 ==> ShowsDay(z, r, DateOfDay(n))))
    && (q.GivesNeither() ==> r == Failed(if q.date == "" then DateRequired else BadDate))
  }

  ghost predicate IsAnswer(z: Zone, q: Query, r: Answer) {
    if q.AsksForMonth() then AnswersMonthView(z, q, r) else AnswersDayView(z, q, r)
  }

  lemma MonthShown(z: Zone, y: int, m: int, caption: string)
    requires Mountain(z)
    requires 1 <= m <= 12
    ensures ShowsMonth(z, Window(MonthSpan(z, y, m), true, caption), y, m)
  {
    hide DateOfDay, DayOf, MonthSpan, Covers;
    forall t
      ensures Covers(MonthSpan(z, y, m), t) <==> DateOfDay(DayOf(z, t)).year == y && DateOfDay(DayOf(z, t)).month == m
    {
      MonthIsUnionOfDays(z, y, m, t);
    }
  }

  lemma DayShown(z: Zone, n: int, caption: string)
    requires Mountain(z)
    ensures ShowsDay(z, Window(DaySpan(z, n), false, caption), DateOfDay(n))
  {
    hide DateOfDay, DayOf, DaySpan, Covers;
    forall t
      ensures Covers(DaySpan(z, n), t) <==> DateOfDay(DayOf(z, t)) == DateOfDay(n)
    {
      DayRangesPartitionTime(z, n, t);
      DatesAreDays(DayOf(z, t), n);
    }
  }

  lemma LateMonth(y: int, m: int)
    requires y > 100 && 1 <= m <= 12
    ensures RequestedDay(y, m, 1) > YEAR_100
  {
    hide DayNumber;
    NoCarry(y, m, 1);
    EarlierYear(Date(100, 1, 1), Date(y, m, 1));
  }

  lemma Since1000(d: Date)
    requires ValidDate(d) && d.year >= 1000
    ensures DayNumber(d) > YEAR_100
  {
    hide DayNumber;
    EarlierYear(Date(100, 1, 1), d);
  }

  lemma PlainDateAsRequested(d: Date)
    requires ValidDate(d) && d.year >= 100
    ensures RequestedDay(d.year, d.month, d.day) == DayNumber(d)
    ensures DateOfDay(DayNumber(d)) == d
  {
    hide DayNumber, DateOfDay, MakeDay;
    NoCarry(d.year, d.month, d.day);
    DayRoundTrip(d);
  }

  /** A month the controller has written itself is a spelled month like any other. */
  lemma WrittenMonthShown(z: Zone, r: Answer, y: int, m: int)
    requires y >= 0 && 1 <= m <= 12
    requires ShowsSpelledMonth(z, r, MonthText(y, m))
    ensures ShowsMonthOf(z, r, y, m)
  {
    hide MonthText, ShowsMonth, RequestedDay, YEAR_100, Number, AllDigits;
    MonthTextRoundTrip(y, m);
    if 1000 <= y <= 9999 {
      LateMonth(y, m);
    }
  }

  /** The last step of the month view: the month is parsed and its window found. */
  method ShowMonth(z: Zone, monthStr: string) returns (r: Answer)
    requires Mountain(z)
    ensures ShowsSpelledMonth(z, r, monthStr)
  {
    hide ShowsMonth, RequestedDay, YEAR_100, MonthSpan, Number, AllDigits;
    var parsed := ParseCalendarMonth(monthStr);
    if parsed.None? {
      return Failed(BadMonth);
    }
    var range := MonthRangeInMountainTime(z, parsed.value.year, parsed.value.month);
    var caption := MonthText(parsed.value.year, parsed.value.month);
    MonthShown(z, FullYear(parsed.value.year), parsed.value.month, caption);
    r := Window(range, true, caption);
  }

  /** The month view: the month comes from `month`, else from `date`, else from the clock. */
  method ResolveMonth(z: Zone, q: Query) returns (r: Answer)
    requires Mountain(z)
    ensures AnswersMonthView(z, q, r)
  {
    hide DateOfDay, DayOf, ShowsMonthOf, ShowsSpelledMonth, MonthText, Number, AllDigits;
    var monthStr := Trim(q.month);
    ghost var month := Date(1, 1, 1);
    if monthStr == "" && q.date != "" {
      var dateValue := Trim(q.date);
      var plainDate := ParseCalendarDate(dateValue);
      if plainDate.Some? {
        month := plainDate.value;
        monthStr := MonthText(plainDate.value.year, plainDate.value.month);
      } else {
        var instant := q.instantOf(dateValue);
        if instant.Some? {
          var d := LocalDate(z, instant.value);
          month := d;
          monthStr := MonthText(d.year, d.month);
        }
      }
    }
    if monthStr == "" {
      var d := LocalDate(z, q.now);
      month := d;
      monthStr := MonthText(d.year, d.month);
    }
    r := ShowMonth(z, monthStr);
    if Trim(q.month) == "" {
      WrittenMonthShown(z, r, month.year, month.month);
    }
  }

  /** The day view: the day comes from `date` alone. */
  method ResolveDay(z: Zone, q: Query) returns (r: Answer)
    requires Mountain(z)
    ensures AnswersDayView(z, q, r)
  {
    hide DateOfDay, DayOf, DaySpan, Covers, RequestedDay, DayNumber, Number, AllDigits;
    if q.date == "" {
      return Failed(DateRequired);
    }
    var dateStr := Trim(q.date);
    var plainDate := ParseCalendarDate(dateStr);
    if plainDate.Some? {
      var d := plainDate.value;
      PlainDateAsRequested(d);
      DayShown(z, DayNumber(d), DateText(d));
      var range := DayRangeInMountainTime(z, d.year, d.month, d.day);
      return Window(range, false, DateText(d));
    }
    var instant := q.instantOf(dateStr);
    if instant.None? {
      return Failed(BadDate);
    }
    var d := LocalDate(z, instant.value);
    ghost var n := DayOf(z, instant.value);
    if n > YEAR_100 {
      YearReaches100(n);
      DateAsRequested(n);
      DayShown(z, n, DateText(d));
    }
    var range := DayRangeInMountainTime(z, d.year, d.month, d.day);
    r := Window(range, false, DateText(d));
  }

  /** Every request gets the window or the error it is owed. */
  method ResolveDashboardRange(z: Zone, q: Query) returns (r: Answer)
    requires Mountain(z)
    ensures IsAnswer(z, q, r)
  {
    hide AnswersMonthView, AnswersDayView;
    if q.AsksForMonth() {
      r := ResolveMonth(z, q);
    } else {
      r := ResolveDay(z, q);
    }
  }

  /**
   A request that names an instant gets a window around that instant, and a month view that is
   told nothing gets one around the present: in the day view from the year 101 on, in the month
   view exactly when the year also has four digits. For other years the month view answers with
   an error.
   */
  lemma InstantIsInItsWindow(z: Zone, q: Query, r: Answer, t: int)
    requires IsAnswer(z, q, r) && Trim(q.month) == ""
    requires q.date != "" ==> ParseCalendarDate(Trim(q.date)).None?
    requires
      if q.date != "" && q.instantOf(Trim(q.date)).Some? then q.instantOf(Trim(q.date)) == Some(t)
      else q.AsksForMonth() && t == q.now
    requires DateOfDay(DayOf(z, t)).year > 100
    ensures !q.AsksForMonth() ==> r.Window? && !r.isMonth && Covers(r.range, t)
    ensures q.AsksForMonth() ==>
      if 1000 <= DateOfDay(DayOf(z, t)).year <= 9999 then r.Window? && r.isMonth && Covers(r.range, t)
      else r == Failed(BadMonth)
  {
    hide DateOfDay, DayNumber, DayOf, ValidDate, Covers, Number, MonthText, DateText;
    YearReaches100(DayOf(z, t));
    if DayOf(z, t) == YEAR_100 {
      YearOf100();
    }
    assert Trim("") == "";
    assert q.GivesInstant(t) || q.GivesNeither();
  }

  /** A request for the date `d`, written as a label is, gets exactly that day, or that date's month. */
  lemma DateGetsItsWindow(z: Zone, q: Query, r: Answer, d: Date)
    requires IsAnswer(z, q, r)
    requires ValidDate(d) && 1000 <= d.year <= 9999 && Trim(q.date) == DateText(d)
    ensures !q.AsksForMonth() ==> ShowsDay(z, r, d) && r.caption == DateText(d)
    ensures q.AsksForMonth() && Trim(q.month) == "" ==>
      ShowsMonth(z, r, d.year, d.month) && r.caption == MonthText(d.year, d.month)
  {
    hide DateText, MonthText, ShowsDay, ShowsMonth, Number, AllDigits, DatePattern, SpelledDate, ValidDate;
    hide DayNumber, Trim;
    DateTextRoundTrip(d);
    assert q.GivesDate() && SpelledDate(Trim(q.date)) == d;
    Since1000(d);
  }

  /** A month that is spelled out is shown, whatever the date says. */
  lemma MonthGetsItsWindow(z: Zone, q: Query, r: Answer, y: int, m: int)
    requires IsAnswer(z, q, r)
    requires 1000 <= y <= 9999 && 1 <= m <= 12 && Trim(q.month) == MonthText(y, m)
    ensures ShowsMonth(z, r, y, m) && r.caption == MonthText(y, m)
  {
    hide MonthText, ShowsMonth, Number, AllDigits, RequestedDay, YEAR_100;
    MonthTextRoundTrip(y, m);
    LateMonth(y, m);
  }

  /** Errors are answered exactly to what cannot be read. */
  lemma RejectedExactlyWhen(z: Zone, q: Query, r: Answer)
    requires IsAnswer(z, q, r) && !q.AsksForMonth()
    ensures r == Failed(DateRequired) <==> q.date == ""
    ensures r == Failed(BadDate) <==>
      q.date != "" && ParseCalendarDate(Trim(q.date)).None? && q.instantOf(Trim(q.date)).None?
    ensures r != Failed(BadMonth)
  {
    hide ShowsDay, DayNumber, DateOfDay, DayOf, Number, AllDigits, DatePattern, ValidDate, DateText;
    assert Trim("") == "";
    if q.date != "" && !q.GivesDate() && q.instantOf(Trim(q.date)).Some? {
      assert q.GivesInstant(q.instantOf(Trim(q.date)).value);
    }
  }

  lemma ReadsIn1900s(y: int, m: int)
    requires 0 <= y < 100 && 1 <= m <= 12
    ensures RequestedDay(y, m, 1) > YEAR_100
  {
    hide DayNumber;
    NoCarry(y + 1900, m, 1);
    EarlierYear(Date(100, 1, 1), Date(y + 1900, m, 1));
  }

  /** A month written with a year below 100 is accepted, and its window lies 1900 years later. */
  lemma EarlyMonthMovesTo1900s(z: Zone, s: string, t: int)
    requires Mountain(z)
    requires ParseCalendarMonth(s).Some? && ParseCalendarMonth(s).value.year < 100
    ensures var m := ParseCalendarMonth(s).value;
      RequestedDay(m.year, m.month, 1) > YEAR_100
      && (Covers(MonthSpan(z, FullYear(m.year), m.month), t) ==> DateOfDay(DayOf(z, t)).year == m.year + 1900)
  {
    hide DateOfDay, DayNumber;
    var m := ParseCalendarMonth(s).value;
    ReadsIn1900s(m.year, m.month);
    MonthIsUnionOfDays(z, m.year + 1900, m.month, t);
  }
}
