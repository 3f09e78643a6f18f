/**
 Pages of one unchanging timeline: each is exactly the next stretch of the full merge, and walking
 them to the end collects everything once.
 */
module LeadTimelinePages {
  import opened Text
  import opened NewestFirst
  import opened LeadTimeline

  function AllRows(sources: seq<seq<Row>>): seq<Entry> {
    if sources == [] then [] else AllRows(sources[..|sources| - 1]) + Entries(sources[|sources| - 1])
  }

  /** Every entry the viewer may see. */
  function Everything(lead: Lead): seq<Entry> {
    AllRows(lead.sources) + DatedEntries(lead.extra) + [lead.created]
  }

  /** A row of some source that the viewer may see. */
  predicate InSources(sources: seq<seq<Row>>, ownedOnly: bool, x: Entry) {
    exists k, i | 0 <= k < |sources| && 0 <= i < |sources[k]| ::
      sources[k][i].entry == x && (ownedOnly ==> sources[k][i].owned)
  }

  lemma {:induction false} AllRowsAreListed(sources: seq<seq<Row>>, x: Entry)
    ensures x in AllRows(sources) <==> InSources(sources, false, x)
  {
    if sources != [] {
      var n := |sources| - 1;
      AllRowsAreListed(sources[..n], x);
      if x in Entries(sources[n]) {
        var i :| 0 <= i < |sources[n]| && Entries(sources[n])[i] == x;
        assert sources[n][i].entry == x;
      }
      if k, i :| 0 <= k < |sources| && 0 <= i < |sources[k]| && sources[k][i].entry == x {
        if k == n {
          assert Entries(sources[n])[i] == x;
        } else {
          assert sources[..n][k][i].entry == x;
        }
      }
      if InSources(sources[..n], false, x) {
        var k, i :| 0 <= k < n && 0 <= i < |sources[..n][k]| && sources[..n][k][i].entry == x;
        assert sources[k][i].entry == x;
      }
    }
  }

  lemma {:induction false} DatedItemsAreListed(items: seq<Item>, x: Entry)
    ensures x in DatedEntries(items) <==> Item(Some(x.at), x.id) in items
  {
    if items != [] {
      DatedItemsAreListed(items[..|items| - 1], x);
      assert items == items[..|items| - 1] + [items[|items| - 1]];
    }
  }

  /** Everything is every row of every source, every dated entry of the lead, and the lead itself. */
  lemma EverythingIsListed(lead: Lead, x: Entry)
    ensures x in Everything(lead)
       <==> InSources(lead.sources, false, x) || Item(Some(x.at), x.id) in lead.extra || x == lead.created
  {
    hide AllRows, DatedEntries, InSources;
    AllRowsAreListed(lead.sources, x);
    DatedItemsAreListed(lead.extra, x);
  }

  /** The page a full merge would give. */
  function TruePage(lead: Lead, limit: nat, c: Cursor): seq<Entry> {
    Top(Under(Everything(lead), c), limit)
  }

  predicate AllOwned(rows: seq<Row>) {
    forall i | 0 <= i < |rows| :: rows[i].owned
  }

  /** Each source is listed newest first, and either nobody filters by ownership or every row is owned. */
  predicate WellSourced(sources: seq<seq<Row>>, ownedOnly: bool) {
    forall k | 0 <= k < |sources| :: StrictlyOrdered(Entries(sources[k])) && (ownedOnly ==> AllOwned(sources[k]))
  }

  /** In the cursor's own millisecond, and not below it. */
  predicate Tied(e: Entry, c: Cursor) {
    c.Some? && e.at == c.value.at && !BelowCursor(e, c)
  }

  /** At most `room` rows of the source are tied with the cursor: no run of `room + 1` of them. */
  predicate TiesFit(rows: seq<Row>, c: Cursor, room: nat) {
    forall i, j | 0 <= i < |rows| && j == i + room && j < |rows| ::
      !(Tied(rows[i].entry, c) && Tied(rows[j].entry, c))
  }

  predicate AllTiesFit(sources: seq<seq<Row>>, c: Cursor, limit: nat)
    requires limit <= SourceLimit(limit)
  {
    forall k | 0 <= k < |sources| :: TiesFit(sources[k], c, SourceLimit(limit) - limit)
  }

  /** The lead's own entry is not lost to the strict comparison. */
  predicate CreatedKept(lead: Lead, c: Cursor) {
    c.Some? && lead.created.at == c.value.at ==> !BelowCursor(lead.created, c)
  }

  lemma SourceLimitHasRoom(limit: nat)
    requires 1 <= limit <= 100
    ensures 2 * limit <= SourceLimit(limit)
    ensures SourceLimit(limit) - limit == if limit <= 83 then 2 * limit else 250 - limit
  {
  }

  lemma {:induction false} NothingHidden(rows: seq<Row>, ownedOnly: bool)
    requires ownedOnly ==> AllOwned(rows)
    ensures Visible(rows, ownedOnly) == rows
  {
    if rows != [] {
      NothingHidden(rows[1..], ownedOnly);
    }
  }

  lemma RestIsOrdered(rows: seq<Row>)
    requires StrictlyOrdered(Entries(rows)) && rows != []
    ensures StrictlyOrdered(Entries(rows[1..]))
    ensures |rows| > 1 ==> Before(rows[0].entry, rows[1].entry)
  {
    assert Entries(rows)[1..] == Entries(rows[1..]);
    assert |rows| > 1 ==> Before(Entries(rows)[0], Entries(rows)[1]);
  }

  lemma StaysOldEnough(rows: seq<Row>, c: Cursor)
    requires |rows| > 1 ==> Before(rows[0].entry, rows[1].entry)
    ensures |rows| > 1 && !TooNew(rows[0].entry, c) ==> !TooNew(rows[1].entry, c)
  {
  }

  /** Newest first, so the time filter drops a prefix. */
  lemma {:induction false} TimeFilterDropsPrefix(rows: seq<Row>, c: Cursor) returns (p: nat)
    requires StrictlyOrdered(Entries(rows))
    ensures p <= |rows| && AtOrBefore(rows, c) == rows[p..]
    ensures forall i | 0 <= i < p :: TooNew(rows[i].entry, c)
    ensures forall i | p <= i < |rows| :: !TooNew(rows[i].entry, c)
  {
    if rows == [] {
      p := 0;
    } else {
      RestIsOrdered(rows);
      hide StrictlyOrdered, Entries, TooNew;
      var q := TimeFilterDropsPrefix(rows[1..], c);
      assert rows == [rows[0]] + rows[1..];
      p := if TooNew(rows[0].entry, c) then q + 1 else 0;
      assert !TooNew(rows[0].entry, c) && |rows| > 1 ==> !TooNew(rows[1..][0].entry, c) by {
        StaysOldEnough(rows, c);
      }
    }
  }

  lemma {:induction false} UnderConcat(a: seq<Entry>, b: seq<Entry>, c: Cursor)
    ensures Under(a + b, c) == Under(a, c) + Under(b, c)
  {
    if b == [] {
      assert a + b == a;
    } else {
      assert (a + b)[..|a + b| - 1] == a + b[..|b| - 1];
      UnderConcat(a, b[..|b| - 1], c);
    }
  }

  lemma {:induction false} UnderAllOrNone(s: seq<Entry>, c: Cursor)
    ensures (forall i | 0 <= i < |s| :: BelowCursor(s[i], c)) ==> Under(s, c) == s
    ensures (forall i | 0 <= i < |s| :: !BelowCursor(s[i], c)) ==> Under(s, c) == []
  {
    hide BelowCursor;
    if s != [] {
      UnderAllOrNone(s[..|s| - 1], c);
    }
  }

  /** The last `limit` rows of a full load are all below the cursor. */
  lemma LoadReachesBelow(e: seq<Entry>, c: Cursor, p: nat, j: nat, room: nat)
    requires StrictlyOrdered(e) && p + room <= j < |e|
    requires forall i | p <= i < |e| :: !TooNew(e[i], c)
    requires forall i, k | 0 <= i < |e| && k == i + room && k < |e| :: !(Tied(e[i], c) && Tied(e[k], c))
    ensures BelowCursor(e[j], c)
  {
    if !BelowCursor(e[j], c) {
      var i := j - room;
      assert i == j || Before(e[i], e[j]);
      assert Tied(e[i], c) && Tied(e[j], c);
    }
  }

  lemma TooNewIsNotUnder(s: seq<Entry>, c: Cursor)
    requires forall i | 0 <= i < |s| :: TooNew(s[i], c)
    ensures Under(s, c) == []
  {
    UnderAllOrNone(s, c);
  }

  lemma ThreeParts(e: seq<Entry>, c: Cursor, p: nat, m: nat)
    requires p <= m <= |e|
    requires forall i | 0 <= i < p :: TooNew(e[i], c)
    ensures Under(e, c) == Under(e[p..m], c) + Under(e[m..], c)
  {
    hide Under;
    assert e == e[..p] + e[p..] && e[p..] == e[p..m] + e[m..];
    UnderConcat(e[..p], e[p..], c);
    UnderConcat(e[p..m], e[m..], c);
    TooNewIsNotUnder(e[..p], c);
  }

  lemma Witness(a: seq<Entry>, w: seq<Entry>, c: Cursor, x: Entry)
    requires forall i | 0 <= i < |w| :: BelowCursor(w[i], c) && Before(w[i], x)
    ensures EnoughAhead(Under(a + w, c), x, |w|)
  {
    hide Under, BelowCursor;
    UnderAllOrNone(w, c);
    UnderConcat(a, w, c);
    assert multiset(w) <= multiset(Under(a + w, c));
  }

  /** Behind a full load, every row has `limit` loaded rows ahead of it that are below the cursor. */
  lemma TailIsLate(e: seq<Entry>, c: Cursor, p: nat, cap: nat, limit: nat, x: Entry)
    requires StrictlyOrdered(e) && p + cap <= |e| && limit <= cap
    requires forall i | p <= i < |e| :: !TooNew(e[i], c)
    requires forall i, k | 0 <= i < |e| && k == i + cap - limit && k < |e| :: !(Tied(e[i], c) && Tied(e[k], c))
    requires x in e[p + cap..]
    ensures EnoughAhead(Under(e[p..p + cap], c), x, limit)
  {
    hide Under, Tied, BelowCursor, EnoughAhead;
    var m := p + cap;
    var w := e[m - limit..m];
    forall j | m - limit <= j < m ensures BelowCursor(e[j], c) && Before(e[j], x) {
      LoadReachesBelow(e, c, p, j, cap - limit);
    }
    assert e[p..m] == e[p..m - limit] + w;
    hide StrictlyOrdered;
    Witness(e[p..m - limit], w, c, x);
  }

  lemma WholeTailIsLate(e: seq<Entry>, c: Cursor, p: nat, cap: nat, limit: nat)
    requires StrictlyOrdered(e) && p + cap <= |e| && limit <= cap
    requires forall i | p <= i < |e| :: !TooNew(e[i], c)
    requires forall i, k | 0 <= i < |e| && k == i + cap - limit && k < |e| :: !(Tied(e[i], c) && Tied(e[k], c))
    ensures var late := Under(e[p + cap..], c);
      forall i | 0 <= i < |late| :: EnoughAhead(Under(e[p..p + cap], c), late[i], limit)
  {
    hide Under, Tied, BelowCursor, TooNew, EnoughAhead, StrictlyOrdered;
    var tail := e[p + cap..];
    var late := Under(tail, c);
    forall i | 0 <= i < |late| ensures EnoughAhead(Under(e[p..p + cap], c), late[i], limit) {
      UnderSelects(tail, c, late[i]);
      assert late[i] in multiset(late);
      TailIsLate(e, c, p, cap, limit, late[i]);
    }
  }

  lemma LoadIsSlice(rows: seq<Row>, c: Cursor, limit: nat) returns (p: nat, m: nat)
    requires StrictlyOrdered(Entries(rows))
    ensures p <= m <= |rows| && Entries(Load(rows, c, limit)) == Entries(rows)[p..m]
    ensures m - p == |Load(rows, c, limit)|
    ensures m == |rows| || m - p == SourceLimit(limit)
    ensures |Load(rows, c, limit)| < SourceLimit(limit) ==> m == |rows|
    ensures forall i | 0 <= i < p :: TooNew(Entries(rows)[i], c)
    ensures forall i | p <= i < |rows| :: !TooNew(Entries(rows)[i], c)
    ensures p < |rows| ==> !TooNew(Entries(rows)[p], c)
  {
    p := TimeFilterDropsPrefix(rows, c);
    hide TooNew, StrictlyOrdered;
    var cap := SourceLimit(limit);
    m := if p + cap <= |rows| then p + cap else |rows|;
    assert Load(rows, c, limit) == rows[p..m];
    assert forall i | 0 <= i < |rows| :: Entries(rows)[i] == rows[i].entry;
  }

  ghost predicate LeavesOut(all: seq<Entry>, loaded: seq<Entry>, late: seq<Entry>, c: Cursor, limit: nat) {
    && multiset(Under(all, c)) == multiset(Under(loaded, c)) + multiset(late)
    && forall i | 0 <= i < |late| :: EnoughAhead(Under(loaded, c), late[i], limit)
  }

  /** The rows a load leaves out each have a full page of that load's rows ahead of them. */
  lemma SourceLeavesOut(rows: seq<Row>, c: Cursor, limit: nat) returns (late: seq<Entry>)
    requires 1 <= limit <= 100
    requires StrictlyOrdered(Entries(rows)) && TiesFit(rows, c, SourceLimit(limit) - limit)
    ensures LeavesOut(Entries(rows), Entries(Load(rows, c, limit)), late, c, limit)
    ensures |Load(rows, c, limit)| < SourceLimit(limit) ==> late == []
  {
    hide Under, Tied, BelowCursor, EnoughAhead, TooNew, Load;
    SourceLimitHasRoom(limit);
    var e := Entries(rows);
    var p, m := LoadIsSlice(rows, c, limit);
    hide SourceLimit, StrictlyOrdered, Entries;
    ThreeParts(e, c, p, m);
    late := Under(e[m..], c);
    if m == |e| {
      UnderAllOrNone(e[m..], c);
    } else {
      WholeTailIsLate(e, c, p, m - p, limit);
    }
  }

  lemma LoadFits(rows: seq<Row>, c: Cursor, limit: nat)
    ensures |Load(rows, c, limit)| <= SourceLimit(limit)
  {
  }

  lemma LoadIsVisible(rows: seq<Row>, ownedOnly: bool, c: Cursor, limit: nat)
    requires StrictlyOrdered(Entries(rows)) && (ownedOnly ==> AllOwned(rows))
    ensures StrictlyOrdered(Entries(rows)) && Contribution(rows, ownedOnly, c, limit) == Load(rows, c, limit)
  {
    var p := TimeFilterDropsPrefix(rows, c);
    NothingHidden(Load(rows, c, limit), ownedOnly);
  }

  lemma WellSourcedParts(sources: seq<seq<Row>>, ownedOnly: bool, c: Cursor, limit: nat)
    requires sources != [] && WellSourced(sources, ownedOnly)
    requires 1 <= limit <= 100 && AllTiesFit(sources, c, limit)
    ensures WellSourced(sources[..|sources| - 1], ownedOnly) && AllTiesFit(sources[..|sources| - 1], c, limit)
    ensures var rows := sources[|sources| - 1];
      TiesFit(rows, c, SourceLimit(limit) - limit) && StrictlyOrdered(Entries(rows))
      && Contribution(rows, ownedOnly, c, limit) == Load(rows, c, limit)
      && |Load(rows, c, limit)| <= SourceLimit(limit)
  {
    hide StrictlyOrdered, Load, Contribution, Entries, TiesFit;
    LoadIsVisible(sources[|sources| - 1], ownedOnly, c, limit);
    LoadFits(sources[|sources| - 1], c, limit);
  }

  lemma JoinLeftOut(a: seq<Entry>, b: seq<Entry>, la: seq<Entry>, lb: seq<Entry>,
                    lateA: seq<Entry>, lateB: seq<Entry>, c: Cursor, limit: nat)
    requires LeavesOut(a, la, lateA, c, limit) && LeavesOut(b, lb, lateB, c, limit)
    ensures LeavesOut(a + b, la + lb, lateA + lateB, c, limit)
  {
    hide Under, EnoughAhead;
    UnderConcat(a, b, c);
    UnderConcat(la, lb, c);
    var late := lateA + lateB;
    forall i | 0 <= i < |late| ensures EnoughAhead(Under(la + lb, c), late[i], limit) {
      if i < |lateA| {
        StillEnoughAhead(Under(la, c), Under(la + lb, c), lateA[i], limit);
      } else {
        StillEnoughAhead(Under(lb, c), Under(la + lb, c), lateB[i - |lateA|], limit);
      }
    }
  }

  /** The same over all sources. */
  lemma {:induction false} SourcesLeaveOut(sources: seq<seq<Row>>, ownedOnly: bool, c: Cursor, limit: nat)
    returns (late: seq<Entry>)
    requires 1 <= limit <= 100
    requires WellSourced(sources, ownedOnly)
    requires AllTiesFit(sources, c, limit)
    ensures LeavesOut(AllRows(sources), Loaded(sources, ownedOnly, c, limit), late, c, limit)
    ensures !AnyFull(sources, ownedOnly, c, limit) ==> late == []
  {
    if sources == [] {
      late := [];
    } else {
      var k := |sources| - 1;
      var init, rows := sources[..k], sources[k];
      WellSourcedParts(sources, ownedOnly, c, limit);
      hide WellSourced, LeavesOut, Contribution, Load, SourceLimit, AnyFull, TiesFit, AllTiesFit;
      assert Loaded(sources, ownedOnly, c, limit)
          == Loaded(init, ownedOnly, c, limit) + Entries(Load(rows, c, limit));
      hide Loaded, StrictlyOrdered, Entries;
      var rest := SourcesLeaveOut(init, ownedOnly, c, limit);
      var own := SourceLeavesOut(rows, c, limit);
      late := rest + own;
      JoinLeftOut(AllRows(init), Entries(rows), Loaded(init, ownedOnly, c, limit), Entries(Load(rows, c, limit)),
                  rest, own, c, limit);
      assert sources[..k + 1] == sources;
      AnyFullStep(sources, k, ownedOnly, c, limit);
    }
  }

  lemma PageOfRest(all: seq<Entry>, items: seq<Entry>, late: seq<Entry>, anyFull: bool, limit: nat, c: Cursor)
    requires LeavesOut(all, items, late, c, limit) && (!anyFull ==> late == [])
    ensures PageFrom(items, anyFull, limit, c).items == Top(Under(all, c), limit)
    ensures !PageFrom(items, anyFull, limit, c).hasMore ==>
      PageFrom(items, anyFull, limit, c).items == Sort(Under(all, c))
  {
    hide Under, Sort, EnoughAhead;
    var u := Under(items, c);
    SortIsCanonical(Under(all, c), u + late);
    LeaveOut(u, late, limit);
    assert late == [] ==> u + late == u;
  }

  /** Leaving out a "lead received" entry that is not below the cursor changes nothing. */
  lemma CollectedUnder(lead: Lead, ownedOnly: bool, c: Cursor, limit: nat)
    requires CreatedKept(lead, c)
    ensures Under(Collected(lead, ownedOnly, c, limit), c)
            == Under(Loaded(lead.sources, ownedOnly, c, limit) + (DatedEntries(lead.extra) + [lead.created]), c)
  {
    hide Under;
    var a, b := Loaded(lead.sources, ownedOnly, c, limit), DatedEntries(lead.extra);
    UnderConcat(a + b, CreatedEntry(lead, c), c);
    UnderConcat(a + b, [lead.created], c);
    assert a + (b + [lead.created]) == a + b + [lead.created];
    UnderAllOrNone([lead.created], c);
    UnderAllOrNone([], c);
  }

  lemma MergeLeavesOut(lead: Lead, ownedOnly: bool, c: Cursor, limit: nat) returns (late: seq<Entry>)
    requires 1 <= limit <= 100
    requires WellSourced(lead.sources, ownedOnly) && AllTiesFit(lead.sources, c, limit) && CreatedKept(lead, c)
    ensures LeavesOut(Everything(lead), Collected(lead, ownedOnly, c, limit), late, c, limit)
    ensures !AnyFull(lead.sources, ownedOnly, c, limit) ==> late == []
  {
    hide Under, Sort, EnoughAhead, AnyFull, WellSourced, AllTiesFit, Loaded, AllRows, DatedEntries, Collected;
    late := SourcesLeaveOut(lead.sources, ownedOnly, c, limit);
    CollectedUnder(lead, ownedOnly, c, limit);
    hide CreatedKept;
    var loaded, rest := Loaded(lead.sources, ownedOnly, c, limit), DatedEntries(lead.extra) + [lead.created];
    assert Everything(lead) == AllRows(lead.sources) + rest;
    JoinLeftOut(AllRows(lead.sources), rest, loaded, rest, late, [], c, limit);
    assert late + [] == late;
  }

  /**
   A page is exactly the next `limit` entries of the full merge, as long as at most
   `SourceLimit(limit) - limit` rows of one source are tied with the cursor, and it says there is
   no more only when it holds everything that is left.
   */
  lemma PageIsExact(lead: Lead, ownedOnly: bool, limit: nat, c: Cursor)
    requires 1 <= limit <= 100
    requires WellSourced(lead.sources, ownedOnly) && AllTiesFit(lead.sources, c, limit) && CreatedKept(lead, c)
    ensures PageOf(lead, ownedOnly, limit, c).items == TruePage(lead, limit, c)
    ensures !PageOf(lead, ownedOnly, limit, c).hasMore ==>
      PageOf(lead, ownedOnly, limit, c).items == Sort(Under(Everything(lead), c))
  {
    hide Under, Sort, LeavesOut, Everything, Collected, AnyFull, WellSourced, AllTiesFit, CreatedKept, PageFrom;
    var late := MergeLeavesOut(lead, ownedOnly, c, limit);
    var anyFull := AnyFull(lead.sources, ownedOnly, c, limit);
    PageOfRest(Everything(lead), Collected(lead, ownedOnly, c, limit), late, anyFull, limit, c);
  }

  /** What a reader has after following the cursor for at most `pages` pages. */
  function Collect(lead: Lead, ownedOnly: bool, limit: nat, c: Cursor, pages: nat): seq<Entry>
    decreases pages
  {
    if pages == 0 then []
    else
      var page := PageOf(lead, ownedOnly, limit, c);
      page.items + (if page.nextCursor.Some? then Collect(lead, ownedOnly, limit, page.nextCursor, pages - 1) else [])
  }

  /** No cursor meets a crowd: no source has more than the spare rows in a millisecond, and the lead's own is no tie. */
  ghost predicate Uncrowded(lead: Lead, limit: nat)
    requires limit <= SourceLimit(limit)
  {
    && (forall c: Cursor :: AllTiesFit(lead.sources, c, limit))
    && (forall e | e in Everything(lead) :: CreatedKept(lead, Some(e)))
  }

  lemma SplitAt(s: seq<Entry>, k: nat, e: Entry)
    requires StrictlyOrdered(s) && 0 < k <= |s|
    ensures multiset(s[k..])[e] == if Before(s[k - 1], e) then multiset(s)[e] else 0
  {
    assert s == s[..k] + s[k..];
    assert multiset(s)[e] == multiset(s[..k])[e] + multiset(s[k..])[e];
    if Before(s[k - 1], e) {
      assert e !in s[..k];
      assert e !in multiset(s[..k]);
    } else {
      assert e !in s[k..];
      assert e !in multiset(s[k..]);
    }
  }

  /** Below the last entry of a page lies exactly the rest of the merge. */
  lemma RestIsUnderLast(all: seq<Entry>, c: Cursor, k: nat)
    requires Distinct(all) && 0 < k <= |Sort(Under(all, c))|
    ensures var s := Sort(Under(all, c)); Sort(Under(all, Some(s[k - 1]))) == s[k..]
  {
    hide Under, Sort;
    SortedUnder(all, c);
    var s := Sort(Under(all, c));
    var last := s[k - 1];
    assert s == s[..k] + s[k..];
    SortSorts(Under(all, c));
    forall e ensures multiset(Under(all, Some(last)))[e] == multiset(s[k..])[e] {
      UnderSelects(all, Some(last), e);
      UnderSelects(all, c, e);
      SplitAt(s, k, e);
      assert BelowCursor(last, c);
    }
    assert multiset(Under(all, Some(last))) == multiset(s[k..]);
    SortIsCanonical(Under(all, Some(last)), s[k..]);
    SortKeepsOrdered(s[k..]);
  }

  lemma UncrowdedAt(lead: Lead, limit: nat, c: Cursor)
    requires limit <= SourceLimit(limit) && Uncrowded(lead, limit)
    requires c.Some? ==> c.value in Everything(lead)
    ensures AllTiesFit(lead.sources, c, limit) && CreatedKept(lead, c)
  {
    if c.Some? {
      assert c == Some(c.value);
    }
  }

  lemma CursorIsLast(lead: Lead, ownedOnly: bool, limit: nat, c: Cursor)
    ensures var page := PageOf(lead, ownedOnly, limit, c);
      if page.hasMore && page.items != [] then page.nextCursor == Some(page.items[|page.items| - 1])
      else page.nextCursor == None
  {
  }

  lemma LastIsListed(all: seq<Entry>, c: Cursor, k: nat)
    requires 0 < k <= |Sort(Under(all, c))|
    ensures Sort(Under(all, c))[k - 1] in all
  {
    hide Under, Sort, BelowCursor;
    var u := Under(all, c);
    SortSorts(u);
    assert Sort(u)[k - 1] in multiset(u);
    UnderSelects(all, c, Sort(u)[k - 1]);
    assert Sort(u)[k - 1] in multiset(all);
  }

  /**
   Following the cursor of an uncrowded timeline returns every entry below it, each once and in
   order, after no more pages than there are entries.
   */
  lemma {:induction false} WalkCollectsEverything(lead: Lead, ownedOnly: bool, limit: nat, c: Cursor, pages: nat)
    requires 1 <= limit <= 100
    requires WellSourced(lead.sources, ownedOnly) && Uncrowded(lead, limit) && Distinct(Everything(lead))
    requires c.Some? ==> c.value in Everything(lead)
    requires pages > |Sort(Under(Everything(lead), c))|
    ensures Collect(lead, ownedOnly, limit, c, pages) == Sort(Under(Everything(lead), c))
    decreases pages
  {
    hide Under, Sort, Everything, AllTiesFit, WellSourced, PageOf, StrictlyOrdered, CreatedKept, Distinct;
    var all := Everything(lead);
    var page, s := PageOf(lead, ownedOnly, limit, c), Sort(Under(all, c));
    UncrowdedAt(lead, limit, c);
    hide Uncrowded;
    PageIsExact(lead, ownedOnly, limit, c);
    CursorIsLast(lead, ownedOnly, limit, c);
    if page.nextCursor.Some? {
      var k := |page.items|;
      RestIsUnderLast(all, c, k);
      LastIsListed(all, c, k);
      WalkCollectsEverything(lead, ownedOnly, limit, page.nextCursor, pages - 1);
    }
  }

  // ----- Every walk comes to an end

  /** Following the cursor stops within `pages` pages. */
  ghost predicate Ends(lead: Lead, ownedOnly: bool, limit: nat, c: Cursor, pages: nat)
    decreases pages
  {
    pages > 0
    && (PageOf(lead, ownedOnly, limit, c).nextCursor.Some?
        ==> Ends(lead, ownedOnly, limit, PageOf(lead, ownedOnly, limit, c).nextCursor, pages - 1))
  }

  lemma EntriesOfSubset(part: seq<Row>, rows: seq<Row>)
    requires forall row | row in part :: row in rows
    ensures forall x | x in Entries(part) :: x in Entries(rows)
  {
    forall x | x in Entries(part) ensures x in Entries(rows) {
      var i :| 0 <= i < |part| && Entries(part)[i] == x;
      assert part[i] in part;
      var k :| 0 <= k < |rows| && rows[k] == part[i];
      assert Entries(rows)[k] == x;
    }
  }

  lemma {:induction false} TimeFilterSelects(rows: seq<Row>, c: Cursor)
    ensures forall row | row in AtOrBefore(rows, c) :: row in rows
  {
    if rows != [] {
      TimeFilterSelects(rows[1..], c);
    }
  }

  lemma {:induction false} OwnerFilterSelects(rows: seq<Row>, ownedOnly: bool)
    ensures forall row | row in Visible(rows, ownedOnly) :: row in rows && (ownedOnly ==> row.owned)
  {
    if rows != [] {
      OwnerFilterSelects(rows[1..], ownedOnly);
    }
  }

  lemma ContributionFromRows(rows: seq<Row>, ownedOnly: bool, c: Cursor, limit: nat)
    ensures forall row | row in Contribution(rows, ownedOnly, c, limit) :: row in rows
  {
    TimeFilterSelects(rows, c);
    OwnerFilterSelects(Load(rows, c, limit), ownedOnly);
  }

  lemma {:induction false} LoadedFromRows(sources: seq<seq<Row>>, ownedOnly: bool, c: Cursor, limit: nat, x: Entry)
    requires x !in AllRows(sources)
    ensures x !in Loaded(sources, ownedOnly, c, limit)
  {
    if sources != [] {
      var rows := sources[|sources| - 1];
      LoadedFromRows(sources[..|sources| - 1], ownedOnly, c, limit, x);
      assert AllRows(sources) == AllRows(sources[..|sources| - 1]) + Entries(rows);
      ContributionFromRows(rows, ownedOnly, c, limit);
      var part := Contribution(rows, ownedOnly, c, limit);
      hide Loaded, AllRows, Contribution;
      EntriesOfSubset(part, rows);
    }
  }

  lemma CollectedFromEverything(lead: Lead, ownedOnly: bool, c: Cursor, limit: nat, x: Entry)
    requires x in Collected(lead, ownedOnly, c, limit)
    ensures x in Everything(lead)
  {
    hide Loaded, AllRows, DatedEntries;
    if x !in AllRows(lead.sources) {
      LoadedFromRows(lead.sources, ownedOnly, c, limit, x);
    }
  }

  /** The cursor of the next page is an entry below this one. */
  lemma NextIsBelow(lead: Lead, ownedOnly: bool, limit: nat, c: Cursor)
    requires PageOf(lead, ownedOnly, limit, c).nextCursor.Some?
    ensures var x := PageOf(lead, ownedOnly, limit, c).nextCursor.value;
      x in Everything(lead) && BelowCursor(x, c)
  {
    hide Under, Sort, BelowCursor, Collected, Everything, AnyFull;
    var items := Collected(lead, ownedOnly, c, limit);
    var x := PageOf(lead, ownedOnly, limit, c).nextCursor.value;
    SortSorts(Under(items, c));
    assert x in multiset(Sort(Under(items, c)));
    UnderSelects(items, c, x);
    assert x in multiset(items);
    CollectedFromEverything(lead, ownedOnly, c, limit, x);
  }

  /** Below an entry lies less than below what it is below. */
  lemma {:induction false} LessIsLeft(s: seq<Entry>, c: Cursor, x: Entry)
    requires BelowCursor(x, c)
    ensures |Under(s, Some(x))| <= |Under(s, c)|
    ensures x in s ==> |Under(s, Some(x))| < |Under(s, c)|
  {
    if s != [] {
      LessIsLeft(s[..|s| - 1], c, x);
      assert x in s ==> x in s[..|s| - 1] || x == s[|s| - 1];
    }
  }

  /**
   Over one unchanging lead every walk ends, after at most one page more than there are entries below
   where it starts: whatever is tied, hidden by the ownership filter, undated or listed twice.
   */
  lemma {:induction false} WalkEnds(lead: Lead, ownedOnly: bool, limit: nat, c: Cursor, pages: nat)
    requires pages > |Under(Everything(lead), c)|
    ensures Ends(lead, ownedOnly, limit, c, pages)
    decreases pages
  {
    hide Under, Everything, PageOf;
    var next := PageOf(lead, ownedOnly, limit, c).nextCursor;
    if next.Some? {
      NextIsBelow(lead, ownedOnly, limit, c);
      LessIsLeft(Everything(lead), c, next.value);
      WalkEnds(lead, ownedOnly, limit, next, pages - 1);
    }
  }

  /** Once a walk has ended, asking for more pages brings nothing more. */
  lemma {:induction false} NothingAfterTheEnd(
    lead: Lead, ownedOnly: bool, limit: nat, c: Cursor, pages: nat, more: nat)
    requires Ends(lead, ownedOnly, limit, c, pages) && pages <= more
    ensures Collect(lead, ownedOnly, limit, c, more) == Collect(lead, ownedOnly, limit, c, pages)
    decreases pages
  {
    hide PageOf;
    var next := PageOf(lead, ownedOnly, limit, c).nextCursor;
    if next.Some? {
      NothingAfterTheEnd(lead, ownedOnly, limit, next, pages - 1, more - 1);
    }
  }
}
