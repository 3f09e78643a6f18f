/**
 What the conditions on a timeline's pages are for: when a crowded millisecond, a tied first entry
 or foreign rows make the merge lose entries.
 */
module LeadTimelineLimits {
  import opened Text
  import opened NewestFirst
  import opened LeadTimeline
  import opened LeadTimelinePages

  /** How a source lies around a cursor: too new, tied with it, below it. */
  predicate Around(e: seq<Entry>, c: Cursor, p: nat, r: nat) {
    && p <= r <= |e|
    && (forall i | 0 <= i < p :: TooNew(e[i], c))
    && (forall i | p <= i < r :: Tied(e[i], c))
    && (forall i | r <= i < |e| :: BelowCursor(e[i], c))
  }

  lemma SourceLiesAround(e: seq<Entry>, c: Cursor) returns (p: nat, r: nat)
    requires StrictlyOrdered(e)
    ensures Around(e, c, p, r)
  {
    p := 0;
    while p < |e| && TooNew(e[p], c)
      invariant p <= |e| && forall i | 0 <= i < p :: TooNew(e[i], c)
    {
      p := p + 1;
    }
    r := p;
    while r < |e| && !BelowCursor(e[r], c)
      invariant p <= r <= |e| && forall i | p <= i < r :: Tied(e[i], c)
    {
      assert e[p] == e[r] || Before(e[p], e[r]);
      r := r + 1;
    }
  }

  function Min(a: int, b: int): int {
    if a <= b then a else b
  }

  lemma UnderTied(e: seq<Entry>, c: Cursor, p: nat, r: nat, m: nat)
    requires Around(e, c, p, r) && p <= m <= r
    ensures Under(e[p..m], c) == []
  {
    hide Under, TooNew, BelowCursor;
    forall i | 0 <= i < m - p ensures !BelowCursor(e[p..m][i], c) {
      assert Tied(e[p + i], c);
    }
    UnderAllOrNone(e[p..m], c);
  }

  lemma UnderBelow(e: seq<Entry>, c: Cursor, p: nat, r: nat, m: nat)
    requires Around(e, c, p, r) && r <= m <= |e|
    ensures Under(e[r..m], c) == e[r..m]
  {
    hide Under, TooNew, Tied, BelowCursor;
    UnderAllOrNone(e[r..m], c);
  }

  lemma AroundBounds(e: seq<Entry>, c: Cursor, p: nat, r: nat)
    requires Around(e, c, p, r)
    ensures p <= r <= |e|
  {
  }

  lemma UnderOfSplit(e: seq<Entry>, c: Cursor, p: nat, r: nat, m: nat)
    requires Around(e, c, p, r) && p <= m <= |e|
    ensures Under(e[p..m], c) == if m <= r then [] else e[r..m]
  {
    hide *;
    AroundBounds(e, c, p, r);
    UnderTied(e, c, p, r, if m <= r then m else r);
    if m > r {
      UnderBelow(e, c, p, r, m);
      assert e[p..m] == e[p..r] + e[r..m];
      UnderConcat(e[p..r], e[r..m], c);
    }
  }

  lemma SliceWithTail(e: seq<Entry>, tail: seq<Entry>, r: nat, m: nat)
    requires StrictlyOrdered(e + tail) && r <= m <= |e|
    ensures Sort(e[r..m] + tail) == e[r..m] + tail
  {
    hide Sort;
    var s, full := e[r..m] + tail, e + tail;
    forall i, j | 0 <= i < j < |s| ensures !Before(s[j], s[i]) {
      var x := if i < m - r then r + i else i - (m - r) + |e|;
      var y := if j < m - r then r + j else j - (m - r) + |e|;
      assert full[x] == s[i] && full[y] == s[j];
    }
    SortKeepsOrdered(s);
  }

  lemma UnderNothing(c: Cursor)
    ensures Under([], c) == []
  {
  }

  lemma OldestLast(e: seq<Entry>, created: Entry)
    requires StrictlyOrdered(e + [created])
    ensures StrictlyOrdered(e) && created !in e
  {
    var full := e + [created];
    assert forall i | 0 <= i < |e| :: full[i] == e[i];
    assert full[|e|] == created;
  }

  lemma SameStart(e: seq<Entry>, c: Cursor, p: nat, q: nat)
    requires p <= |e| && forall i | 0 <= i < p :: TooNew(e[i], c)
    requires q <= |e| && forall i | 0 <= i < q :: TooNew(e[i], c)
    requires p < |e| ==> !TooNew(e[p], c)
    requires q < |e| ==> !TooNew(e[q], c)
    ensures p == q
  {
  }

  lemma AroundStart(e: seq<Entry>, c: Cursor, p: nat, r: nat)
    requires Around(e, c, p, r)
    ensures p < |e| ==> !TooNew(e[p], c)
  {
    assert p < |e| ==> Tied(e[p], c) || BelowCursor(e[p], c);
  }

  lemma UnderOne(x: Entry, c: Cursor)
    ensures Under([x], c) == if BelowCursor(x, c) then [x] else []
  {
    assert [x][..0] == [];
  }

  lemma AllUnder(e: seq<Entry>, c: Cursor, p: nat, r: nat)
    requires Around(e, c, p, r)
    ensures Under(e, c) == Under(e[p..|e|], c)
  {
    hide Under, TooNew, Tied, BelowCursor;
    ThreeParts(e, c, p, |e|);
    assert e[|e|..] == [];
    UnderNothing(c);
  }

  /** What one source and the lead's own entry amount to. */
  lemma OneSourceCollected(rows: seq<Row>, ownedOnly: bool, created: Entry, c: Cursor, limit: nat)
    ensures var lead := Lead([rows], [], created);
      Loaded(lead.sources, ownedOnly, c, limit) + (DatedEntries(lead.extra) + [created])
        == Entries(Contribution(rows, ownedOnly, c, limit)) + [created]
  {
    hide Contribution, Entries;
    var sources := [rows];
    assert sources[..|sources| - 1] == [];
    assert Loaded(sources[..|sources| - 1], ownedOnly, c, limit) == [];
    assert Loaded(sources, ownedOnly, c, limit) == Entries(Contribution(rows, ownedOnly, c, limit));
    assert DatedEntries([]) + [created] == [created];
  }

  lemma SliceWithin(e: seq<Entry>, created: Entry, w: seq<Entry>, r: nat, m: nat)
    requires StrictlyOrdered(e + [created]) && r <= m <= |e| && (w == [] || w == [created])
    ensures Sort(e[r..m] + w) == e[r..m] + w
  {
    assert StrictlyOrdered(e + w) by {
      assert forall i | 0 <= i < |e + w| :: (e + w)[i] == (e + [created])[i];
    }
    SliceWithTail(e, w, r, m);
  }

  lemma OneSourceUnder(e: seq<Entry>, created: Entry, c: Cursor, p: nat, r: nat, m: nat)
    requires StrictlyOrdered(e + [created]) && Around(e, c, p, r) && p <= m <= |e|
    ensures var listed := (if m <= r then [] else e[r..m]) + Under([created], c);
      Sort(Under(e[p..m], c) + Under([created], c)) == listed
  {
    hide Sort, StrictlyOrdered;
    UnderOfSplit(e, c, p, r, m);
    UnderOne(created, c);
    hide Under, BelowCursor, TooNew, Tied;
    var w := Under([created], c);
    SliceWithin(e, created, w, r, if m <= r then r else m);
    assert m <= r ==> e[r..r] == [];
  }

  lemma OneListUnder(e: seq<Entry>, created: Entry, c: Cursor, p: nat, r: nat)
    requires StrictlyOrdered(e + [created])
    requires Around(e, c, p, r)
    ensures Sort(Under(e + [created], c)) == e[r..] + Under([created], c)
  {
    hide Under, Sort, TooNew, Tied, BelowCursor, StrictlyOrdered;
    OneSourceUnder(e, created, c, p, r, |e|);
    UnderConcat(e, [created], c);
    AllUnder(e, c, p, r);
    assert |e| <= r ==> e[r..] == [];
  }

  lemma ComparePrefixes(e: seq<Entry>, w: seq<Entry>, created: Entry, r: nat, m: nat, limit: nat)
    requires r <= m <= |e| && (w == [] || w == [created]) && created !in e
    ensures Take(e[r..m] + w, limit) == Take(e[r..] + w, limit) <==> m == |e| || limit <= m - r
  {
    var have, want := Take(e[r..m] + w, limit), Take(e[r..] + w, limit);
    if m < |e| && m - r < limit {
      assert want[m - r] == e[m];
      assert |have| > m - r ==> have[m - r] == created;
    } else if m == |e| {
      assert e[r..m] == e[r..];
    } else {
      assert have == e[r..r + limit] == want;
    }
  }

  // ----- One source, possibly filtered by owner

  /** The merge of what the viewer may see of one source and of the lead's own entry. */
  function Owned(rows: seq<Row>, ownedOnly: bool, created: Entry): seq<Entry> {
    Entries(Visible(rows, ownedOnly)) + [created]
  }

  /** How many visible rows there are below the cursor, of all and of those that the page loads. */
  function Due(rows: seq<Row>, ownedOnly: bool, c: Cursor): nat {
    |Under(Entries(Visible(rows, ownedOnly)), c)|
  }

  function Shown(rows: seq<Row>, ownedOnly: bool, c: Cursor, limit: nat): nat {
    |Under(Entries(Contribution(rows, ownedOnly, c, limit)), c)|
  }

  lemma {:induction false} VisibleConcat(a: seq<Row>, b: seq<Row>, ownedOnly: bool)
    ensures Visible(a + b, ownedOnly) == Visible(a, ownedOnly) + Visible(b, ownedOnly)
  {
    if a == [] {
      assert a + b == b;
    } else {
      assert (a + b)[0] == a[0] && (a + b)[1..] == a[1..] + b;
      VisibleConcat(a[1..], b, ownedOnly);
    }
  }

  lemma VisibleAmong(rows: seq<Row>, ownedOnly: bool)
    ensures forall x | x in Entries(Visible(rows, ownedOnly)) :: x in Entries(rows)
  {
    OwnerFilterSelects(rows, ownedOnly);
    EntriesOfSubset(Visible(rows, ownedOnly), rows);
  }

  lemma FirstIsAhead(e: seq<Entry>)
    requires StrictlyOrdered(e) && e != []
    ensures StrictlyOrdered(e[1..]) && forall x | x in e[1..] :: Before(e[0], x)
  {
  }

  lemma AheadOfAll(x: Entry, e: seq<Entry>)
    requires StrictlyOrdered(e) && forall y | y in e :: Before(x, y)
    ensures StrictlyOrdered([x] + e)
  {
  }

  /** Hiding rows keeps the order. */
  lemma {:induction false} VisibleKeepsOrder(rows: seq<Row>, ownedOnly: bool, created: Entry)
    requires StrictlyOrdered(Entries(rows) + [created])
    ensures StrictlyOrdered(Owned(rows, ownedOnly, created))
  {
    if rows != [] {
      var e := Entries(rows) + [created];
      assert e[1..] == Entries(rows[1..]) + [created];
      FirstIsAhead(e);
      VisibleKeepsOrder(rows[1..], ownedOnly, created);
      VisibleAmong(rows[1..], ownedOnly);
      if !ownedOnly || rows[0].owned {
        var rest := Owned(rows[1..], ownedOnly, created);
        assert Owned(rows, ownedOnly, created) == [e[0]] + rest;
        forall y | y in rest ensures Before(e[0], y) {
          assert y in e[1..];
        }
        AheadOfAll(e[0], rest);
      } else {
        assert Visible(rows, ownedOnly) == Visible(rows[1..], ownedOnly);
      }
    }
  }

  lemma ContributionIs(rows: seq<Row>, ownedOnly: bool, c: Cursor, limit: nat)
    ensures Contribution(rows, ownedOnly, c, limit) == Visible(Load(rows, c, limit), ownedOnly)
  {
  }

  lemma VisibleParts(rows: seq<Row>, ownedOnly: bool, p: nat, m: nat)
    requires p <= m <= |rows|
    ensures Visible(rows[p..], ownedOnly) == Visible(rows[p..m], ownedOnly) + Visible(rows[m..], ownedOnly)
    ensures Visible(rows, ownedOnly) == Visible(rows[..p], ownedOnly) + Visible(rows[p..], ownedOnly)
  {
    hide Visible;
    assert rows == rows[..p] + rows[p..] && rows[p..] == rows[p..m] + rows[m..];
    VisibleConcat(rows[..p], rows[p..], ownedOnly);
    VisibleConcat(rows[p..m], rows[m..], ownedOnly);
  }

  lemma EntriesOfParts(u: seq<Row>, v: seq<Row>, w: seq<Row>)
    ensures |Entries(u + (v + w))| == |u| + |v| + |w|
    ensures Entries(u + (v + w))[|u|..|u| + |v|] == Entries(v)
  {
  }

  lemma AllAround(front: seq<Row>, back: seq<Row>, ownedOnly: bool, c: Cursor)
    requires forall i | 0 <= i < |front| :: TooNew(front[i].entry, c)
    requires forall i | 0 <= i < |back| :: !TooNew(back[i].entry, c)
    ensures var u, e := Visible(front, ownedOnly), Entries(Visible(front, ownedOnly) + Visible(back, ownedOnly));
      && (forall i | 0 <= i < |u| :: TooNew(e[i], c))
      && (forall i | |u| <= i < |e| :: !TooNew(e[i], c))
  {
    hide TooNew, Visible;
    OwnerFilterSelects(front, ownedOnly);
    OwnerFilterSelects(back, ownedOnly);
    var u, v := Visible(front, ownedOnly), Visible(back, ownedOnly);
    var e := Entries(u + v);
    forall i | 0 <= i < |u| ensures TooNew(e[i], c) {
      assert u[i] in front;
    }
    forall i | |u| <= i < |e| ensures !TooNew(e[i], c) {
      assert v[i - |u|] in back;
    }
  }

  /** What the page loads of a source is a slice of its visible rows, beginning at the cursor's millisecond. */
  lemma ContributionIsSlice(rows: seq<Row>, ownedOnly: bool, c: Cursor, limit: nat) returns (a: nat, b: nat)
    requires StrictlyOrdered(Entries(rows))
    ensures var e := Entries(Visible(rows, ownedOnly));
      && a <= b <= |e| && Entries(Contribution(rows, ownedOnly, c, limit)) == e[a..b]
      && (forall i | 0 <= i < a :: TooNew(e[i], c))
      && (forall i | a <= i < |e| :: !TooNew(e[i], c))
  {
    hide Visible, TooNew, StrictlyOrdered, AtOrBefore, Entries;
    var p := TimeFilterDropsPrefix(rows, c);
    var m := if p + SourceLimit(limit) <= |rows| then p + SourceLimit(limit) else |rows|;
    assert Load(rows, c, limit) == rows[p..m];
    hide *;
    assert Contribution(rows, ownedOnly, c, limit) == Visible(rows[p..m], ownedOnly) by {
      ContributionIs(rows, ownedOnly, c, limit);
    }
    VisibleParts(rows, ownedOnly, p, m);
    var u, v, w := Visible(rows[..p], ownedOnly), Visible(rows[p..m], ownedOnly), Visible(rows[m..], ownedOnly);
    a, b := |u|, |u| + |v|;
    EntriesOfParts(u, v, w);
    AllAround(rows[..p], rows[p..], ownedOnly, c);
  }

  lemma BelowFrom(e: seq<Entry>, c: Cursor, p: nat, r: nat, a: nat)
    requires Around(e, c, p, r) && a <= |e|
    requires (forall i | 0 <= i < a :: TooNew(e[i], c)) && (forall i | a <= i < |e| :: !TooNew(e[i], c))
    ensures a == p
  {
    AroundStart(e, c, p, r);
    assert a < |e| ==> !TooNew(e[a], c);
    SameStart(e, c, p, a);
  }

  /** The part of a slice that is below the cursor, alone and with the lead's own entry. */
  lemma SliceParts(e: seq<Entry>, created: Entry, c: Cursor, a: nat, b: nat, r: nat) returns (m: nat)
    requires StrictlyOrdered(e + [created]) && Around(e, c, a, r) && a <= b <= |e|
    ensures r <= m <= |e| && m == (if b <= r then r else b) && Under(e[a..b], c) == e[r..m]
    ensures Sort(Under(e[a..b] + [created], c)) == e[r..m] + Under([created], c)
  {
    m := if b <= r then r else b;
    OneSourceUnder(e, created, c, a, r, b);
    UnderOfSplit(e, c, a, r, b);
    hide Under, Sort, StrictlyOrdered, Around;
    assert e[r..r] == [];
    UnderConcat(e[a..b], [created], c);
  }

  /** The page that a slice gives. */
  lemma SliceTop(e: seq<Entry>, created: Entry, c: Cursor, a: nat, b: nat, r: nat, limit: nat) returns (m: nat)
    requires StrictlyOrdered(e + [created]) && Around(e, c, a, r) && a <= b <= |e|
    ensures r <= m <= |e| && |Under(e[a..b], c)| == m - r && (b == |e| ==> m == |e|)
    ensures Top(Under(e[a..b] + [created], c), limit) == Take(e[r..m] + Under([created], c), limit)
  {
    m := SliceParts(e, created, c, a, b, r);
    hide Under, Sort, StrictlyOrdered, Around, Take;
  }

  lemma WholeTop(e: seq<Entry>, created: Entry, c: Cursor, a: nat, r: nat, limit: nat)
    requires StrictlyOrdered(e + [created]) && Around(e, c, a, r)
    ensures Top(Under(e + [created], c), limit) == Take(e[r..] + Under([created], c), limit)
  {
    OneListUnder(e, created, c, a, r);
    hide Under, Sort, StrictlyOrdered, Around, Take;
  }

  /** A slice of the merge shows the true page exactly if it holds a full page or all that is due. */
  lemma SliceIsPageExactlyWhen(e: seq<Entry>, created: Entry, c: Cursor, a: nat, b: nat, r: nat, limit: nat)
    requires StrictlyOrdered(e + [created]) && Around(e, c, a, r) && a <= b <= |e| && limit > 0
    ensures var due, shown := Under(e, c), Under(e[a..b], c);
      Top(Under(e[a..b] + [created], c), limit) == Top(Under(e + [created], c), limit)
      <==> |shown| >= limit || |shown| == |due|
  {
    OldestLast(e, created);
    UnderOne(created, c);
    AllUnder(e, c, a, r);
    WholeTop(e, created, c, a, r, limit);
    var m := SliceTop(e, created, c, a, b, r, limit);
    var n := SliceTop(e, created, c, a, |e|, r, limit);
    ComparePrefixes(e, Under([created], c), created, r, m, limit);
    hide *;
  }

  lemma PageIsTop(lead: Lead, ownedOnly: bool, limit: nat, c: Cursor)
    ensures PageOf(lead, ownedOnly, limit, c).items == Top(Under(Collected(lead, ownedOnly, c, limit), c), limit)
  {
  }

  /**
   With one source and the lead's own entry last, a page is the true page of what the viewer may see
   exactly if it loads a full page of visible rows below the cursor, or all of them.
   */
  lemma OwnedPageIsExactWhen(rows: seq<Row>, ownedOnly: bool, created: Entry, limit: nat, c: Cursor)
    requires 1 <= limit <= 100
    requires StrictlyOrdered(Entries(rows) + [created]) && CreatedKept(Lead([rows], [], created), c)
    ensures PageOf(Lead([rows], [], created), ownedOnly, limit, c).items
              == Top(Under(Owned(rows, ownedOnly, created), c), limit)
       <==> Shown(rows, ownedOnly, c, limit) >= limit || Shown(rows, ownedOnly, c, limit) == Due(rows, ownedOnly, c)
  {
    OldestLast(Entries(rows), created);
    var a, b := ContributionIsSlice(rows, ownedOnly, c, limit);
    VisibleKeepsOrder(rows, ownedOnly, created);
    var e := Entries(Visible(rows, ownedOnly));
    OldestLast(e, created);
    var p, r := SourceLiesAround(e, c);
    BelowFrom(e, c, p, r, a);
    SliceIsPageExactlyWhen(e, created, c, a, b, r, limit);
    OneSourceCollected(rows, ownedOnly, created, c, limit);
    CollectedUnder(Lead([rows], [], created), ownedOnly, c, limit);
    hide *;
    PageIsTop(Lead([rows], [], created), ownedOnly, limit, c);
  }

  lemma ShownRows(rows: seq<Row>, created: Entry, limit: nat, c: Cursor, p: nat, r: nat)
    requires StrictlyOrdered(Entries(rows)) && Around(Entries(rows), c, p, r) && c.Some?
    ensures var m := Min(|rows|, p + SourceLimit(limit));
      Shown(rows, false, c, limit) == (if m <= r then 0 else m - r) && Due(rows, false, c) == |rows| - r
  {
    assert r <= |rows|;
    hide Under, Around, Load, SourceLimit, TooNew, StrictlyOrdered, Visible;
    NothingHidden(rows, false);
    NothingHidden(Load(rows, c, limit), false);
    var e := Entries(rows);
    var q, m := LoadIsSlice(rows, c, limit);
    LoadFits(rows, c, limit);
    BelowFrom(e, c, p, r, q);
    AllUnder(e, c, p, r);
    UnderOfSplit(e, c, p, r, m);
    UnderOfSplit(e, c, p, r, |e|);
    assert |e| == |rows|;
    hide Entries;
  }

  lemma OneSourceEverything(rows: seq<Row>, created: Entry)
    ensures Everything(Lead([rows], [], created)) == Entries(rows) + [created]
  {
    hide Entries;
    var sources := [rows];
    assert sources[..|sources| - 1] == [];
    assert AllRows(sources[..|sources| - 1]) == [];
    assert AllRows(sources) == Entries(rows);
  }

  lemma TruthIsOwned(rows: seq<Row>, created: Entry, limit: nat, c: Cursor)
    ensures TruePage(Lead([rows], [], created), limit, c) == Top(Under(Owned(rows, false, created), c), limit)
  {
    NothingHidden(rows, false);
    OneSourceEverything(rows, created);
    hide Under, Everything, Entries;
  }

  lemma LoadReachesFarEnough(n: nat, p: nat, r: nat, limit: nat, cap: nat)
    requires p <= r <= n && 1 <= limit
    ensures var m := Min(n, p + cap);
      var shown := if m <= r then 0 else m - r;
      shown >= limit || shown == n - r <==> r == n || r - p + Min(limit, n - r) <= cap
  {
  }

  /**
   With nothing hidden that is so exactly when the rows tied with the cursor and the rows wanted fit into
   one load together, or nothing is left below the cursor.
   */
  lemma OneSourcePageIsExactWhen(rows: seq<Row>, created: Entry, limit: nat, c: Cursor) returns (p: nat, r: nat)
    requires 1 <= limit <= 100 && c.Some?
    requires StrictlyOrdered(Entries(rows) + [created]) && CreatedKept(Lead([rows], [], created), c)
    ensures Around(Entries(rows), c, p, r)
    ensures var lead := Lead([rows], [], created);
      PageOf(lead, false, limit, c).items == TruePage(lead, limit, c)
      <==> r == |rows| || r - p + Min(limit, |rows| - r) <= SourceLimit(limit)
  {
    OldestLast(Entries(rows), created);
    p, r := SourceLiesAround(Entries(rows), c);
    OwnedPageIsExactWhen(rows, false, created, limit, c);
    ShownRows(rows, created, limit, c, p, r);
    LoadReachesFarEnough(|rows|, p, r, limit, SourceLimit(limit));
    TruthIsOwned(rows, created, limit, c);
    hide *;
  }

  lemma PageCounts(lead: Lead, ownedOnly: bool, limit: nat, c: Cursor)
    ensures var page, count := PageOf(lead, ownedOnly, limit, c), |Under(Collected(lead, ownedOnly, c, limit), c)|;
      && |page.items| == Min(limit, count)
      && (page.nextCursor.None?
          <==> page.items == [] || !(count > limit || AnyFull(lead.sources, ownedOnly, c, limit)))
  {
    hide Under, Sort, Collected, AnyFull;
    SortSorts(Under(Collected(lead, ownedOnly, c, limit), c));
  }

  lemma ShownCount(rows: seq<Row>, ownedOnly: bool, created: Entry, limit: nat, c: Cursor)
    requires CreatedKept(Lead([rows], [], created), c)
    ensures |Under(Collected(Lead([rows], [], created), ownedOnly, c, limit), c)|
         == Shown(rows, ownedOnly, c, limit) + (if BelowCursor(created, c) then 1 else 0)
  {
    hide Under, BelowCursor, Contribution, Entries, Loaded, Collected;
    OneSourceCollected(rows, ownedOnly, created, c, limit);
    CollectedUnder(Lead([rows], [], created), ownedOnly, c, limit);
    UnderOne(created, c);
    UnderConcat(Entries(Contribution(rows, ownedOnly, c, limit)), [created], c);
  }

  lemma DueCount(rows: seq<Row>, ownedOnly: bool, created: Entry, c: Cursor)
    ensures |Under(Owned(rows, ownedOnly, created), c)|
         == Due(rows, ownedOnly, c) + (if BelowCursor(created, c) then 1 else 0)
  {
    hide Under, BelowCursor, Entries, Visible;
    UnderOne(created, c);
    UnderConcat(Entries(Visible(rows, ownedOnly)), [created], c);
  }

  lemma OneSourceFull(rows: seq<Row>, ownedOnly: bool, created: Entry, c: Cursor, limit: nat)
    ensures AnyFull(Lead([rows], [], created).sources, ownedOnly, c, limit)
       <==> |Contribution(rows, ownedOnly, c, limit)| == SourceLimit(limit)
  {
    hide Contribution, SourceLimit;
    var sources := [rows];
    assert sources[0] == rows;
  }

  /**
   The walk ends at a page from which visible rows below the cursor are missing exactly when more of them lie
   beyond the load, what is left of the load fits the page, and either rows were hidden from the load or all of
   it is above the cursor. Those rows are never shown.
   */
  lemma EndsEarlyExactlyWhen(rows: seq<Row>, ownedOnly: bool, created: Entry, limit: nat, c: Cursor)
    requires 1 <= limit <= 100 && CreatedKept(Lead([rows], [], created), c)
    ensures var page := PageOf(Lead([rows], [], created), ownedOnly, limit, c);
      var shown := Shown(rows, ownedOnly, c, limit) + (if BelowCursor(created, c) then 1 else 0);
      page.nextCursor.None? && |page.items| < |Under(Owned(rows, ownedOnly, created), c)|
      <==> && Shown(rows, ownedOnly, c, limit) < Due(rows, ownedOnly, c)
           && shown <= limit
           && (|Contribution(rows, ownedOnly, c, limit)| != SourceLimit(limit) || shown == 0)
  {
    PageCounts(Lead([rows], [], created), ownedOnly, limit, c);
    ShownCount(rows, ownedOnly, created, limit, c);
    DueCount(rows, ownedOnly, created, c);
    OneSourceFull(rows, ownedOnly, created, c, limit);
    hide *;
  }

  lemma InBoth(s: seq<Entry>, x: Entry)
    ensures x in s <==> multiset(s)[x] > 0
  {
    assert x in s <==> x in multiset(s);
  }

  /**
   The "lead received" entry is among what a page has to choose from exactly if it is strictly earlier than
   the cursor; it is due, though, also if it is of the same time and sorts below.
   */
  lemma CreatedIsOfferedExactlyWhen(lead: Lead, ownedOnly: bool, limit: nat, c: Cursor)
    requires lead.created !in AllRows(lead.sources) && lead.created !in DatedEntries(lead.extra)
    ensures lead.created in Under(Collected(lead, ownedOnly, c, limit), c)
       <==> c.None? || lead.created.at < c.value.at
    ensures lead.created in Under(Everything(lead), c)
       <==> c.None? || lead.created.at < c.value.at || (lead.created.at == c.value.at && lead.created.id < c.value.id)
  {
    hide Under, AllRows, DatedEntries, Loaded;
    var items := Collected(lead, ownedOnly, c, limit);
    LoadedFromRows(lead.sources, ownedOnly, c, limit, lead.created);
    UnderSelects(items, c, lead.created);
    UnderSelects(Everything(lead), c, lead.created);
    InBoth(Under(items, c), lead.created);
    InBoth(items, lead.created);
    InBoth(Under(Everything(lead), c), lead.created);
    InBoth(Everything(lead), lead.created);
  }

  /**
   A "lead received" entry tied with the cursor and below it is due, yet neither this page nor any
   later one shows it.
   */
  lemma TiedCreatedIsLost(lead: Lead, ownedOnly: bool, limit: nat, c: Cursor, later: Cursor)
    requires !CreatedKept(lead, c)
    requires later == c || (later.Some? && BelowCursor(later.value, c))
    requires lead.created !in AllRows(lead.sources) && lead.created !in DatedEntries(lead.extra)
    ensures lead.created in Under(Everything(lead), c)
    ensures lead.created !in PageOf(lead, ownedOnly, limit, later).items
  {
    hide Under, Sort, AllRows, DatedEntries, Loaded;
    UnderSelects(Everything(lead), c, lead.created);
    assert lead.created in multiset(Everything(lead));
    assert lead.created in multiset(Under(Everything(lead), c));
    var items := Collected(lead, ownedOnly, later, limit);
    LoadedFromRows(lead.sources, ownedOnly, later, limit, lead.created);
    assert items == Loaded(lead.sources, ownedOnly, later, limit) + DatedEntries(lead.extra);
    SortSorts(Under(items, later));
    UnderSelects(items, later, lead.created);
    assert lead.created !in multiset(items);
    assert lead.created !in multiset(Sort(Under(items, later)));
  }

  lemma {:induction false} AllHidden(rows: seq<Row>)
    requires forall i | 0 <= i < |rows| :: !rows[i].owned
    ensures Visible(rows, true) == []
  {
    if rows != [] {
      AllHidden(rows[1..]);
    }
  }

  lemma {:induction false} NoTimeFilter(rows: seq<Row>)
    ensures AtOrBefore(rows, None) == rows
  {
    if rows != [] {
      NoTimeFilter(rows[1..]);
    }
  }

  /**
   With the ownership filter on, a source whose newest full load belongs to others ends the walk at
   once: the first page shows only the lead's own entry and says there is nothing more, whatever
   owned rows come later.
   */
  lemma ForeignRowsEndTheWalk(rows: seq<Row>, created: Entry, limit: nat)
    requires 1 <= limit <= 100
    requires |rows| >= SourceLimit(limit) && forall i | 0 <= i < SourceLimit(limit) :: !rows[i].owned
    ensures PageOf(Lead([rows], [], created), true, limit, None) == Page([created], None, false)
  {
    NoTimeFilter(rows);
    SourceLimitHasRoom(limit);
    var part := Contribution(rows, true, None, limit);
    AllHidden(Load(rows, None, limit));
    assert part == [];
    var lead := Lead([rows], [], created);
    hide Contribution, SourceLimit;
    assert lead.sources[..0] == [];
    assert Loaded(lead.sources, true, None, limit) == [];
    assert Collected(lead, true, None, limit) == [created];
    assert !AnyFull(lead.sources, true, None, limit);
    UnderAllOrNone([created], None);
    SortKeepsOrdered([created]);
    hide Collected, AnyFull, Under, Sort;
  }
}
