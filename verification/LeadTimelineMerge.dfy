/**
 A timeline page against the full merge of several sources, with the ownership filter or without: the
 exact condition, whatever is crowded, tied or hidden.
 */
module LeadTimelineMerge {
  import Sorting
  import opened Text
  import opened NewestFirst
  import opened LeadTimeline
  import opened LeadTimelinePages
  import opened LeadTimelineLimits

  function VisibleRows(sources: seq<seq<Row>>, ownedOnly: bool): seq<Entry> {
    if sources == [] then []
    else VisibleRows(sources[..|sources| - 1], ownedOnly) + Entries(Visible(sources[|sources| - 1], ownedOnly))
  }

  /** Every entry that the viewer may see. */
  function Rightful(lead: Lead, ownedOnly: bool): seq<Entry> {
    VisibleRows(lead.sources, ownedOnly) + DatedEntries(lead.extra) + [lead.created]
  }

  lemma {:induction false} VisibleAreListed(rows: seq<Row>, ownedOnly: bool, x: Entry)
    ensures x in Entries(Visible(rows, ownedOnly))
       <==> exists i | 0 <= i < |rows| :: rows[i].entry == x && (ownedOnly ==> rows[i].owned)
  {
    if rows != [] {
      VisibleAreListed(rows[1..], ownedOnly, x);
      var rest := Visible(rows[1..], ownedOnly);
      assert rows == [rows[0]] + rows[1..];
      if ownedOnly && !rows[0].owned {
        assert Visible(rows, ownedOnly) == rest;
      } else {
        assert Visible(rows, ownedOnly) == [rows[0]] + rest;
        assert Entries([rows[0]] + rest) == [rows[0].entry] + Entries(rest);
      }
      if i :| 0 <= i < |rows[1..]| && rows[1..][i].entry == x && (ownedOnly ==> rows[1..][i].owned) {
        assert rows[i + 1] == rows[1..][i];
      }
      if i :| 0 < i < |rows| && rows[i].entry == x && (ownedOnly ==> rows[i].owned) {
        assert rows[1..][i - 1] == rows[i];
      }
    }
  }

  lemma {:induction false} VisibleRowsAreListed(sources: seq<seq<Row>>, ownedOnly: bool, x: Entry)
    ensures x in VisibleRows(sources, ownedOnly) <==> InSources(sources, ownedOnly, x)
  {
    hide Visible, Entries;
    if sources != [] {
      var n := |sources| - 1;
      VisibleRowsAreListed(sources[..n], ownedOnly, x);
      VisibleAreListed(sources[n], ownedOnly, x);
      if k, i :| 0 <= k < |sources| && 0 <= i < |sources[k]|
                 && sources[k][i].entry == x && (ownedOnly ==> sources[k][i].owned) {
        assert k < n ==> sources[..n][k][i] == sources[k][i];
      }
      if InSources(sources[..n], ownedOnly, x) {
        var k, i :| 0 <= k < n && 0 <= i < |sources[..n][k]|
                    && sources[..n][k][i].entry == x && (ownedOnly ==> sources[..n][k][i].owned);
        assert sources[k][i] == sources[..n][k][i];
      }
    }
  }

  /** What the viewer may see: their rows of every source, every dated entry of the lead, and the lead itself. */
  lemma RightfulIsListed(lead: Lead, ownedOnly: bool, x: Entry)
    ensures x in Rightful(lead, ownedOnly)
       <==> InSources(lead.sources, ownedOnly, x) || Item(Some(x.at), x.id) in lead.extra || x == lead.created
  {
    hide VisibleRows, DatedEntries, InSources;
    VisibleRowsAreListed(lead.sources, ownedOnly, x);
    DatedItemsAreListed(lead.extra, x);
  }

  function Missing(all: seq<Entry>, have: seq<Entry>): seq<Entry> {
    if all == [] then []
    else
      var last := all[|all| - 1];
      Missing(all[..|all| - 1], have) + (if last in have then [] else [last])
  }

  /** The entries below the cursor that no load has brought. */
  function LeftOut(lead: Lead, ownedOnly: bool, c: Cursor, limit: nat): seq<Entry> {
    Missing(Under(Rightful(lead, ownedOnly), c), Under(Collected(lead, ownedOnly, c, limit), c))
  }

  // ----- What is loaded is part of what there is

  lemma EntriesOfConcat(a: seq<Row>, b: seq<Row>)
    ensures Entries(a + b) == Entries(a) + Entries(b)
  {
  }

  lemma TakenIsPart(rows: seq<Row>, n: nat, ownedOnly: bool)
    ensures multiset(Entries(Visible(Take(rows, n), ownedOnly))) <= multiset(Entries(Visible(rows, ownedOnly)))
  {
    hide Visible, Entries;
    if n < |rows| {
      var head, tail := rows[..n], rows[n..];
      assert rows == head + tail && Take(rows, n) == head;
      VisibleConcat(head, tail, ownedOnly);
      EntriesOfConcat(Visible(head, ownedOnly), Visible(tail, ownedOnly));
    } else {
      assert Take(rows, n) == rows;
    }
  }

  lemma {:induction false} FilteredIsPart(rows: seq<Row>, c: Cursor, ownedOnly: bool)
    ensures multiset(Entries(Visible(AtOrBefore(rows, c), ownedOnly))) <= multiset(Entries(Visible(rows, ownedOnly)))
  {
    hide Visible, Entries;
    if rows != [] {
      var first, rest := rows[0], rows[1..];
      FilteredIsPart(rest, c, ownedOnly);
      assert rows == [first] + rest;
      VisibleConcat([first], rest, ownedOnly);
      EntriesOfConcat(Visible([first], ownedOnly), Visible(rest, ownedOnly));
      var kept := AtOrBefore(rest, c);
      VisibleConcat([first], kept, ownedOnly);
      EntriesOfConcat(Visible([first], ownedOnly), Visible(kept, ownedOnly));
      assert [] + kept == kept;
    }
  }

  lemma ContributionIsPart(rows: seq<Row>, ownedOnly: bool, c: Cursor, limit: nat)
    ensures multiset(Entries(Contribution(rows, ownedOnly, c, limit))) <= multiset(Entries(Visible(rows, ownedOnly)))
  {
    TakenIsPart(AtOrBefore(rows, c), SourceLimit(limit), ownedOnly);
    FilteredIsPart(rows, c, ownedOnly);
    hide Visible, Entries, AtOrBefore, SourceLimit;
  }

  lemma {:induction false} LoadedIsPart(sources: seq<seq<Row>>, ownedOnly: bool, c: Cursor, limit: nat)
    ensures multiset(Loaded(sources, ownedOnly, c, limit)) <= multiset(VisibleRows(sources, ownedOnly))
  {
    hide Contribution, Visible, Entries;
    if sources != [] {
      LoadedIsPart(sources[..|sources| - 1], ownedOnly, c, limit);
      ContributionIsPart(sources[|sources| - 1], ownedOnly, c, limit);
    }
  }

  lemma CollectedIsPart(lead: Lead, ownedOnly: bool, c: Cursor, limit: nat)
    ensures multiset(Collected(lead, ownedOnly, c, limit)) <= multiset(Rightful(lead, ownedOnly))
  {
    LoadedIsPart(lead.sources, ownedOnly, c, limit);
    hide Loaded, VisibleRows, DatedEntries;
    assert multiset(CreatedEntry(lead, c)) <= multiset([lead.created]);
  }

  lemma UnderIsPart(a: seq<Entry>, b: seq<Entry>, c: Cursor)
    requires multiset(a) <= multiset(b)
    ensures multiset(Under(a, c)) <= multiset(Under(b, c))
  {
    hide Under;
    forall e ensures multiset(Under(a, c))[e] <= multiset(Under(b, c))[e] {
      UnderSelects(a, c, e);
      UnderSelects(b, c, e);
    }
  }

  lemma {:induction false} MissingSelects(all: seq<Entry>, have: seq<Entry>, e: Entry)
    ensures multiset(Missing(all, have))[e] == if e in have then 0 else multiset(all)[e]
  {
    if all != [] {
      var front, last := all[..|all| - 1], all[|all| - 1];
      assert all == front + [last];
      MissingSelects(front, have, e);
    }
  }

  /** What is there is what was brought and what is missing. */
  lemma PartAndRest(all: seq<Entry>, have: seq<Entry>)
    requires Distinct(all) && multiset(have) <= multiset(all)
    ensures multiset(all) == multiset(have + Missing(all, have))
  {
    hide Missing;
    forall e ensures multiset(all)[e] == multiset(have + Missing(all, have))[e] {
      MissingSelects(all, have, e);
      assert e in have <==> e in multiset(have);
      assert multiset(have)[e] <= multiset(all)[e] <= 1;
    }
  }

  // ----- The first page of two lists together

  lemma TopIsPart(s: seq<Entry>, k: nat)
    requires k <= |s|
    ensures |Sort(s)| == |s| && multiset(Sort(s)[..k]) <= multiset(s)
  {
    hide Sort;
    SortSorts(s);
    assert Sort(s) == Sort(s)[..k] + Sort(s)[k..];
  }

  lemma CountedTwice(s: seq<Entry>, late: seq<Entry>, x: Entry)
    requires x in s && x in late
    ensures !Distinct(s + late)
  {
    assert x in multiset(s) && x in multiset(late);
    assert multiset(s + late)[x] == multiset(s)[x] + multiset(late)[x];
  }

  /** With `k` entries ahead of it in `s`, and only then, an entry beside `s` does not reach the page. */
  lemma OneLateEntry(s: seq<Entry>, late: seq<Entry>, x: Entry, k: nat)
    requires Distinct(s + late) && x in late && Top(s + late, k) == Top(s, k)
    ensures EnoughAhead(s, x, k)
  {
    var all := s + late;
    hide Sort, Distinct;
    SortSorts(s);
    SortSorts(all);
    DistinctSort(all);
    var t := Sort(all);
    Sorting.SameMembers(t, all);
    assert x in all && x in t;
    var j :| 0 <= j < |t| && t[j] == x;
    assert |late| > 0;
    var w := t[..k];
    assert w == Sort(s)[..k];
    if j < k {
      assert x in w && x in Sort(s);
      Sorting.SameMembers(Sort(s), s);
      CountedTwice(s, late, x);
    }
    TopIsPart(s, k);
    assert forall i | 0 <= i < k :: Before(w[i], x);
  }

  lemma LeaveOutExactlyWhen(s: seq<Entry>, late: seq<Entry>, k: nat)
    requires Distinct(s + late)
    ensures Top(s + late, k) == Top(s, k) <==> forall i | 0 <= i < |late| :: EnoughAhead(s, late[i], k)
  {
    hide Sort, Distinct, EnoughAhead, Top;
    if forall i | 0 <= i < |late| :: EnoughAhead(s, late[i], k) {
      LeaveOut(s, late, k);
    } else if Top(s + late, k) == Top(s, k) {
      forall i | 0 <= i < |late| ensures EnoughAhead(s, late[i], k) {
        OneLateEntry(s, late, late[i], k);
      }
    }
  }

  lemma SameDistinct(a: seq<Entry>, b: seq<Entry>)
    requires Distinct(a) && multiset(a) == multiset(b)
    ensures Distinct(b)
  {
  }

  /**
   For any lead, at any cursor: a page is exactly the next `limit` entries of the full merge if and only if every
   entry that was left out has `limit` loaded entries ahead of it, all below the cursor.
   */
  lemma PageIsExactExactlyWhen(lead: Lead, ownedOnly: bool, limit: nat, c: Cursor)
    requires Distinct(Rightful(lead, ownedOnly))
    ensures var have, late := Under(Collected(lead, ownedOnly, c, limit), c), LeftOut(lead, ownedOnly, c, limit);
      PageOf(lead, ownedOnly, limit, c).items == Top(Under(Rightful(lead, ownedOnly), c), limit)
      <==> forall i | 0 <= i < |late| :: EnoughAhead(have, late[i], limit)
  {
    hide Under, Sort, Rightful, Collected, EnoughAhead, Missing, Distinct, AnyFull;
    var all, have := Under(Rightful(lead, ownedOnly), c), Under(Collected(lead, ownedOnly, c, limit), c);
    var late := LeftOut(lead, ownedOnly, c, limit);
    CollectedIsPart(lead, ownedOnly, c, limit);
    UnderIsPart(Collected(lead, ownedOnly, c, limit), Rightful(lead, ownedOnly), c);
    SortedUnder(Rightful(lead, ownedOnly), c);
    PartAndRest(all, have);
    SameDistinct(all, have + late);
    SortIsCanonical(all, have + late);
    LeaveOutExactlyWhen(have, late, limit);
    PageIsTop(lead, ownedOnly, limit, c);
  }
}
