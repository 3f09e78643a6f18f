/**
 The lead timeline: capped prefixes of several sources, merged under a (time, id) cursor and cut
 into pages. The time-filtered sources (texts, calls, web chat) are given with all their rows,
 newest first; `extra` are the entries kept inside the lead document, which are always read whole.
 */
module LeadTimeline {
  import opened Text
  import opened NewestFirst

  /** A row of a source; `owned` tells whether it is linked to this very lead. */
  datatype Row = Row(entry: Entry, owned: bool)

  /** An entry of the lead document; its date may be missing or unreadable. */
  datatype Item = Item(at: Option<int>, id: int)

  datatype Lead = Lead(sources: seq<seq<Row>>, extra: seq<Item>, created: Entry)

  /** The last entry of the page before, or none for the first page. */
  type Cursor = Option<Entry>

  datatype Page = Page(items: seq<Entry>, nextCursor: Cursor, hasMore: bool)

  /** The rank of the empty id, below every real one. */
  const EMPTY_ID: int := -1

  /** The `before` parameter: encoded JSON with its two fields if readable, or other text read as a date. */
  datatype BeforeParam = Absent | Encoded(at: Option<int>, id: Option<int>) | Plain(at: Option<int>)

  function ParseCursor(before: BeforeParam): Cursor {
    match before
    case Absent => None
    case Encoded(Some(at), Some(id)) => Some(Entry(at, id))
    case Encoded(_, _) => None
    case Plain(Some(at)) => Some(Entry(at, EMPTY_ID))
    case Plain(None) => None
  }

  /** How a response writes its cursor: the text that a client sends back as `before`. */
  function EncodeCursor(c: Cursor): BeforeParam {
    match c
    case None => Absent
    case Some(e) => Encoded(Some(e.at), Some(e.id))
  }

  function Limit(asked: Option<int>): (n: nat)
    ensures 1 <= n <= 100
    ensures asked == None || asked == Some(0) ==> n == 30
    ensures asked.Some? && 1 <= asked.value <= 100 ==> n == asked.value
    ensures asked.Some? && asked.value < 0 ==> n == 1
    ensures asked.Some? && asked.value > 100 ==> n == 100
  {
    var n := if asked.None? || asked.value == 0 then 30 else asked.value;
    if n < 1 then 1 else if n > 100 then 100 else n
  }

  function SourceLimit(limit: nat): nat {
    if limit * 3 < 250 then limit * 3 else 250
  }

  predicate BelowCursor(e: Entry, c: Cursor) {
    c.Some? ==> Before(c.value, e)
  }

  predicate TooNew(e: Entry, c: Cursor) {
    c.Some? && e.at > c.value.at
  }

  /** The query's time filter. */
  function AtOrBefore(rows: seq<Row>, c: Cursor): seq<Row> {
    if rows == [] then []
    else (if TooNew(rows[0].entry, c) then [] else [rows[0]]) + AtOrBefore(rows[1..], c)
  }

  function Load(rows: seq<Row>, c: Cursor, limit: nat): seq<Row> {
    Take(AtOrBefore(rows, c), SourceLimit(limit))
  }

  /** The ownership filter, applied after the rows were loaded. */
  function Visible(rows: seq<Row>, ownedOnly: bool): seq<Row> {
    if rows == [] then []
    else (if ownedOnly && !rows[0].owned then [] else [rows[0]]) + Visible(rows[1..], ownedOnly)
  }

  function Entries(rows: seq<Row>): seq<Entry> {
    seq(|rows|, i requires 0 <= i < |rows| => rows[i].entry)
  }

  function DatedEntries(items: seq<Item>): seq<Entry> {
    if items == [] then []
    else
      var item := items[|items| - 1];
      DatedEntries(items[..|items| - 1]) + (if item.at.Some? then [Entry(item.at.value, item.id)] else [])
  }

  function Under(s: seq<Entry>, c: Cursor): seq<Entry> {
    if s == [] then []
    else Under(s[..|s| - 1], c) + (if BelowCursor(s[|s| - 1], c) then [s[|s| - 1]] else [])
  }

  /** What one source contributes to a page. */
  function Contribution(rows: seq<Row>, ownedOnly: bool, c: Cursor, limit: nat): seq<Row> {
    Visible(Load(rows, c, limit), ownedOnly)
  }

  function Loaded(sources: seq<seq<Row>>, ownedOnly: bool, c: Cursor, limit: nat): seq<Entry> {
    if sources == [] then []
    else
      var k := |sources| - 1;
      Loaded(sources[..k], ownedOnly, c, limit) + Entries(Contribution(sources[k], ownedOnly, c, limit))
  }

  predicate AnyFull(sources: seq<seq<Row>>, ownedOnly: bool, c: Cursor, limit: nat) {
    exists k | 0 <= k < |sources| :: |Contribution(sources[k], ownedOnly, c, limit)| == SourceLimit(limit)
  }

  /** "Lead received" is added only when it is strictly earlier than the cursor's time. */
  function CreatedEntry(lead: Lead, c: Cursor): seq<Entry> {
    if c.None? || lead.created.at < c.value.at then [lead.created] else []
  }

  function Collected(lead: Lead, ownedOnly: bool, c: Cursor, limit: nat): seq<Entry> {
    Loaded(lead.sources, ownedOnly, c, limit) + DatedEntries(lead.extra) + CreatedEntry(lead, c)
  }

  /** Filter, sort and slice, whatever was collected. */
  function PageFrom(items: seq<Entry>, anyFull: bool, limit: nat, c: Cursor): Page {
    var sorted := Sort(Under(items, c));
    var pageItems := Take(sorted, limit);
    var hasMore := |sorted| > limit || anyFull;
    Page(pageItems, if hasMore && pageItems != [] then Some(pageItems[|pageItems| - 1]) else None, hasMore)
  }

  function PageOf(lead: Lead, ownedOnly: bool, limit: nat, c: Cursor): Page {
    PageFrom(Collected(lead, ownedOnly, c, limit), AnyFull(lead.sources, ownedOnly, c, limit), limit, c)
  }

  /** What a request is answered. */
  datatype Response = Response(items: seq<Entry>, next: BeforeParam, hasMore: bool)

  function Answer(lead: Lead, ownedOnly: bool, asked: Option<int>, before: BeforeParam): Response {
    var page := PageOf(lead, ownedOnly, Limit(asked), ParseCursor(before));
    Response(page.items, EncodeCursor(page.nextCursor), page.hasMore)
  }

  lemma AnyFullStep(sources: seq<seq<Row>>, k: nat, ownedOnly: bool, c: Cursor, limit: nat)
    requires k < |sources|
    ensures AnyFull(sources[..k + 1], ownedOnly, c, limit)
            <==> AnyFull(sources[..k], ownedOnly, c, limit)
                 || |Contribution(sources[k], ownedOnly, c, limit)| == SourceLimit(limit)
  {
    hide Contribution;
    var s, t := sources[..k + 1], sources[..k];
    assert s[k] == sources[k];
    forall i | 0 <= i < k ensures s[i] == t[i] {
    }
  }

  /** The nested loops that push every loaded and visible row. */
  method CollectSources(sources: seq<seq<Row>>, ownedOnly: bool, c: Cursor, limit: nat)
    returns (items: seq<Entry>, anyFull: bool)
    ensures items == Loaded(sources, ownedOnly, c, limit)
    ensures anyFull == AnyFull(sources, ownedOnly, c, limit)
  {
    items, anyFull := [], false;
    assert !AnyFull(sources[..0], ownedOnly, c, limit);
    hide Contribution, AnyFull, SourceLimit;
    for k := 0 to |sources|
      invariant items == Loaded(sources[..k], ownedOnly, c, limit)
      invariant anyFull == AnyFull(sources[..k], ownedOnly, c, limit)
    {
      var rows := Contribution(sources[k], ownedOnly, c, limit);
      for i := 0 to |rows|
        invariant items == Loaded(sources[..k], ownedOnly, c, limit) + Entries(rows[..i])
      {
        assert Entries(rows[..i + 1]) == Entries(rows[..i]) + [rows[i].entry];
        items := items + [rows[i].entry];
      }
      assert rows[..|rows|] == rows;
      assert sources[..k + 1][..k] == sources[..k];
      AnyFullStep(sources, k, ownedOnly, c, limit);
      anyFull := anyFull || |rows| == SourceLimit(limit);
    }
    assert sources[..|sources|] == sources;
  }

  lemma NextNamesTheLast(items: seq<Entry>, anyFull: bool, limit: nat, c: Cursor)
    ensures var page := PageFrom(items, anyFull, limit, c);
      page.nextCursor == if page.hasMore && page.items != [] then Some(page.items[|page.items| - 1]) else None
  {
    hide Sort, Under;
  }

  method BuildLeadTimeline(lead: Lead, ownedOnly: bool, asked: Option<int>, before: BeforeParam)
    returns (response: Response)
    ensures response == Answer(lead, ownedOnly, asked, before)
    ensures response.next ==
      if response.hasMore && response.items != [] then
        var last := response.items[|response.items| - 1]; Encoded(Some(last.at), Some(last.id))
      else Absent
  {
    hide PageFrom, AnyFull, Loaded;
    var limit, c := Limit(asked), ParseCursor(before);
    var items, anyFull := CollectSources(lead.sources, ownedOnly, c, limit);
    ghost var fromSources := items;
    for i := 0 to |lead.extra|
      invariant items == fromSources + DatedEntries(lead.extra[..i])
    {
      assert lead.extra[..i + 1][..i] == lead.extra[..i];
      if lead.extra[i].at.Some? {
        items := items + [Entry(lead.extra[i].at.value, lead.extra[i].id)];
      }
    }
    assert lead.extra[..|lead.extra|] == lead.extra;
    if c.None? || lead.created.at < c.value.at {
      items := items + [lead.created];
    }
    assert items == Collected(lead, ownedOnly, c, limit);
    var page := PageFrom(items, anyFull, limit, c);
    NextNamesTheLast(items, anyFull, limit, c);
    response := Response(page.items, EncodeCursor(page.nextCursor), page.hasMore);
  }

  // ----- Any page: strictly descending, below its cursor

  lemma {:induction false} UnderSelects(s: seq<Entry>, c: Cursor, e: Entry)
    ensures multiset(Under(s, c))[e] == if BelowCursor(e, c) then multiset(s)[e] else 0
  {
    if s != [] {
      var init, last := s[..|s| - 1], s[|s| - 1];
      assert s == init + [last];
      UnderSelects(init, c, e);
    }
  }

  lemma SortedUnder(s: seq<Entry>, c: Cursor)
    ensures Ordered(Sort(Under(s, c)))
    ensures forall i | 0 <= i < |Sort(Under(s, c))| :: BelowCursor(Sort(Under(s, c))[i], c)
    ensures Distinct(s) ==> Distinct(Under(s, c)) && StrictlyOrdered(Sort(Under(s, c)))
  {
    hide Under, Sort, BelowCursor;
    var u := Under(s, c);
    SortSorts(u);
    forall i | 0 <= i < |Sort(u)| ensures BelowCursor(Sort(u)[i], c) {
      assert Sort(u)[i] in multiset(u);
      UnderSelects(s, c, Sort(u)[i]);
    }
    if Distinct(s) {
      forall e ensures multiset(u)[e] <= 1 {
        UnderSelects(s, c, e);
      }
      DistinctSort(u);
    }
  }

  /** Whatever is collected: a page is strictly descending, below its cursor, and its cursor is its last item. */
  lemma PageDescends(items: seq<Entry>, anyFull: bool, limit: nat, c: Cursor)
    requires Distinct(items)
    ensures var page := PageFrom(items, anyFull, limit, c);
      && |page.items| <= limit
      && StrictlyOrdered(page.items)
      && (forall i | 0 <= i < |page.items| :: BelowCursor(page.items[i], c))
      && (page.nextCursor.Some? ==> page.items != [] && page.nextCursor.value == page.items[|page.items| - 1])
  {
    hide Sort, Under;
    SortedUnder(items, c);
  }
}
