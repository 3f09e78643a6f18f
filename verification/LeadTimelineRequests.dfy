/**
 The timeline as a client reads it: each request sends back, as `before`, the text that the response
 before it gave. What the walks over cursors show holds of these requests.
 */
module LeadTimelineRequests {
  import opened Text
  import opened NewestFirst
  import opened LeadTimeline
  import opened LeadTimelinePages
  import opened LeadTimelineMerge

  /** The text of a cursor is read back as the very same cursor. */
  lemma CursorRoundTrip(c: Cursor)
    ensures ParseCursor(EncodeCursor(c)) == c
  {
  }

  /** A request; from one to the next anything may change, the lead, the viewer and the limit. */
  datatype Request = Request(lead: Lead, ownedOnly: bool, asked: Option<int>)

  /** No entry that the viewer may see is listed twice. */
  ghost predicate ListsOnce(r: Request) {
    Distinct(Rightful(r.lead, r.ownedOnly))
  }

  function Reply(r: Request, before: BeforeParam): Response {
    Answer(r.lead, r.ownedOnly, r.asked, before)
  }

  // ----- The next page lies below

  lemma CollectedOnce(lead: Lead, ownedOnly: bool, c: Cursor, limit: nat)
    requires Distinct(Rightful(lead, ownedOnly))
    ensures Distinct(Collected(lead, ownedOnly, c, limit))
  {
    hide Rightful, Collected;
    CollectedIsPart(lead, ownedOnly, c, limit);
    forall e ensures multiset(Collected(lead, ownedOnly, c, limit))[e] <= 1 {
      assert multiset(Rightful(lead, ownedOnly))[e] <= 1;
    }
  }

  predicate AllBelow(s: seq<Entry>, c: Cursor) {
    forall i | 0 <= i < |s| :: BelowCursor(s[i], c)
  }

  lemma ReplyDescends(r: Request, before: BeforeParam)
    requires ListsOnce(r)
    ensures var reply := Reply(r, before);
      && |reply.items| <= Limit(r.asked)
      && StrictlyOrdered(reply.items)
      && AllBelow(reply.items, ParseCursor(before))
      && reply.next == if reply.hasMore && reply.items != [] then EncodeCursor(Some(reply.items[|reply.items| - 1]))
                       else Absent
  {
    hide Rightful, Collected, AnyFull, StrictlyOrdered, BelowCursor, Distinct;
    var c, limit := ParseCursor(before), Limit(r.asked);
    CollectedOnce(r.lead, r.ownedOnly, c, limit);
    PageDescends(Collected(r.lead, r.ownedOnly, c, limit), AnyFull(r.lead.sources, r.ownedOnly, c, limit), limit, c);
    CursorIsLast(r.lead, r.ownedOnly, limit, c);
    hide PageFrom, EncodeCursor, ParseCursor;
  }

  /** The request made with the `before` of a response returns items strictly below every item of that response. */
  lemma NextRequestLiesBelow(first: Request, before: BeforeParam, second: Request)
    requires ListsOnce(first) && ListsOnce(second)
    requires Reply(first, before).next != Absent
    ensures var page, next := Reply(first, before), Reply(second, Reply(first, before).next);
      forall i, k | 0 <= i < |page.items| && 0 <= k < |next.items| :: Before(page.items[i], next.items[k])
  {
    hide Reply, ListsOnce;
    var page := Reply(first, before);
    ReplyDescends(first, before);
    ReplyDescends(second, page.next);
    CursorRoundTrip(Some(page.items[|page.items| - 1]));
  }

  /** All the items that a client gets by sending each response's `before` with the next request. */
  function Replies(requests: seq<Request>, before: BeforeParam): seq<Entry> {
    if requests == [] then []
    else
      var reply := Reply(requests[0], before);
      reply.items + (if reply.next.Absent? then [] else Replies(requests[1..], reply.next))
  }

  lemma JoinDescending(page: seq<Entry>, rest: seq<Entry>, c: Cursor)
    requires page != [] && StrictlyOrdered(page) && AllBelow(page, c)
    requires StrictlyOrdered(rest) && AllBelow(rest, Some(page[|page| - 1]))
    ensures StrictlyOrdered(page + rest) && AllBelow(page + rest, c)
  {
    forall i | 0 <= i < |rest|
      ensures BelowCursor(rest[i], c) && forall k | 0 <= k < |page| :: Before(page[k], rest[i])
    {
      assert BelowCursor(page[|page| - 1], c);
    }
  }

  lemma NoReplies(before: BeforeParam)
    ensures StrictlyOrdered(Replies([], before)) && AllBelow(Replies([], before), ParseCursor(before))
  {
  }

  lemma FirstReply(requests: seq<Request>, before: BeforeParam)
    requires requests != []
    ensures var reply := Reply(requests[0], before);
      Replies(requests, before) == if reply.next.Absent? then reply.items
                                   else reply.items + Replies(requests[1..], reply.next)
  {
    hide Reply;
    var reply := Reply(requests[0], before);
    assert reply.items + [] == reply.items;
  }

  lemma RepliesStep(requests: seq<Request>, before: BeforeParam)
    requires requests != [] && ListsOnce(requests[0])
    requires var next := Reply(requests[0], before).next; var rest := Replies(requests[1..], next);
      StrictlyOrdered(rest) && AllBelow(rest, ParseCursor(next))
    ensures StrictlyOrdered(Replies(requests, before)) && AllBelow(Replies(requests, before), ParseCursor(before))
  {
    hide *;
    var reply := Reply(requests[0], before);
    ReplyDescends(requests[0], before);
    FirstReply(requests, before);
    if !reply.next.Absent? {
      CursorRoundTrip(Some(reply.items[|reply.items| - 1]));
      JoinDescending(reply.items, Replies(requests[1..], reply.next), ParseCursor(before));
    }
  }

  /** However the data changes between requests, no client gets an item twice or out of order. */
  lemma {:induction false} RepliesDescend(requests: seq<Request>, before: BeforeParam)
    requires forall i | 0 <= i < |requests| :: ListsOnce(requests[i])
    ensures StrictlyOrdered(Replies(requests, before)) && AllBelow(Replies(requests, before), ParseCursor(before))
  {
    hide *;
    if requests == [] {
      NoReplies(before);
    } else {
      RepliesDescend(requests[1..], Reply(requests[0], before).next);
      RepliesStep(requests, before);
    }
  }

  // ----- One unchanging lead

  /** The items of at most `pages` requests about one lead. */
  function Fetched(r: Request, before: BeforeParam, pages: nat): seq<Entry>
    decreases pages
  {
    if pages == 0 then []
    else
      var reply := Reply(r, before);
      reply.items + (if reply.next.Absent? then [] else Fetched(r, reply.next, pages - 1))
  }

  /** The client is told that there is nothing more within `pages` requests. */
  ghost predicate Finishes(r: Request, before: BeforeParam, pages: nat)
    decreases pages
  {
    pages > 0 && (!Reply(r, before).next.Absent? ==> Finishes(r, Reply(r, before).next, pages - 1))
  }

  /** Requests go where the cursors go. */
  lemma {:induction false} RequestsFollowCursors(r: Request, before: BeforeParam, pages: nat)
    ensures Fetched(r, before, pages) == Collect(r.lead, r.ownedOnly, Limit(r.asked), ParseCursor(before), pages)
    ensures Finishes(r, before, pages) <==> Ends(r.lead, r.ownedOnly, Limit(r.asked), ParseCursor(before), pages)
    decreases pages
  {
    hide PageOf, Limit, ParseCursor;
    if pages > 0 {
      var page := PageOf(r.lead, r.ownedOnly, Limit(r.asked), ParseCursor(before));
      CursorRoundTrip(page.nextCursor);
      if page.nextCursor.Some? {
        RequestsFollowCursors(r, EncodeCursor(page.nextCursor), pages - 1);
      }
    }
  }

  lemma {:induction false} NothingFiltered(s: seq<Entry>)
    ensures Under(s, None) == s
  {
    if s != [] {
      NothingFiltered(s[..|s| - 1]);
    }
  }

  /**
   A client that starts with no `before` and sends back what it is given reads the whole timeline of
   an uncrowded lead, each entry once and newest first, and is then told that there is no more.
   */
  lemma ClientReadsEverything(r: Request, pages: nat)
    requires WellSourced(r.lead.sources, r.ownedOnly) && Uncrowded(r.lead, Limit(r.asked))
    requires Distinct(Everything(r.lead)) && pages > |Everything(r.lead)|
    ensures Fetched(r, Absent, pages) == Sort(Everything(r.lead))
    ensures Finishes(r, Absent, pages)
  {
    hide WellSourced, Uncrowded, Everything, Sort, Limit, Fetched, Finishes, Under;
    NothingFiltered(Everything(r.lead));
    SortSorts(Everything(r.lead));
    RequestsFollowCursors(r, Absent, pages);
    WalkCollectsEverything(r.lead, r.ownedOnly, Limit(r.asked), None, pages);
    WalkEnds(r.lead, r.ownedOnly, Limit(r.asked), None, pages);
  }

  lemma {:induction false} UnderIsShort(s: seq<Entry>, c: Cursor)
    ensures |Under(s, c)| <= |s|
  {
    if s != [] {
      UnderIsShort(s[..|s| - 1], c);
    }
  }

  /** Whatever is tied, hidden or listed twice, a client of one unchanging lead is done at last. */
  lemma ClientFinishes(r: Request, before: BeforeParam, pages: nat)
    requires pages > |Everything(r.lead)|
    ensures Finishes(r, before, pages)
  {
    hide Everything, Under, Finishes, Limit;
    UnderIsShort(Everything(r.lead), ParseCursor(before));
    RequestsFollowCursors(r, before, pages);
    WalkEnds(r.lead, r.ownedOnly, Limit(r.asked), ParseCursor(before), pages);
  }

  // ----- Other texts in `before`

  /** The entries strictly older than an instant. */
  function Older(s: seq<Entry>, at: int): seq<Entry> {
    if s == [] then []
    else
      var last := s[|s| - 1];
      Older(s[..|s| - 1], at) + (if last.at < at then [last] else [])
  }

  lemma {:induction false} EmptyIdIsBelowAll(s: seq<Entry>, at: int)
    requires forall i | 0 <= i < |s| :: s[i].id >= 0
    ensures Under(s, Some(Entry(at, EMPTY_ID))) == Older(s, at)
  {
    if s != [] {
      EmptyIdIsBelowAll(s[..|s| - 1], at);
    }
  }

  /** A date in `before` gets items strictly older than it, whatever is tied or hidden. */
  lemma DateGetsOlderItems(r: Request, at: int)
    requires ListsOnce(r)
    ensures forall x | x in Reply(r, Plain(Some(at))).items :: x.id >= 0 ==> x.at < at
  {
    hide Reply, ListsOnce;
    ReplyDescends(r, Plain(Some(at)));
  }

  /** And in an orderly lead exactly the newest of them. */
  lemma DateGetsTheNewestOlderItems(r: Request, at: int)
    requires var c := Some(Entry(at, EMPTY_ID));
      && WellSourced(r.lead.sources, r.ownedOnly) && AllTiesFit(r.lead.sources, c, Limit(r.asked))
      && forall i | 0 <= i < |Everything(r.lead)| :: Everything(r.lead)[i].id >= 0
    ensures Reply(r, Plain(Some(at))).items == Top(Older(Everything(r.lead), at), Limit(r.asked))
  {
    hide WellSourced, AllTiesFit, Top, Older, PageOf, Limit;
    var all := Everything(r.lead);
    assert all[|all| - 1] == r.lead.created;
    hide Everything;
    EmptyIdIsBelowAll(all, at);
    PageIsExact(r.lead, r.ownedOnly, Limit(r.asked), Some(Entry(at, EMPTY_ID)));
  }

  /** A `before` that cannot be read is no `before`: the first page again. */
  lemma UnreadableGetsFirstPage(r: Request, before: BeforeParam)
    requires before == Plain(None) || (before.Encoded? && (before.at.None? || before.id.None?))
    ensures Reply(r, before) == Reply(r, Absent)
  {
  }
}
