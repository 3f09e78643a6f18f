/**
 The training audit list: logged rows come from a query that is already sorted and capped, pending
 rows (written but not yet logged) are few and unsorted. Both are shown as one paged history.
 */
module AiTrainingAudit {
  import opened NewestFirst

  function Slice(s: seq<Entry>, from: nat, to: nat): seq<Entry>
    requires from <= to
  {
    if from >= |s| then [] else Take(s, to)[from..]
  }

  function Skip(s: seq<Entry>, k: nat): seq<Entry> {
    if k <= |s| then s[k..] else []
  }

  /** Page number `page` of a list, counted from 1. */
  function PageOf(s: seq<Entry>, page: nat, limit: nat): seq<Entry>
    requires page >= 1
  {
    Slice(s, (page - 1) * limit, page * limit)
  }

  /** Every row of the history, newest first. */
  function History(logged: seq<Entry>, pending: seq<Entry>): seq<Entry> {
    Sort(logged + pending)
  }

  /** What the controller answers. `logged` is the whole log, newest first. */
  function Rows(logged: seq<Entry>, pending: seq<Entry>, page: nat, limit: nat): seq<Entry>
    requires page >= 1
  {
    if pending == [] then Take(Skip(logged, (page - 1) * limit), limit)
    else Slice(Sort(Take(logged, page * limit) + pending), (page - 1) * limit, page * limit)
  }

  function TotalPages(logged: seq<Entry>, pending: seq<Entry>, limit: nat): nat
    requires limit >= 1
  {
    var pages := (|logged| + |pending| + limit - 1) / limit;
    if pages < 1 then 1 else pages
  }

  lemma PageEnds(page: nat, limit: nat)
    requires page >= 1
    ensures page * limit == (page - 1) * limit + limit && (page - 1) * limit >= 0
  {
  }

  lemma SkipThenTake(s: seq<Entry>, k: nat, n: nat)
    ensures Take(Skip(s, k), n) == Slice(s, k, k + n)
  {
  }

  lemma NoPendingPage(logged: seq<Entry>, page: nat, limit: nat)
    requires page >= 1
    ensures Rows(logged, [], page, limit) == PageOf(logged, page, limit)
  {
    assert page * limit == (page - 1) * limit + limit;
    SkipThenTake(logged, (page - 1) * limit, limit);
  }

  lemma SameTopSameSlice(s: seq<Entry>, t: seq<Entry>, from: nat, to: nat)
    requires from <= to && Take(s, to) == Take(t, to)
    ensures Slice(s, from, to) == Slice(t, from, to)
  {
    assert |s| <= from ==> |Take(s, to)| <= from;
    assert |t| <= from ==> |Take(t, to)| <= from;
  }

  lemma SamePieces(logged: seq<Entry>, pending: seq<Entry>, k: nat)
    requires k <= |logged|
    ensures multiset(logged[..k] + pending + logged[k..]) == multiset(logged + pending)
  {
    assert logged == logged[..k] + logged[k..];
    assert multiset(logged) == multiset(logged[..k]) + multiset(logged[k..]);
  }

  lemma FullPageAhead(logged: seq<Entry>, pending: seq<Entry>, k: nat, j: nat)
    requires StrictlyOrdered(logged) && k <= j < |logged|
    ensures EnoughAhead(logged[..k] + pending, logged[j], k)
  {
    var head := logged[..k];
    assert multiset(head) <= multiset(head + pending);
    assert forall i | 0 <= i < k :: Before(head[i], logged[j]);
  }

  lemma PrefixSuffices(logged: seq<Entry>, pending: seq<Entry>, k: nat)
    requires StrictlyOrdered(logged)
    ensures Top(Take(logged, k) + pending, k) == Top(logged + pending, k)
  {
    hide Sort, EnoughAhead;
    if k < |logged| {
      var head, tail := logged[..k], logged[k..];
      var s := head + pending;
      forall i | 0 <= i < |tail| ensures EnoughAhead(s, tail[i], k) {
        FullPageAhead(logged, pending, k, k + i);
      }
      LeaveOut(s, tail, k);
      SamePieces(logged, pending, k);
      SortIsCanonical(s + tail, logged + pending);
      assert Take(logged, k) == head;
    } else {
      assert Take(logged, k) == logged;
    }
  }

  /** Reading only the first `page * limit` logged rows loses nothing on that page. */
  lemma PageIsExact(logged: seq<Entry>, pending: seq<Entry>, page: nat, limit: nat)
    requires StrictlyOrdered(logged) && page >= 1
    ensures Rows(logged, pending, page, limit) == PageOf(History(logged, pending), page, limit)
  {
    if pending == [] {
      NoPendingPage(logged, page, limit);
      assert logged + [] == logged;
      SortKeepsOrdered(logged);
    } else {
      PrefixSuffices(logged, pending, page * limit);
      PageEnds(page, limit);
      hide Sort, StrictlyOrdered, Take, Slice;
      var (from, to) := ((page - 1) * limit, page * limit);
      SameTopSameSlice(Sort(Take(logged, page * limit) + pending), History(logged, pending), from, to);
    }
  }

  /** Pages `1` to `n` of a list, one after another. */
  function FirstPages(logged: seq<Entry>, pending: seq<Entry>, limit: nat, n: nat): seq<Entry> {
    if n == 0 then [] else FirstPages(logged, pending, limit, n - 1) + Rows(logged, pending, n, limit)
  }

  lemma JoinSlice(s: seq<Entry>, from: nat, to: nat)
    requires from <= to
    ensures Take(s, from) + Slice(s, from, to) == Take(s, to)
  {
  }

  lemma {:induction false} FirstPagesArePrefix(logged: seq<Entry>, pending: seq<Entry>, limit: nat, n: nat)
    requires StrictlyOrdered(logged)
    ensures FirstPages(logged, pending, limit, n) == Take(History(logged, pending), n * limit)
  {
    hide Rows, Sort, StrictlyOrdered;
    if n > 0 {
      FirstPagesArePrefix(logged, pending, limit, n - 1);
      PageIsExact(logged, pending, n, limit);
      assert n * limit == (n - 1) * limit + limit;
      JoinSlice(History(logged, pending), (n - 1) * limit, n * limit);
    }
  }

  lemma EnoughPages(total: nat, limit: nat)
    requires limit >= 1
    ensures total <= (total + limit - 1) / limit * limit
  {
    var q, r := (total + limit - 1) / limit, (total + limit - 1) % limit;
    assert total + limit - 1 == q * limit + r;
  }

  /**
   The pages announced hold the whole history, in order; with distinct rows each row is there
   exactly once.
   */
  lemma PagesHoldEverything(logged: seq<Entry>, pending: seq<Entry>, limit: nat)
    requires StrictlyOrdered(logged) && limit >= 1
    ensures var all := FirstPages(logged, pending, limit, TotalPages(logged, pending, limit));
      && all == History(logged, pending)
      && multiset(all) == multiset(logged) + multiset(pending)
      && (Distinct(logged + pending) ==> StrictlyOrdered(all))
  {
    hide StrictlyOrdered, FirstPages, Sort, Distinct;
    var n, total := TotalPages(logged, pending, limit), |logged| + |pending|;
    FirstPagesArePrefix(logged, pending, limit, n);
    SortSorts(logged + pending);
    EnoughPages(total, limit);
    if Distinct(logged + pending) {
      DistinctSort(logged + pending);
    }
  }
}
