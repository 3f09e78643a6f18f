/**
 The order of every paged history: newest first, and by descending id within a millisecond. Ids
 are compared only through `localeCompare`, so an id stands for its rank in that order.
 */
module NewestFirst {
  import Sorting

  datatype Entry = Entry(at: int, id: int)

  /** `a` is listed strictly before `b`. */
  predicate Before(a: Entry, b: Entry) {
    a.at > b.at || (a.at == b.at && a.id > b.id)
  }

  predicate Ordered(s: seq<Entry>) {
    forall i, j | 0 <= i < j < |s| :: !Before(s[j], s[i])
  }

  predicate StrictlyOrdered(s: seq<Entry>) {
    forall i, j | 0 <= i < j < |s| :: Before(s[i], s[j])
  }

  ghost predicate Distinct(s: seq<Entry>) {
    forall e :: multiset(s)[e] <= 1
  }

  const LISTED_FIRST: (Entry, Entry) -> bool := (a: Entry, b: Entry) => Before(a, b)

  function Insert(e: Entry, s: seq<Entry>): seq<Entry> {
    Sorting.Insert(e, s, LISTED_FIRST)
  }

  /** `sort` with the comparator of this order. */
  function Sort(s: seq<Entry>): seq<Entry> {
    Sorting.Sort(s, LISTED_FIRST)
  }

  function Take<T>(s: seq<T>, k: nat): seq<T> {
    if k <= |s| then s[..k] else s
  }

  /** The first `k` of the sorted entries. */
  function Top(s: seq<Entry>, k: nat): seq<Entry> {
    Take(Sort(s), k)
  }

  lemma InsertKeeps(e: Entry, s: seq<Entry>)
    ensures multiset(Insert(e, s)) == multiset(s) + multiset{e}
    ensures |Insert(e, s)| == |s| + 1
  {
    Sorting.InsertKeeps(e, s, LISTED_FIRST);
  }

  lemma SortSorts(s: seq<Entry>)
    ensures Ordered(Sort(s))
    ensures multiset(Sort(s)) == multiset(s)
    ensures |Sort(s)| == |s|
  {
    Sorting.SortSorts(s, LISTED_FIRST);
    hide Sort;
    var t := Sort(s);
    forall i, j | 0 <= i < j < |t| ensures !Before(t[j], t[i]) {
      assert !LISTED_FIRST(t[j], t[i]);
    }
  }

  lemma LastEntriesAgree(a: seq<Entry>, b: seq<Entry>)
    requires Ordered(a) && Ordered(b) && a != [] && b != []
    requires multiset(a) == multiset(b)
    ensures a[|a| - 1] == b[|b| - 1]
  {
    var x, y := a[|a| - 1], b[|b| - 1];
    assert x in multiset(b) && y in multiset(a);
    assert !Before(x, y) && !Before(y, x);
  }

  lemma DropLast(a: seq<Entry>)
    requires a != []
    ensures multiset(a[..|a| - 1]) == multiset(a) - multiset{a[|a| - 1]}
  {
    assert a == a[..|a| - 1] + [a[|a| - 1]];
  }

  lemma Rejoin(a: seq<Entry>)
    requires a != []
    ensures a == a[..|a| - 1] + [a[|a| - 1]]
  {
  }

  lemma SameLength(a: seq<Entry>, b: seq<Entry>)
    requires multiset(a) == multiset(b)
    ensures |a| == |b|
  {
    assert |multiset(a)| == |a| && |multiset(b)| == |b|;
  }

  /** The order is total, so an ordered list is determined by its entries. */
  lemma {:induction false} OrderedIsUnique(a: seq<Entry>, b: seq<Entry>)
    requires Ordered(a) && Ordered(b)
    requires multiset(a) == multiset(b)
    ensures a == b
  {
    SameLength(a, b);
    if a != [] {
      LastEntriesAgree(a, b);
      DropLast(a);
      DropLast(b);
      OrderedIsUnique(a[..|a| - 1], b[..|b| - 1]);
      Rejoin(a);
      Rejoin(b);
    }
  }

  lemma SortIsCanonical(a: seq<Entry>, b: seq<Entry>)
    requires multiset(a) == multiset(b)
    ensures Sort(a) == Sort(b)
  {
    SortSorts(a);
    SortSorts(b);
    OrderedIsUnique(Sort(a), Sort(b));
  }

  lemma SortKeepsOrdered(s: seq<Entry>)
    requires Ordered(s)
    ensures Sort(s) == s
  {
    SortSorts(s);
    OrderedIsUnique(Sort(s), s);
  }

  lemma DistinctSort(s: seq<Entry>)
    requires Distinct(s)
    ensures StrictlyOrdered(Sort(s))
  {
    hide Sort;
    SortSorts(s);
    var t := Sort(s);
    forall i, j | 0 <= i < j < |t| ensures Before(t[i], t[j]) {
      if t[i] == t[j] {
        Sorting.FoundTwice(t, i, j);
      }
    }
  }

  // ----- Leaving entries out of a page

  /** At least `k` entries of `s` are listed before `x`. */
  ghost predicate EnoughAhead(s: seq<Entry>, x: Entry, k: nat) {
    exists w: seq<Entry> :: |w| == k && multiset(w) <= multiset(s) && forall i | 0 <= i < k :: Before(w[i], x)
  }

  lemma FewerEntries(a: multiset<Entry>, b: multiset<Entry>)
    requires a <= b
    ensures |a| <= |b|
  {
    assert b == a + (b - a);
  }

  lemma AheadInOrder(s: seq<Entry>, w: seq<Entry>, x: Entry)
    requires Ordered(s) && w != [] && multiset(w) <= multiset(s)
    requires forall i | 0 <= i < |w| :: Before(w[i], x)
    ensures |w| <= |s| && !Before(x, s[|w| - 1])
  {
    var k := |w|;
    FewerEntries(multiset(w), multiset(s));
    if Before(x, s[k - 1]) {
      var head, tail := s[..k - 1], s[k - 1..];
      assert s == head + tail;
      assert multiset(s) == multiset(head) + multiset(tail);
      forall e | e in multiset(w) ensures e !in multiset(tail) {
        assert e in w;
      }
      assert multiset(w) <= multiset(head);
      FewerEntries(multiset(w), multiset(head));
    }
  }

  lemma {:induction false} LateInsertKeepsTop(s: seq<Entry>, x: Entry, k: nat)
    requires k <= |s| && (k > 0 ==> !Before(x, s[k - 1]))
    ensures Take(Insert(x, s), k) == s[..k]
  {
    InsertKeeps(x, s);
    if s != [] && Before(x, s[|s| - 1]) {
      InsertKeeps(x, s[..|s| - 1]);
      LateInsertKeepsTop(s[..|s| - 1], x, k);
    }
  }

  /** An entry with enough others ahead of it does not reach the page. */
  lemma LeaveOneOut(s: seq<Entry>, x: Entry, k: nat)
    requires EnoughAhead(s, x, k)
    ensures Top(s + [x], k) == Top(s, k)
  {
    var w: seq<Entry> :| |w| == k && multiset(w) <= multiset(s) && forall i | 0 <= i < k :: Before(w[i], x);
    assert (s + [x])[..|s|] == s;
    SortSorts(s);
    InsertKeeps(x, Sort(s));
    if k > 0 {
      AheadInOrder(Sort(s), w, x);
    }
    LateInsertKeepsTop(Sort(s), x, k);
  }

  lemma StillEnoughAhead(s: seq<Entry>, t: seq<Entry>, x: Entry, k: nat)
    requires EnoughAhead(s, x, k) && multiset(s) <= multiset(t)
    ensures EnoughAhead(t, x, k)
  {
    var w: seq<Entry> :| |w| == k && multiset(w) <= multiset(s) && forall i | 0 <= i < k :: Before(w[i], x);
    assert multiset(w) <= multiset(t);
  }

  /** A whole batch of such entries may be left out. */
  lemma {:induction false} LeaveOut(s: seq<Entry>, late: seq<Entry>, k: nat)
    requires forall i | 0 <= i < |late| :: EnoughAhead(s, late[i], k)
    ensures Top(s + late, k) == Top(s, k)
  {
    if late == [] {
      assert s + late == s;
    } else {
      var init, x := late[..|late| - 1], late[|late| - 1];
      assert s + late == (s + init) + [x];
      LeaveOut(s, init, k);
      assert EnoughAhead(s, late[|late| - 1], k);
      StillEnoughAhead(s, s + init, x, k);
      LeaveOneOut(s + init, x, k);
    }
  }
}
