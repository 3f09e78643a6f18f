/** A stable sort by a comparator, as `sort` does it: `before(a, b)` if `a` must be listed ahead of `b`. */
module Sorting {

  /** The comparator contradicts itself nowhere: not being ahead is transitive. */
  ghost predicate Consistent<T(!new)>(before: (T, T) -> bool) {
    && (forall a, b :: before(a, b) ==> !before(b, a))
    && (forall a, b, c :: !before(b, a) && !before(c, b) ==> !before(c, a))
  }

  predicate Ordered<T>(s: seq<T>, before: (T, T) -> bool) {
    forall i, j | 0 <= i < j < |s| :: !before(s[j], s[i])
  }

  /** After everything that need not come later. */
  function Insert<T>(x: T, s: seq<T>, before: (T, T) -> bool): seq<T> {
    if s == [] || !before(x, s[|s| - 1]) then s + [x]
    else Insert(x, s[..|s| - 1], before) + [s[|s| - 1]]
  }

  function Sort<T>(s: seq<T>, before: (T, T) -> bool): seq<T> {
    if s == [] then [] else Insert(s[|s| - 1], Sort(s[..|s| - 1], before), before)
  }

  lemma OrderedByLast<T(!new)>(s: seq<T>, x: T, before: (T, T) -> bool)
    requires Consistent(before) && Ordered(s, before) && (s != [] ==> !before(x, s[|s| - 1]))
    ensures Ordered(s + [x], before)
  {
    var more := s + [x];
    forall i, j | 0 <= i < j < |more| ensures !before(more[j], more[i]) {
      if j == |s| && i < |s| - 1 {
        assert !before(s[|s| - 1], s[i]);
      }
    }
  }

  lemma FrontIsOrdered<T>(s: seq<T>, before: (T, T) -> bool)
    requires Ordered(s, before) && s != []
    ensures Ordered(s[..|s| - 1], before)
    ensures |s| > 1 ==> !before(s[|s| - 1], s[|s| - 2])
  {
  }

  lemma {:induction false} InsertKeeps<T>(x: T, s: seq<T>, before: (T, T) -> bool)
    ensures multiset(Insert(x, s, before)) == multiset(s) + multiset{x}
    ensures |Insert(x, s, before)| == |s| + 1
  {
    if s != [] && before(x, s[|s| - 1]) {
      InsertKeeps(x, s[..|s| - 1], before);
      assert s == s[..|s| - 1] + [s[|s| - 1]];
    }
  }

  lemma InsertEnds<T>(x: T, s: seq<T>, before: (T, T) -> bool)
    ensures var r := Insert(x, s, before);
      r != [] && (r[|r| - 1] == x || (s != [] && r[|r| - 1] == s[|s| - 1]))
  {
  }

  lemma {:induction false} InsertOrders<T(!new)>(x: T, s: seq<T>, before: (T, T) -> bool)
    requires Consistent(before) && Ordered(s, before)
    ensures Ordered(Insert(x, s, before), before)
  {
    if s == [] || !before(x, s[|s| - 1]) {
      OrderedByLast(s, x, before);
    } else {
      var front, last := s[..|s| - 1], s[|s| - 1];
      FrontIsOrdered(s, before);
      InsertOrders(x, front, before);
      InsertEnds(x, front, before);
      OrderedByLast(Insert(x, front, before), last, before);
      hide Ordered;
    }
  }

  lemma NothingIsOrdered<T>(before: (T, T) -> bool)
    ensures Ordered([], before)
  {
  }

  lemma {:induction false} SortSorts<T(!new)>(s: seq<T>, before: (T, T) -> bool)
    requires Consistent(before)
    ensures Ordered(Sort(s, before), before)
    ensures multiset(Sort(s, before)) == multiset(s)
    ensures |Sort(s, before)| == |s|
  {
    hide Ordered, Insert, Consistent;
    if s == [] {
      NothingIsOrdered(before);
    } else {
      var front, last := s[..|s| - 1], s[|s| - 1];
      SortSorts(front, before);
      InsertKeeps(last, Sort(front, before), before);
      InsertOrders(last, Sort(front, before), before);
      assert s == front + [last];
    }
  }

  lemma SameMembers<T>(a: seq<T>, b: seq<T>)
    requires multiset(a) == multiset(b)
    ensures forall x :: x in a <==> x in b
  {
    forall x ensures x in a <==> x in b {
      assert x in a <==> x in multiset(a);
      assert x in b <==> x in multiset(b);
    }
  }

  /** An element found at two places counts twice. */
  lemma FoundTwice<T>(s: seq<T>, i: nat, j: nat)
    requires i < j < |s| && s[i] == s[j]
    ensures multiset(s)[s[i]] >= 2
  {
    assert s == s[..j] + [s[j]] + s[j + 1..];
    assert s[i] in s[..j];
    assert multiset(s)[s[j]] == multiset(s[..j])[s[j]] + 1 + multiset(s[j + 1..])[s[j]];
  }
}
