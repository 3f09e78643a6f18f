/**
 Web Push subscriptions: an endpoint belongs to one user, and a user keeps the six most recent.
 Subscribing pulls the endpoint from everybody else, then replaces or pushes it.
 */
module PushSubscriptions {
  import Sorting

  const MAX_PUSH_SUBSCRIPTIONS: nat := 6

  datatype Sub = Sub(endpoint: string, createdAt: int)

  type Users = map<nat, seq<Sub>>

  /** `$pull`: every entry with this endpoint goes. */
  function Without(subs: seq<Sub>, endpoint: string): seq<Sub> {
    if subs == [] then []
    else (if subs[0].endpoint == endpoint then [] else [subs[0]]) + Without(subs[1..], endpoint)
  }

  /** The positional update: the first entry with the endpoint is replaced in place. */
  function Replaced(subs: seq<Sub>, sub: Sub): seq<Sub> {
    if subs == [] then []
    else if subs[0].endpoint == sub.endpoint then [sub] + subs[1..]
    else [subs[0]] + Replaced(subs[1..], sub)
  }

  const NEWER: (Sub, Sub) -> bool := (a: Sub, b: Sub) => a.createdAt > b.createdAt

  /** `$sort` by `createdAt`, newest first. */
  function SortNewest(subs: seq<Sub>): seq<Sub> {
    Sorting.Sort(subs, NEWER)
  }

  /** `$push` with `$sort` and `$slice`. */
  function Pushed(subs: seq<Sub>, sub: Sub): seq<Sub> {
    var sorted := SortNewest(subs + [sub]);
    if |sorted| <= MAX_PUSH_SUBSCRIPTIONS then sorted else sorted[..MAX_PUSH_SUBSCRIPTIONS]
  }

  predicate Holds(subs: seq<Sub>, endpoint: string) {
    exists i | 0 <= i < |subs| :: subs[i].endpoint == endpoint
  }

  function Subscribed(subs: seq<Sub>, sub: Sub): seq<Sub> {
    if Holds(subs, sub.endpoint) then Replaced(subs, sub) else Pushed(subs, sub)
  }

  function AfterSubscribe(users: Users, user: nat, sub: Sub): Users {
    map u | u in users :: if u == user then Subscribed(users[u], sub) else Without(users[u], sub.endpoint)
  }

  ghost predicate OncePerUser(subs: seq<Sub>) {
    forall i, j | 0 <= i < j < |subs| :: subs[i].endpoint != subs[j].endpoint
  }

  lemma HoldsCons(sub: Sub, subs: seq<Sub>)
    ensures forall e :: Holds([sub] + subs, e) <==> sub.endpoint == e || Holds(subs, e)
  {
    var all := [sub] + subs;
    forall e ensures Holds(all, e) <==> sub.endpoint == e || Holds(subs, e) {
      assert all[0] == sub;
      if Holds(subs, e) {
        var i :| 0 <= i < |subs| && subs[i].endpoint == e;
        assert all[i + 1] == subs[i];
      }
    }
  }

  lemma OnceCons(sub: Sub, subs: seq<Sub>)
    requires OncePerUser(subs) && !Holds(subs, sub.endpoint)
    ensures OncePerUser([sub] + subs)
  {
  }

  lemma {:induction false} ReplacedHolds(subs: seq<Sub>, sub: Sub)
    requires Holds(subs, sub.endpoint)
    ensures |Replaced(subs, sub)| == |subs|
    ensures sub in Replaced(subs, sub)
    ensures forall e :: Holds(Replaced(subs, sub), e) <==> Holds(subs, e)
    ensures OncePerUser(subs) ==> OncePerUser(Replaced(subs, sub))
    ensures Holds(Replaced(subs, sub), sub.endpoint)
  {
    var first, rest := subs[0], subs[1..];
    assert subs == [first] + rest;
    HoldsCons(first, rest);
    if first.endpoint == sub.endpoint {
      HoldsCons(sub, rest);
    } else {
      ReplacedHolds(rest, sub);
      HoldsCons(first, Replaced(rest, sub));
      if OncePerUser(subs) {
        assert !Holds(rest, first.endpoint);
        assert OncePerUser(rest);
        OnceCons(first, Replaced(rest, sub));
      }
    }
  }

  class CrmUsers {
    var users: Users

    /** The three updates of the handler, one after another. */
    method SubscribeCrmPush(user: nat, sub: Sub)
      requires user in users
      modifies this
      ensures users == AfterSubscribe(old(users), user, sub)
    {
      hide Holds, Replaced, Pushed, Without, OncePerUser;
      users := map u | u in users :: if u != user then Without(users[u], sub.endpoint) else users[u];
      var held := Holds(users[user], sub.endpoint);
      if held {
        users := users[user := Replaced(users[user], sub)];
        ReplacedHolds(old(users)[user], sub);
      }
      if !Holds(users[user], sub.endpoint) {
        users := users[user := Pushed(users[user], sub)];
      }
    }
  }

  // ----- What every sequence of subscriptions keeps

  ghost predicate Invariant(users: Users) {
    && (forall u | u in users :: OncePerUser(users[u]) && |users[u]| <= MAX_PUSH_SUBSCRIPTIONS)
    && (forall u, v, e | u in users && v in users && Holds(users[u], e) && Holds(users[v], e) :: u == v)
  }

  lemma {:induction false} WithoutFilters(subs: seq<Sub>, endpoint: string)
    ensures |Without(subs, endpoint)| <= |subs|
    ensures forall e :: Holds(Without(subs, endpoint), e) <==> Holds(subs, e) && e != endpoint
    ensures OncePerUser(subs) ==> OncePerUser(Without(subs, endpoint))
  {
    if subs != [] {
      var rest := Without(subs[1..], endpoint);
      WithoutFilters(subs[1..], endpoint);
      HoldsCons(subs[0], subs[1..]);
      assert subs == [subs[0]] + subs[1..];
      HoldsCons(subs[0], rest);
      if OncePerUser(subs) {
        assert !Holds(subs[1..], subs[0].endpoint);
        assert !Holds(rest, subs[0].endpoint);
        OnceCons(subs[0], rest);
        assert OncePerUser(subs[1..]);
      }
      assert subs[0].endpoint == endpoint ==> Without(subs, endpoint) == rest;
      assert subs[0].endpoint != endpoint ==> Without(subs, endpoint) == [subs[0]] + rest;
    }
  }

  // ----- Sorting and cutting

  ghost predicate NewestFirst(subs: seq<Sub>) {
    forall i, j | 0 <= i < j < |subs| :: subs[i].createdAt >= subs[j].createdAt
  }

  lemma SortSorts(subs: seq<Sub>)
    ensures NewestFirst(SortNewest(subs))
    ensures multiset(SortNewest(subs)) == multiset(subs)
    ensures |SortNewest(subs)| == |subs|
  {
    Sorting.SortSorts(subs, NEWER);
    var s := SortNewest(subs);
    forall i, j | 0 <= i < j < |s| ensures s[i].createdAt >= s[j].createdAt {
      assert !NEWER(s[j], s[i]);
    }
  }

  /** The new entry comes first, and what is cut off is older than everything kept. */
  lemma PushKeepsNewest(subs: seq<Sub>, sub: Sub)
    requires forall i | 0 <= i < |subs| :: subs[i].createdAt < sub.createdAt
    requires |subs| <= MAX_PUSH_SUBSCRIPTIONS
    ensures var kept := Pushed(subs, sub);
      && kept != [] && kept[0] == sub && |kept| <= MAX_PUSH_SUBSCRIPTIONS
      && (forall e | e in kept :: e == sub || e in subs)
      && (|subs| < MAX_PUSH_SUBSCRIPTIONS ==> forall i | 0 <= i < |subs| :: subs[i] in kept)
      && (forall i, j | 0 <= i < |subs| && subs[i] !in kept && 0 <= j < |kept| ::
            subs[i].createdAt <= kept[j].createdAt)
  {
    hide SortNewest;
    var all := subs + [sub];
    SortSorts(all);
    var sorted := SortNewest(all);
    assert sub in multiset(all) && sub in multiset(sorted);
    var at :| 0 <= at < |sorted| && sorted[at] == sub;
    assert sorted[0] in multiset(sorted) && sorted[0] in all;
    assert at == 0 || sorted[0].createdAt >= sub.createdAt;
    assert sorted[0] == sub;
    var kept := Pushed(subs, sub);
    forall e | e in kept ensures e == sub || e in subs {
      assert e in multiset(sorted) && e in all;
    }
    forall i | 0 <= i < |subs| && subs[i] !in kept
      ensures |subs| == MAX_PUSH_SUBSCRIPTIONS
      ensures forall j | 0 <= j < |kept| :: subs[i].createdAt <= kept[j].createdAt
    {
      assert subs[i] == all[i] && subs[i] in multiset(all) && subs[i] in multiset(sorted);
      assert forall m | 0 <= m < |kept| :: kept[m] == sorted[m];
      var k :| 0 <= k < |sorted| && sorted[k] == subs[i];
      assert k >= |kept|;
    }
  }

  lemma HoldsMember(a: seq<Sub>, b: seq<Sub>, e: string)
    requires forall x | x in a :: x in b
    ensures Holds(a, e) ==> Holds(b, e)
  {
    if i :| 0 <= i < |a| && a[i].endpoint == e {
      assert a[i] in b;
    }
  }

  lemma OneEntryPerEndpoint(subs: seq<Sub>, a: Sub, b: Sub)
    requires OncePerUser(subs) && a in subs && b in subs && a.endpoint == b.endpoint
    ensures a == b
  {
  }

  lemma FoundOnce(subs: seq<Sub>, a: Sub)
    requires OncePerUser(subs) && a in subs
    ensures multiset(subs)[a] == 1
  {
    var k :| 0 <= k < |subs| && subs[k] == a;
    assert subs == subs[..k] + [a] + subs[k + 1..];
    assert a !in subs[..k] && a !in subs[k + 1..];
  }

  /** The order of entries matters neither to what is held nor to its being held once. */
  lemma SortOnce(subs: seq<Sub>)
    ensures forall e :: Holds(SortNewest(subs), e) <==> Holds(subs, e)
    ensures OncePerUser(subs) ==> OncePerUser(SortNewest(subs))
  {
    SortSorts(subs);
    var s := SortNewest(subs);
    hide SortNewest;
    Sorting.SameMembers(s, subs);
    forall e ensures Holds(s, e) <==> Holds(subs, e) {
      HoldsMember(s, subs, e);
      HoldsMember(subs, s, e);
    }
    if OncePerUser(subs) {
      forall i, j | 0 <= i < j < |s| ensures s[i].endpoint != s[j].endpoint {
        if s[i].endpoint == s[j].endpoint {
          OneEntryPerEndpoint(subs, s[i], s[j]);
          Sorting.FoundTwice(s, i, j);
          FoundOnce(subs, s[i]);
        }
      }
    }
  }

  lemma PushOnce(subs: seq<Sub>, sub: Sub)
    requires OncePerUser(subs) && !Holds(subs, sub.endpoint)
    ensures OncePerUser(Pushed(subs, sub)) && |Pushed(subs, sub)| <= MAX_PUSH_SUBSCRIPTIONS
    ensures forall e :: Holds(Pushed(subs, sub), e) ==> e == sub.endpoint || Holds(subs, e)
  {
    hide SortNewest;
    var all := subs + [sub];
    assert OncePerUser(all);
    SortOnce(all);
    forall e | Holds(Pushed(subs, sub), e) ensures e == sub.endpoint || Holds(subs, e) {
      assert Holds(SortNewest(all), e);
      var i :| 0 <= i < |all| && all[i].endpoint == e;
      assert i < |subs| ==> subs[i].endpoint == e;
    }
  }

  // ----- Runs

  datatype Request = Request(user: nat, endpoint: string)

  /** Request `i` is stamped `times[i]`. */
  function Run(users: Users, requests: seq<Request>, times: seq<int>): Users
    requires |requests| == |times|
  {
    if requests == [] then users
    else
      var k := |requests| - 1;
      var before := Run(users, requests[..k], times[..k]);
      if requests[k].user in users
      then AfterSubscribe(before, requests[k].user, Sub(requests[k].endpoint, times[k])) else before
  }

  lemma OneSubscription(users: Users, user: nat, sub: Sub)
    requires Invariant(users) && user in users
    ensures Invariant(AfterSubscribe(users, user, sub))
    ensures AfterSubscribe(users, user, sub).Keys == users.Keys
  {
    hide Holds, OncePerUser, Without, Replaced, Pushed;
    var after := AfterSubscribe(users, user, sub);
    forall u | u in users
      ensures OncePerUser(after[u]) && |after[u]| <= MAX_PUSH_SUBSCRIPTIONS
      ensures forall e :: Holds(after[u], e) ==> if u == user then e == sub.endpoint || Holds(users[u], e)
                                                else e != sub.endpoint && Holds(users[u], e)
    {
      if u != user {
        WithoutFilters(users[u], sub.endpoint);
      } else if Holds(users[u], sub.endpoint) {
        ReplacedHolds(users[u], sub);
      } else {
        PushOnce(users[u], sub);
      }
    }
  }

  /** Over any sequence of subscriptions an endpoint is held once, by one user, and nobody holds more than six. */
  lemma {:induction false} SubscriptionsKeepInvariant(users: Users, requests: seq<Request>, times: seq<int>)
    requires Invariant(users) && |requests| == |times|
    ensures Invariant(Run(users, requests, times))
    ensures Run(users, requests, times).Keys == users.Keys
  {
    hide Invariant, AfterSubscribe;
    if requests != [] {
      var k := |requests| - 1;
      SubscriptionsKeepInvariant(users, requests[..k], times[..k]);
      if requests[k].user in users {
        OneSubscription(Run(users, requests[..k], times[..k]), requests[k].user, Sub(requests[k].endpoint, times[k]));
      }
    }
  }

  lemma {:induction false} ReplacedKeepsOthers(subs: seq<Sub>, sub: Sub)
    ensures forall i | 0 <= i < |subs| && subs[i].endpoint != sub.endpoint :: subs[i] in Replaced(subs, sub)
  {
    if subs != [] && subs[0].endpoint != sub.endpoint {
      var rest := subs[1..];
      ReplacedKeepsOthers(rest, sub);
      forall i | 0 <= i < |subs| && subs[i].endpoint != sub.endpoint ensures subs[i] in Replaced(subs, sub) {
        assert i > 0 ==> subs[i] == rest[i - 1] && rest[i - 1] in Replaced(rest, sub);
      }
    } else if subs != [] {
      forall i | 0 <= i < |subs| && subs[i].endpoint != sub.endpoint ensures subs[i] in Replaced(subs, sub) {
        assert Replaced(subs, sub)[i] == subs[i];
      }
    }
  }

  /**
   The subscription just made is kept beside entries held before. One of those is lost only when six
   were held and the endpoint is new, and then only one that is no newer than everything kept.
   */
  predicate KeepsNewest(before: seq<Sub>, after: seq<Sub>, sub: Sub) {
    && sub in after
    && |after| == (if Holds(before, sub.endpoint) || |before| == MAX_PUSH_SUBSCRIPTIONS then |before| else |before| + 1)
    && (forall i | 0 <= i < |after| :: after[i] == sub || (after[i] in before && after[i].endpoint != sub.endpoint))
    && (forall i | 0 <= i < |before| && before[i].endpoint != sub.endpoint && before[i] !in after ::
          && |before| == MAX_PUSH_SUBSCRIPTIONS && !Holds(before, sub.endpoint)
          && forall j | 0 <= j < |after| :: before[i].createdAt <= after[j].createdAt)
  }

  /** The entries are those of before without the ones of this endpoint. */
  predicate LosesOnly(before: seq<Sub>, after: seq<Sub>, endpoint: string) {
    && (forall i | 0 <= i < |after| :: after[i] in before && after[i].endpoint != endpoint)
    && (forall i | 0 <= i < |before| && before[i].endpoint != endpoint :: before[i] in after)
  }

  /** The user keeps the newest; others lose the endpoint alone. */
  ghost predicate KeepsLatest(users: Users, user: nat, sub: Sub)
    requires user in users
  {
    var after := AfterSubscribe(users, user, sub);
    && after.Keys == users.Keys
    && KeepsNewest(users[user], after[user], sub)
    && forall u | u in users && u != user :: LosesOnly(users[u], after[u], sub.endpoint)
  }

  lemma {:induction false} ReplacedFrom(subs: seq<Sub>, sub: Sub)
    ensures forall x | x in Replaced(subs, sub) :: x == sub || x in subs
  {
    if subs != [] && subs[0].endpoint != sub.endpoint {
      ReplacedFrom(subs[1..], sub);
    }
  }

  lemma ReplacedKeepsNewest(subs: seq<Sub>, sub: Sub)
    requires OncePerUser(subs) && |subs| <= MAX_PUSH_SUBSCRIPTIONS && Holds(subs, sub.endpoint)
    ensures KeepsNewest(subs, Replaced(subs, sub), sub)
  {
    hide Replaced;
    ReplacedHolds(subs, sub);
    ReplacedKeepsOthers(subs, sub);
    ReplacedFrom(subs, sub);
    var after := Replaced(subs, sub);
    forall i | 0 <= i < |after|
      ensures after[i] == sub || (after[i] in subs && after[i].endpoint != sub.endpoint)
    {
      assert after[i] in after;
      if after[i].endpoint == sub.endpoint {
        OneEntryPerEndpoint(after, after[i], sub);
      }
    }
  }

  lemma PushedKeepsNewest(subs: seq<Sub>, sub: Sub)
    requires |subs| <= MAX_PUSH_SUBSCRIPTIONS && !Holds(subs, sub.endpoint)
    requires forall i | 0 <= i < |subs| :: subs[i].createdAt < sub.createdAt
    ensures KeepsNewest(subs, Pushed(subs, sub), sub)
  {
    PushKeepsNewest(subs, sub);
    SortSorts(subs + [sub]);
    hide SortNewest;
    var after := Pushed(subs, sub);
    assert forall i | 0 <= i < |after| :: after[i] in after;
  }

  lemma {:induction false} WithoutLosesOnly(subs: seq<Sub>, endpoint: string)
    ensures LosesOnly(subs, Without(subs, endpoint), endpoint)
  {
    if subs != [] {
      WithoutLosesOnly(subs[1..], endpoint);
      assert subs == [subs[0]] + subs[1..];
      var rest := Without(subs[1..], endpoint);
      assert subs[0].endpoint == endpoint ==> Without(subs, endpoint) == rest;
      assert subs[0].endpoint != endpoint ==> Without(subs, endpoint) == [subs[0]] + rest;
    }
  }

  lemma LatestIsKeptOldestEvicted(users: Users, user: nat, sub: Sub)
    requires Invariant(users) && user in users
    requires forall i | 0 <= i < |users[user]| :: users[user][i].createdAt < sub.createdAt
    ensures KeepsLatest(users, user, sub)
  {
    hide Without, Replaced, Pushed, OncePerUser, KeepsNewest, LosesOnly;
    forall u | u in users && u != user
      ensures LosesOnly(users[u], AfterSubscribe(users, user, sub)[u], sub.endpoint)
    {
      WithoutLosesOnly(users[u], sub.endpoint);
    }
    if Holds(users[user], sub.endpoint) {
      ReplacedKeepsNewest(users[user], sub);
    } else {
      PushedKeepsNewest(users[user], sub);
    }
  }

  // ----- Whole runs, stamped by a clock that goes forward

  ghost predicate Older(users: Users, t: int) {
    forall u: nat, i: nat | u in users && i < |users[u]| :: users[u][i].createdAt < t
  }

  predicate Climbing(times: seq<int>) {
    forall i, j | 0 <= i < j < |times| :: times[i] < times[j]
  }

  lemma {:induction false} WithoutFrom(subs: seq<Sub>, endpoint: string)
    ensures forall x | x in Without(subs, endpoint) :: x in subs
  {
    if subs != [] {
      WithoutFrom(subs[1..], endpoint);
    }
  }

  lemma PushedFrom(subs: seq<Sub>, sub: Sub)
    ensures forall x | x in Pushed(subs, sub) :: x == sub || x in subs
  {
    SortSorts(subs + [sub]);
    hide SortNewest;
    Sorting.SameMembers(SortNewest(subs + [sub]), subs + [sub]);
    forall x | x in Pushed(subs, sub) ensures x == sub || x in subs {
      assert x in SortNewest(subs + [sub]);
    }
  }

  /** What is stored after a subscription was stored before, or is the new entry. */
  lemma StaysOlder(users: Users, user: nat, sub: Sub, t: int)
    requires user in users && Older(users, t) && sub.createdAt < t
    ensures Older(AfterSubscribe(users, user, sub), t)
  {
    hide Without, Replaced, Pushed, Holds;
    var after: Users := AfterSubscribe(users, user, sub);
    forall u: nat, i: nat | u in after && i < |after[u]|
      ensures after[u][i].createdAt < t
    {
      var x := after[u][i];
      assert x in after[u];
      WithoutFrom(users[u], sub.endpoint);
      ReplacedFrom(users[u], sub);
      PushedFrom(users[u], sub);
      assert x == sub || x in users[u];
    }
  }

  lemma {:induction false} RunStaysOlder(users: Users, requests: seq<Request>, times: seq<int>, t: int)
    requires Invariant(users) && |requests| == |times| && Older(users, t)
    requires forall i | 0 <= i < |times| :: times[i] < t
    ensures Older(Run(users, requests, times), t)
  {
    hide Older, AfterSubscribe, Invariant;
    if requests != [] {
      var k := |requests| - 1;
      RunStaysOlder(users, requests[..k], times[..k], t);
      SubscriptionsKeepInvariant(users, requests[..k], times[..k]);
      if requests[k].user in users {
        StaysOlder(Run(users, requests[..k], times[..k]), requests[k].user, Sub(requests[k].endpoint, times[k]), t);
      }
    }
  }

  lemma OlderLater(users: Users, s: int, t: int)
    requires Older(users, s) && s <= t
    ensures Older(users, t)
  {
  }

  /** In every run with a clock going forward, every request keeps its own entry and evicts only the oldest. */
  lemma EveryRequestKeepsLatest(users: Users, requests: seq<Request>, times: seq<int>, i: nat)
    requires Invariant(users) && |requests| == |times| && Climbing(times)
    requires i < |requests| && requests[i].user in users
    requires Older(users, times[0])
    ensures requests[i].user in Run(users, requests[..i], times[..i])
    ensures KeepsLatest(Run(users, requests[..i], times[..i]), requests[i].user, Sub(requests[i].endpoint, times[i]))
  {
    hide AfterSubscribe, KeepsLatest;
    var before := Run(users, requests[..i], times[..i]);
    SubscriptionsKeepInvariant(users, requests[..i], times[..i]);
    OlderLater(users, times[0], times[i]);
    RunStaysOlder(users, requests[..i], times[..i], times[i]);
    LatestIsKeptOldestEvicted(before, requests[i].user, Sub(requests[i].endpoint, times[i]));
  }
}
