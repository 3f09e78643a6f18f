/**
 Subscriptions that overlap. A request pulls the endpoint from other users, replaces it in its own list
 and pushes it there, in separate updates, each of which looks at one user's list alone.
 */
module PushRuns {
  import opened PushSubscriptions

  datatype Event =
    | Pull(from: set<nat>, endpoint: string)   // from some of the other users
    | Replace(user: nat, sub: Sub)
    | Push(user: nat, sub: Sub)

  function Pulled(users: Users, from: set<nat>, endpoint: string): Users {
    map u | u in users :: if u in from then Without(users[u], endpoint) else users[u]
  }

  function Step(users: Users, e: Event): Users {
    match e
    case Pull(from, endpoint) => Pulled(users, from, endpoint)
    case Replace(user, sub) =>
      if user in users && Holds(users[user], sub.endpoint) then users[user := Replaced(users[user], sub)] else users
    case Push(user, sub) =>
      if user in users && !Holds(users[user], sub.endpoint) then users[user := Pushed(users[user], sub)] else users
  }

  function After(users: Users, events: seq<Event>): Users {
    if events == [] then users else Step(After(users, events[..|events| - 1]), events[|events| - 1])
  }

  /** The three updates of one request in a row are a subscription. */
  lemma AloneIsSubscribe(users: Users, user: nat, sub: Sub)
    requires user in users
    ensures var pulled := Step(users, Pull(users.Keys - {user}, sub.endpoint));
      Step(Step(pulled, Replace(user, sub)), Push(user, sub)) == AfterSubscribe(users, user, sub)
  {
    hide Holds, Replaced, Pushed, Without, OncePerUser;
    var pulled := Step(users, Pull(users.Keys - {user}, sub.endpoint));
    assert pulled[user] == users[user];
    if Holds(users[user], sub.endpoint) {
      ReplacedHolds(users[user], sub);
    }
  }

  // ----- Each update, exactly

  /** Every list holds an endpoint once, and six at most. */
  ghost predicate ListsAreFine(users: Users) {
    forall u | u in users :: OncePerUser(users[u]) && |users[u]| <= MAX_PUSH_SUBSCRIPTIONS
  }

  predicate Disjoint(a: seq<Sub>, b: seq<Sub>) {
    forall i | 0 <= i < |a| :: !Holds(b, a[i].endpoint)
  }

  predicate OneHolder(users: Users) {
    forall u, v | u in users && v in users && u != v :: Disjoint(users[u], users[v])
  }

  lemma DisjointExactlyWhen(a: seq<Sub>, b: seq<Sub>)
    ensures Disjoint(a, b) <==> forall e :: !(Holds(a, e) && Holds(b, e))
  {
    if !Disjoint(a, b) {
      var i :| 0 <= i < |a| && Holds(b, a[i].endpoint);
      assert Holds(a, a[i].endpoint);
    } else {
      forall e ensures !(Holds(a, e) && Holds(b, e)) {
      }
    }
  }

  lemma StepKeepsLists(users: Users, e: Event)
    requires ListsAreFine(users)
    ensures ListsAreFine(Step(users, e))
  {
    hide OncePerUser, Holds, Without, Replaced, Pushed;
    match e
    case Pull(from, endpoint) =>
      forall u | u in users ensures OncePerUser(Step(users, e)[u]) && |Step(users, e)[u]| <= MAX_PUSH_SUBSCRIPTIONS {
        WithoutFilters(users[u], endpoint);
      }
    case Replace(user, sub) =>
      if user in users && Holds(users[user], sub.endpoint) {
        ReplacedHolds(users[user], sub);
      }
    case Push(user, sub) =>
      if user in users && !Holds(users[user], sub.endpoint) {
        PushOnce(users[user], sub);
      }
  }

  /** What is pushed, if it stays among the six newest, is held by nobody else. */
  predicate InTurn(users: Users, e: Event) {
    e.Push? && e.user in users && !Holds(users[e.user], e.sub.endpoint)
    && Holds(Pushed(users[e.user], e.sub), e.sub.endpoint)
    ==> forall u | u in users && u != e.user :: !Holds(users[u], e.sub.endpoint)
  }

  lemma LessStaysDisjoint(users: Users, after: Users)
    requires OneHolder(users) && after.Keys <= users.Keys
    requires forall u, x | u in after && Holds(after[u], x) :: Holds(users[u], x)
    ensures OneHolder(after)
  {
    hide Holds;
    forall u, v | u in after && v in after && u != v ensures Disjoint(after[u], after[v]) {
      DisjointExactlyWhen(users[u], users[v]);
      DisjointExactlyWhen(after[u], after[v]);
    }
  }

  lemma PushKeepsOneHolderExactlyWhen(users: Users, user: nat, sub: Sub)
    requires ListsAreFine(users) && OneHolder(users) && user in users && !Holds(users[user], sub.endpoint)
    ensures OneHolder(Step(users, Push(user, sub))) <==> InTurn(users, Push(user, sub))
  {
    hide OncePerUser, Holds, Pushed, Disjoint;
    var after := Step(users, Push(user, sub));
    PushOnce(users[user], sub);
    if InTurn(users, Push(user, sub)) {
      forall u, v | u in after && v in after && u != v ensures Disjoint(after[u], after[v]) {
        DisjointExactlyWhen(users[u], users[v]);
        DisjointExactlyWhen(after[u], after[v]);
      }
    } else {
      var v :| v in users && v != user && Holds(users[v], sub.endpoint);
      DisjointExactlyWhen(after[user], after[v]);
    }
  }

  lemma StepKeepsOneHolderExactlyWhen(users: Users, e: Event)
    requires ListsAreFine(users) && OneHolder(users)
    ensures OneHolder(Step(users, e)) <==> InTurn(users, e)
  {
    hide OncePerUser, Holds, Without, Replaced, Pushed, Disjoint, OneHolder;
    match e
    case Pull(from, endpoint) =>
      forall u, x | u in users && Holds(Step(users, e)[u], x) ensures Holds(users[u], x) {
        WithoutFilters(users[u], endpoint);
      }
      LessStaysDisjoint(users, Step(users, e));
    case Replace(user, sub) =>
      if user in users && Holds(users[user], sub.endpoint) {
        ReplacedHolds(users[user], sub);
        LessStaysDisjoint(users, Step(users, e));
      }
    case Push(user, sub) =>
      if user in users && !Holds(users[user], sub.endpoint) {
        PushKeepsOneHolderExactlyWhen(users, user, sub);
      }
  }

  // ----- Whole runs

  /** Before the run and after every update of it. */
  predicate AlwaysOneHolder(users: Users, events: seq<Event>) {
    OneHolder(After(users, events)) && (events != [] ==> AlwaysOneHolder(users, events[..|events| - 1]))
  }

  predicate AlwaysInTurn(users: Users, events: seq<Event>) {
    events != [] ==>
      && AlwaysInTurn(users, events[..|events| - 1])
      && InTurn(After(users, events[..|events| - 1]), events[|events| - 1])
  }

  lemma {:induction false} RunKeepsLists(users: Users, events: seq<Event>)
    requires ListsAreFine(users)
    ensures ListsAreFine(After(users, events))
  {
    hide ListsAreFine, Step;
    if events != [] {
      RunKeepsLists(users, events[..|events| - 1]);
      StepKeepsLists(After(users, events[..|events| - 1]), events[|events| - 1]);
    }
  }

  /** However requests overlap, an endpoint has one holder all along exactly if every push finds no other holder. */
  lemma {:induction false} OneHolderExactlyWhen(users: Users, events: seq<Event>)
    requires ListsAreFine(users) && OneHolder(users)
    ensures AlwaysOneHolder(users, events) <==> AlwaysInTurn(users, events)
  {
    hide ListsAreFine, OneHolder, InTurn, Step;
    if events != [] {
      var front := events[..|events| - 1];
      OneHolderExactlyWhen(users, front);
      RunKeepsLists(users, front);
      if AlwaysOneHolder(users, front) {
        assert OneHolder(After(users, front));
        StepKeepsOneHolderExactlyWhen(After(users, front), events[|events| - 1]);
      }
    }
  }
}
