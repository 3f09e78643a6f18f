/**
 Requests for invoices of one inquiry that overlap. A request looks for an open invoice, and creates
 one in a second operation; nothing in the database keeps two from existing.
 */
module InvoiceRequests {
  import opened Text
  import opened AftermarketInvoice

  /** What a request has found and is about to create. */
  datatype Job = Job(seen: seq<Payment>, lines: seq<LineRequest>, rate: Option<real>)

  datatype State = State(payments: seq<Payment>, looked: map<nat, Job>)

  datatype Move =
    | LookUp(id: nat, lines: seq<LineRequest>, rate: Option<real>)
    | Insert(id: nat)
    | Change(payment: nat, status: PaymentStatus)

  predicate Creates(job: Job) {
    Verdict(job.seen, job.lines, job.rate).None?
  }

  function Next(s: State, m: Move): State {
    match m
    case LookUp(id, lines, rate) => s.(looked := s.looked[id := Job(s.payments, lines, rate)])
    case Insert(id) =>
      if id !in s.looked then s
      else
        var job := s.looked[id];
        State(if Creates(job) then s.payments + [NewPayment(job.lines, job.rate)] else s.payments, s.looked - {id})
    case Change(k, status) => s.(payments := Step(s.payments, Settle(k, status)))
  }

  function After(s: State, moves: seq<Move>): State {
    if moves == [] then s else Next(After(s, moves[..|moves| - 1]), moves[|moves| - 1])
  }

  // ----- What each operation keeps

  /** Whatever overlaps, every invoice adds up to the cent. */
  predicate AllBalanced(payments: seq<Payment>) {
    forall i | 0 <= i < |payments| :: Balanced(payments[i])
  }

  predicate OneOpen(payments: seq<Payment>) {
    forall i, j | 0 <= i < j < |payments| :: !(Open(payments[i]) && Open(payments[j]))
  }

  /** A late creation leaves one open invoice exactly if none is open by then. */
  lemma LateCreateIsSoundExactlyWhen(payments: seq<Payment>, job: Job)
    requires OneOpen(payments) && Creates(job)
    ensures OneOpen(payments + [NewPayment(job.lines, job.rate)]) <==> !AnyOpen(payments)
  {
    hide Verdict, NormalizeAll, Subtotal, TaxAmount, Amount;
    var more := payments + [NewPayment(job.lines, job.rate)];
    assert Open(more[|payments|]);
    if k :| 0 <= k < |payments| && Open(payments[k]) {
      assert Open(more[k]);
    }
  }

  /** The creation finds no invoice that was opened since the look-up. */
  predicate InTime(s: State, m: Move) {
    m.Insert? && m.id in s.looked && Creates(s.looked[m.id]) ==> !AnyOpen(s.payments)
  }

  lemma NextIsSoundExactlyWhen(s: State, m: Move)
    requires OneOpen(s.payments)
    ensures OneOpen(Next(s, m).payments) <==> InTime(s, m)
  {
    hide NewPayment, Creates, AnyOpen;
    match m
    case LookUp(_, _, _) =>
    case Insert(id) =>
      if id in s.looked && Creates(s.looked[id]) {
        LateCreateIsSoundExactlyWhen(s.payments, s.looked[id]);
      }
    case Change(k, status) =>
  }

  lemma NextKeepsBalance(s: State, m: Move)
    requires AllBalanced(s.payments)
    ensures AllBalanced(Next(s, m).payments)
  {
    hide NewPayment, Balanced;
    match m
    case LookUp(_, _, _) =>
    case Insert(id) =>
      if id in s.looked && Creates(s.looked[id]) {
        NewPaymentIsBalanced(s.looked[id].lines, s.looked[id].rate);
      }
    case Change(k, status) =>
      if k < |s.payments| {
        StatusDoesNotMatter(s.payments[k], status);
      }
  }

  // ----- Whole runs

  lemma {:induction false} EveryInvoiceBalances(s: State, moves: seq<Move>)
    requires AllBalanced(s.payments)
    ensures AllBalanced(After(s, moves).payments)
  {
    hide AllBalanced, Next;
    if moves != [] {
      EveryInvoiceBalances(s, moves[..|moves| - 1]);
      NextKeepsBalance(After(s, moves[..|moves| - 1]), moves[|moves| - 1]);
    }
  }

  /** Before the run and after every step of it. */
  predicate AlwaysOneOpen(s: State, moves: seq<Move>) {
    OneOpen(After(s, moves).payments) && (moves != [] ==> AlwaysOneOpen(s, moves[..|moves| - 1]))
  }

  predicate AlwaysInTime(s: State, moves: seq<Move>) {
    moves != [] ==>
      && AlwaysInTime(s, moves[..|moves| - 1])
      && InTime(After(s, moves[..|moves| - 1]), moves[|moves| - 1])
  }

  /** At most one invoice is open all along exactly if every creation finds none opened since its look-up. */
  lemma {:induction false} OneOpenExactlyWhen(s: State, moves: seq<Move>)
    requires OneOpen(s.payments)
    ensures AlwaysOneOpen(s, moves) <==> AlwaysInTime(s, moves)
  {
    hide OneOpen, InTime, Next;
    if moves != [] {
      var front := moves[..|moves| - 1];
      OneOpenExactlyWhen(s, front);
      if AlwaysOneOpen(s, front) {
        assert OneOpen(After(s, front).payments);
        NextIsSoundExactlyWhen(After(s, front), moves[|moves| - 1]);
      }
    }
  }

  lemma AfterOneMore(s: State, moves: seq<Move>, m: Move)
    ensures After(s, moves + [m]) == Next(After(s, moves), m)
  {
    assert (moves + [m])[..|moves|] == moves;
  }

  lemma AfterNothing(s: State)
    ensures After(s, []) == s
  {
  }

  /** Two requests that both look before either creates open two invoices. */
  lemma TwoOverlappingInvoices(lines: seq<LineRequest>, rate: Option<real>)
    requires lines != [] && NewPayment(lines, rate).amount > 0.0
    ensures var moves := [LookUp(0, lines, rate)] + [LookUp(1, lines, rate)] + [Insert(0)] + [Insert(1)];
      var invoice := NewPayment(lines, rate);
      After(State([], map[]), moves).payments == [invoice, invoice] && Open(invoice)
  {
    hide NormalizeAll, Subtotal, TaxAmount, Amount, After;
    var s, job := State([], map[]), Job([], lines, rate);
    var look := [LookUp(0, lines, rate)];
    var both := look + [LookUp(1, lines, rate)];
    assert Creates(job);
    hide NewPayment, Creates;
    AfterNothing(s);
    AfterOneMore(s, [], LookUp(0, lines, rate));
    assert [] + look == look;
    AfterOneMore(s, look, LookUp(1, lines, rate));
    assert After(s, both) == State([], map[0 := job, 1 := job]);
    AfterOneMore(s, both, Insert(0));
    AfterOneMore(s, both + [Insert(0)], Insert(1));
  }
}
