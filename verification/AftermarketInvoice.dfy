/**
 Invoices for aftermarket inquiries: rounded lines, subtotal, tax and total, in exact arithmetic,
 and the guard that keeps one open invoice per inquiry.
 */
module AftermarketInvoice {

  import opened Text

  /** `Math.round`: halves go up, also below zero. */
  function Round(x: real): int {
    (x + 0.5).Floor
  }

  function ToCents(x: real): real {
    Round(x * 100.0) as real / 100.0
  }

  function Max0(x: real): real {
    if x > 0.0 then x else 0.0
  }

  function Abs(x: real): real {
    if x < 0.0 then -x else x
  }

  datatype Kind = Product | Fee | Charge | Discount

  /** A line of the request; None is a quantity or price that is no number. */
  datatype LineRequest = LineRequest(name: string, kind: Option<Kind>, quantity: Option<real>, unitPrice: Option<real>)

  datatype LineItem = LineItem(name: string, kind: Kind, quantity: real, unitPrice: real, lineTotal: real)

  function Unrounded(li: LineRequest): real {
    var raw := Max0(li.quantity.GetOr(0.0)) * li.unitPrice.GetOr(0.0);
    if li.kind == Some(Discount) then -Abs(raw) else raw
  }

  function Normalize(li: LineRequest): LineItem {
    LineItem(if Trim(li.name) == "" then "Item" else Trim(li.name),
             li.kind.GetOr(Product),
             Max0(li.quantity.GetOr(0.0)),
             li.unitPrice.GetOr(0.0),
             ToCents(Unrounded(li)))
  }

  function NormalizeAll(lines: seq<LineRequest>): seq<LineItem> {
    seq(|lines|, i requires 0 <= i < |lines| => Normalize(lines[i]))
  }

  function SumOfTotals(items: seq<LineItem>): real {
    if items == [] then 0.0 else SumOfTotals(items[..|items| - 1]) + items[|items| - 1].lineTotal
  }

  function SumUnrounded(lines: seq<LineRequest>): real {
    if lines == [] then 0.0 else SumUnrounded(lines[..|lines| - 1]) + Unrounded(lines[|lines| - 1])
  }

  function Subtotal(items: seq<LineItem>): real {
    ToCents(SumOfTotals(items))
  }

  /** `rate` is a percentage, so the hundredfold is what is rounded. */
  function PercentOf(x: real, rate: real): real {
    Round(x * rate) as real / 100.0
  }

  function TaxAmount(subtotal: real, rate: real): real {
    PercentOf(Max0(subtotal), rate)
  }

  function Amount(subtotal: real, tax: real): real {
    ToCents(subtotal + tax)
  }

  // ----- Whole cents

  predicate WholeCents(x: real) {
    x * 100.0 == (x * 100.0).Floor as real
  }

  lemma RoundIsNear(x: real)
    ensures x - 0.5 < Round(x) as real <= x + 0.5
    ensures x == x.Floor as real ==> Round(x) == x.Floor
  {
  }

  lemma ToCentsIsNear(x: real)
    ensures WholeCents(ToCents(x))
    ensures x - 0.005 < ToCents(x) <= x + 0.005
    ensures WholeCents(x) ==> ToCents(x) == x
  {
    hide Round;
    RoundIsNear(x * 100.0);
    var hundredfold := Round(x * 100.0) as real;
    assert ToCents(x) * 100.0 == hundredfold && hundredfold.Floor as real == hundredfold;
  }

  lemma WholeCentsAdd(x: real, y: real)
    requires WholeCents(x) && WholeCents(y)
    ensures WholeCents(x + y)
  {
    var sum := (x * 100.0).Floor + (y * 100.0).Floor;
    assert (x + y) * 100.0 == sum as real;
  }

  predicate AllWholeCents(items: seq<LineItem>) {
    forall i | 0 <= i < |items| :: WholeCents(items[i].lineTotal)
  }

  lemma ZeroIsWhole()
    ensures WholeCents(0.0)
  {
  }

  lemma {:induction false} SumIsWholeCents(items: seq<LineItem>)
    requires AllWholeCents(items)
    ensures WholeCents(SumOfTotals(items))
  {
    hide WholeCents;
    if items == [] {
      ZeroIsWhole();
    } else {
      SumIsWholeCents(items[..|items| - 1]);
      WholeCentsAdd(SumOfTotals(items[..|items| - 1]), items[|items| - 1].lineTotal);
    }
  }

  lemma LinesAreWholeCents(lines: seq<LineRequest>)
    ensures AllWholeCents(NormalizeAll(lines))
  {
    hide WholeCents, ToCents;
    forall i | 0 <= i < |lines|
      ensures WholeCents(NormalizeAll(lines)[i].lineTotal)
    {
      ToCentsIsNear(Unrounded(lines[i]));
    }
  }

  // ----- The totals

  /** Rounding the sum changes nothing: the subtotal is exactly the sum of the lines a customer sees. */
  lemma SubtotalIsSumOfLines(lines: seq<LineRequest>)
    ensures Subtotal(NormalizeAll(lines)) == SumOfTotals(NormalizeAll(lines))
  {
    hide WholeCents, ToCents;
    LinesAreWholeCents(lines);
    SumIsWholeCents(NormalizeAll(lines));
    ToCentsIsNear(SumOfTotals(NormalizeAll(lines)));
  }

  lemma {:induction false} SumIsNear(lines: seq<LineRequest>)
    ensures var error := SumOfTotals(NormalizeAll(lines)) - SumUnrounded(lines);
            && error <= 0.005 * |lines| as real
            && -0.005 * |lines| as real <= error
            && (lines != [] ==> -0.005 * |lines| as real < error)
  {
    hide ToCents, Unrounded;
    if lines != [] {
      var front := lines[..|lines| - 1];
      SumIsNear(front);
      ToCentsIsNear(Unrounded(lines[|lines| - 1]));
      assert NormalizeAll(lines)[..|lines| - 1] == NormalizeAll(front);
    }
  }

  /** n rounded lines are off by at most n half-cents, and downwards by less than that. */
  lemma SubtotalIsNear(lines: seq<LineRequest>)
    ensures var error := Subtotal(NormalizeAll(lines)) - SumUnrounded(lines);
            && error <= 0.005 * |lines| as real
            && (lines != [] ==> -0.005 * |lines| as real < error)
  {
    SubtotalIsSumOfLines(lines);
    SumIsNear(lines);
  }

  lemma PercentIsNear(x: real, rate: real)
    ensures WholeCents(PercentOf(x, rate))
    ensures x * rate / 100.0 - 0.005 < PercentOf(x, rate) <= x * rate / 100.0 + 0.005
  {
    var hundredfold := x * rate;
    RoundIsNear(hundredfold);
    assert PercentOf(x, rate) * 100.0 == Round(hundredfold) as real;
  }

  lemma TaxIsNear(subtotal: real, rate: real)
    ensures WholeCents(TaxAmount(subtotal, rate))
    ensures var exact := Max0(subtotal) * rate / 100.0;
            exact - 0.005 < TaxAmount(subtotal, rate) <= exact + 0.005
  {
    hide Max0, PercentOf, WholeCents;
    PercentIsNear(Max0(subtotal), rate);
  }

  /** The total is exactly subtotal plus tax. */
  lemma AmountIsSum(lines: seq<LineRequest>, rate: real)
    ensures var subtotal := Subtotal(NormalizeAll(lines));
            var tax := TaxAmount(subtotal, rate);
            Amount(subtotal, tax) == subtotal + tax
  {
    hide WholeCents, ToCents, TaxAmount;
    var subtotal := Subtotal(NormalizeAll(lines));
    ToCentsIsNear(SumOfTotals(NormalizeAll(lines)));
    TaxIsNear(subtotal, rate);
    WholeCentsAdd(subtotal, TaxAmount(subtotal, rate));
    ToCentsIsNear(subtotal + TaxAmount(subtotal, rate));
  }

  lemma SubtotalIsWhole(lines: seq<LineRequest>)
    ensures WholeCents(Subtotal(NormalizeAll(lines)))
  {
    ToCentsIsNear(SumOfTotals(NormalizeAll(lines)));
  }

  lemma PercentIsHundredths(x: real, rate: real)
    ensures PercentOf(x, rate) * 100.0 == (x * rate + 0.5).Floor as real
    ensures x == 0.0 ==> PercentOf(x, rate) == 0.0
  {
  }

  lemma AtLeast(x: real, n: int)
    ensures x.Floor >= n <==> x >= n as real
  {
    if x.Floor < n {
      assert (x.Floor + 1) as real <= n as real;
    }
  }

  lemma Distribute(x: real, y: real, z: real)
    ensures x * (y + z) == x * y + x * z
  {
  }

  lemma TaxedExactlyWhen(subtotal: real, rate: real)
    requires WholeCents(subtotal)
    ensures subtotal + TaxAmount(subtotal, rate) > 0.0 <==> subtotal > 0.0 && subtotal * (100.0 + rate) >= 0.5
  {
    hide PercentOf;
    if subtotal > 0.0 {
      Distribute(subtotal, 100.0, rate);
      AtLeast(subtotal * rate + 0.5, 1 - (subtotal * 100.0).Floor);
      PercentIsHundredths(subtotal, rate);
    } else {
      PercentIsHundredths(0.0, rate);
    }
  }

  /** A total is accepted exactly when the subtotal is positive and a negative rate leaves half a cent of it. */
  lemma PositiveExactlyWhen(lines: seq<LineRequest>, rate: real)
    ensures var subtotal := Subtotal(NormalizeAll(lines));
            Amount(subtotal, TaxAmount(subtotal, rate)) > 0.0 <==> subtotal > 0.0 && subtotal * (100.0 + rate) >= 0.5
  {
    hide ToCents, Amount, Subtotal;
    var subtotal := Subtotal(NormalizeAll(lines));
    AmountIsSum(lines, rate);
    assert WholeCents(subtotal) by {
      SubtotalIsWhole(lines);
    }
    TaxedExactlyWhen(subtotal, rate);
  }

  /** Whatever the tax rate, nothing is invoiced on an empty or negative subtotal. */
  lemma AcceptedHasPositiveSubtotal(lines: seq<LineRequest>, rate: real)
    requires var subtotal := Subtotal(NormalizeAll(lines)); Amount(subtotal, TaxAmount(subtotal, rate)) > 0.0
    ensures Subtotal(NormalizeAll(lines)) > 0.0
    ensures SumUnrounded(lines) > -0.005 * |lines| as real
  {
    PositiveExactlyWhen(lines, rate);
    SubtotalIsNear(lines);
  }

  /** A discount of the same value takes a line off to the cent, unless the value ends in half a cent. */
  lemma DiscountCancelsExactlyWhen(x: real)
    ensures ToCents(x) + ToCents(-x) == 0.0 <==> x * 100.0 + 0.5 != (x * 100.0 + 0.5).Floor as real
    ensures ToCents(x) + ToCents(-x) == 0.0 || ToCents(x) + ToCents(-x) == 0.01
  {
    var y := x * 100.0;
    assert (-x) * 100.0 == -y;
    assert Round(y) as real - 0.5 <= y < Round(y) as real + 0.5;
    assert Round(-y) == if y + 0.5 == (y + 0.5).Floor as real then 1 - Round(y) else -Round(y);
  }

  /** One more line changes the subtotal by that line's own amount. */
  lemma OneMoreLine(lines: seq<LineRequest>, li: LineRequest)
    ensures Subtotal(NormalizeAll(lines + [li])) == Subtotal(NormalizeAll(lines)) + ToCents(Unrounded(li))
  {
    hide ToCents, Unrounded;
    SubtotalIsSumOfLines(lines);
    SubtotalIsSumOfLines(lines + [li]);
    assert NormalizeAll(lines + [li])[..|lines|] == NormalizeAll(lines);
  }

  lemma ProductSign(x: real, y: real)
    ensures x >= 0.0 && y >= 0.0 ==> x * y >= 0.0
    ensures x == 0.0 ==> x * y == 0.0
  {
  }

  lemma UnroundedSign(li: LineRequest)
    ensures li.kind == Some(Discount) ==> Unrounded(li) <= 0.0
    ensures li.quantity.None? || li.quantity.value <= 0.0 ==> Unrounded(li) == 0.0
    ensures li.kind != Some(Discount) && li.quantity.GetOr(0.0) >= 0.0 && li.unitPrice.GetOr(0.0) >= 0.0 ==>
      Unrounded(li) >= 0.0
  {
    ProductSign(Max0(li.quantity.GetOr(0.0)), li.unitPrice.GetOr(0.0));
  }

  lemma CentsKeepSign(x: real)
    ensures x <= 0.0 ==> ToCents(x) <= 0.0
    ensures x >= 0.0 ==> ToCents(x) >= 0.0
  {
  }

  /** A discount never raises the subtotal, whatever the sign of its price; nothing is charged for no quantity. */
  lemma DiscountsNeverRaise(lines: seq<LineRequest>, li: LineRequest)
    ensures li.kind == Some(Discount) ==> Subtotal(NormalizeAll(lines + [li])) <= Subtotal(NormalizeAll(lines))
    ensures li.quantity.None? || li.quantity.value <= 0.0 ==>
      Subtotal(NormalizeAll(lines + [li])) == Subtotal(NormalizeAll(lines))
    ensures li.kind != Some(Discount) && li.quantity.GetOr(0.0) >= 0.0 && li.unitPrice.GetOr(0.0) >= 0.0 ==>
      Subtotal(NormalizeAll(lines + [li])) >= Subtotal(NormalizeAll(lines))
  {
    hide Subtotal, NormalizeAll;
    OneMoreLine(lines, li);
    UnroundedSign(li);
    CentsKeepSign(Unrounded(li));
  }

  // ----- One open invoice per inquiry

  datatype PaymentStatus = Pending | Processing | Succeeded | Failed | Refunded | Cancelled

  datatype Payment = Payment(
    lineItems: seq<LineItem>, subtotal: real, taxRate: real, taxAmount: real, amount: real, status: PaymentStatus)

  datatype Refusal = NoLineItems | InvoiceExists | TotalNotPositive

  predicate Open(p: Payment) {
    p.status != Cancelled && p.status != Failed
  }

  predicate AnyOpen(payments: seq<Payment>) {
    exists i | 0 <= i < |payments| :: Open(payments[i])
  }

  function NewPayment(lines: seq<LineRequest>, rate: Option<real>): Payment {
    var items := NormalizeAll(lines);
    var subtotal := Subtotal(items);
    var tax := TaxAmount(subtotal, rate.GetOr(0.0));
    Payment(items, subtotal, rate.GetOr(0.0), tax, Amount(subtotal, tax), Pending)
  }

  function Verdict(payments: seq<Payment>, lines: seq<LineRequest>, rate: Option<real>): Option<Refusal> {
    if lines == [] then Some(NoLineItems)
    else if AnyOpen(payments) then Some(InvoiceExists)
    else if NewPayment(lines, rate).amount <= 0.0 then Some(TotalNotPositive)
    else None
  }

  function Created(payments: seq<Payment>, lines: seq<LineRequest>, rate: Option<real>): seq<Payment> {
    if Verdict(payments, lines, rate).None? then payments + [NewPayment(lines, rate)] else payments
  }

  lemma OpenExactlyWhen(payments: seq<Payment>)
    ensures AnyOpen(payments) <==> exists p | p in payments :: p.status in {Pending, Processing, Succeeded, Refunded}
  {
    if p :| p in payments && p.status in {Pending, Processing, Succeeded, Refunded} {
      var i :| 0 <= i < |payments| && payments[i] == p;
      assert Open(payments[i]);
    }
    if i :| 0 <= i < |payments| && Open(payments[i]) {
      assert payments[i] in payments;
    }
  }

  /** Within half a cent: rounded to whole cents, halves up. */
  predicate RoundedTo(x: real, exact: real) {
    WholeCents(x) && exact - 0.005 < x <= exact + 0.005
  }

  /** So many per cent of an amount. */
  function Share(x: real, percent: real): real {
    x * percent / 100.0
  }

  /** The line as it is stored, told from what was asked for. */
  predicate IsLineFor(item: LineItem, li: LineRequest) {
    var asked := if li.quantity.Some? && li.quantity.value > 0.0 then li.quantity.value else 0.0;
    var price := if li.unitPrice.Some? then li.unitPrice.value else 0.0;
    var value := asked * price;
    && item.quantity == asked && item.unitPrice == price
    && item.kind == (if li.kind.Some? then li.kind.value else Product)
    && item.name == (if Trim(li.name) != "" then Trim(li.name) else "Item")
    && RoundedTo(item.lineTotal, if item.kind == Discount && value > 0.0 then -value else value)
  }

  /** The invoice as it is stored: every line in order, their sum, the tax on it, and the total. */
  predicate IsInvoiceFor(p: Payment, lines: seq<LineRequest>, rate: real) {
    && |p.lineItems| == |lines| && (forall i | 0 <= i < |lines| :: IsLineFor(p.lineItems[i], lines[i]))
    && p.subtotal == SumOfTotals(p.lineItems)
    && p.taxRate == rate && RoundedTo(p.taxAmount, Share(p.subtotal, rate))
    && p.amount == p.subtotal + p.taxAmount && p.amount > 0.0
    && p.status == Pending
  }

  lemma LineIsRight(li: LineRequest)
    ensures IsLineFor(Normalize(li), li)
  {
    ToCentsIsNear(Unrounded(li));
    hide ToCents, WholeCents;
  }

  lemma LinesAreRight(lines: seq<LineRequest>)
    ensures |NormalizeAll(lines)| == |lines|
    ensures forall i | 0 <= i < |lines| :: IsLineFor(NormalizeAll(lines)[i], lines[i])
  {
    hide Normalize, IsLineFor;
    forall i | 0 <= i < |lines|
      ensures IsLineFor(NormalizeAll(lines)[i], lines[i])
    {
      LineIsRight(lines[i]);
    }
  }

  lemma TaxIsRight(subtotal: real, rate: real)
    requires subtotal > 0.0
    ensures RoundedTo(TaxAmount(subtotal, rate), Share(subtotal, rate))
  {
    hide PercentOf, WholeCents;
    PercentIsNear(subtotal, rate);
  }

  /** Less than half a cent would be left of the total. */
  predicate TooLittle(subtotal: real, rate: real) {
    subtotal <= 0.0 || subtotal * (100.0 + rate) < 0.5
  }

  lemma NothingDueExactlyWhen(lines: seq<LineRequest>, rate: Option<real>)
    ensures NewPayment(lines, rate).amount <= 0.0 <==> TooLittle(SumOfTotals(NormalizeAll(lines)), rate.GetOr(0.0))
  {
    SubtotalIsSumOfLines(lines);
    PositiveExactlyWhen(lines, rate.GetOr(0.0));
    hide NormalizeAll, Subtotal, TaxAmount, Amount, SumOfTotals;
  }

  /** What a stored invoice keeps, whatever happens to its status. */
  predicate Balanced(p: Payment) {
    && p.subtotal == SumOfTotals(p.lineItems)
    && p.amount == p.subtotal + p.taxAmount
    && p.amount > 0.0
    && p.subtotal > 0.0
  }

  lemma NewPaymentIsBalanced(lines: seq<LineRequest>, rate: Option<real>)
    requires NewPayment(lines, rate).amount > 0.0
    ensures Balanced(NewPayment(lines, rate))
  {
    hide NormalizeAll, Subtotal, TaxAmount, Amount, SumOfTotals;
    SubtotalIsSumOfLines(lines);
    AmountIsSum(lines, rate.GetOr(0.0));
    AcceptedHasPositiveSubtotal(lines, rate.GetOr(0.0));
  }

  lemma NewPaymentIsRight(lines: seq<LineRequest>, rate: Option<real>)
    requires NewPayment(lines, rate).amount > 0.0
    ensures IsInvoiceFor(NewPayment(lines, rate), lines, rate.GetOr(0.0))
  {
    hide NormalizeAll, Subtotal, TaxAmount, Amount, SumOfTotals, IsLineFor, RoundedTo, Share;
    LinesAreRight(lines);
    NewPaymentIsBalanced(lines, rate);
    TaxIsRight(Subtotal(NormalizeAll(lines)), rate.GetOr(0.0));
  }

  class AftermarketInquiry {
    var answered: bool
    var payments: seq<Payment>

    method CreateInvoice(lines: seq<LineRequest>, taxRate: Option<real>) returns (refusal: Option<Refusal>)
      modifies this
      ensures refusal == Some(NoLineItems) <==> lines == []
      ensures refusal == Some(InvoiceExists) <==> lines != [] && exists p | p in old(payments) ::
        p.status in {Pending, Processing, Succeeded, Refunded}
      ensures refusal == Some(TotalNotPositive) <==>
        && lines != [] && refusal != Some(InvoiceExists)
        && TooLittle(SumOfTotals(NormalizeAll(lines)), taxRate.GetOr(0.0))
      ensures refusal.Some? ==> payments == old(payments) && answered == old(answered)
      ensures refusal.None? ==>
        && answered && |payments| == |old(payments)| + 1 && payments[..|old(payments)|] == old(payments)
        && IsInvoiceFor(payments[|old(payments)|], lines, taxRate.GetOr(0.0))
      ensures refusal == Verdict(old(payments), lines, taxRate)
      ensures payments == Created(old(payments), lines, taxRate)
      ensures answered == (old(answered) || refusal.None?)
    {
      OpenExactlyWhen(payments);
      NothingDueExactlyWhen(lines, taxRate);
      hide NormalizeAll, Subtotal, TaxAmount, Amount, IsInvoiceFor, AnyOpen, SumOfTotals, TooLittle;
      if NewPayment(lines, taxRate).amount > 0.0 {
        NewPaymentIsRight(lines, taxRate);
      }
      if lines == [] {
        return Some(NoLineItems);
      }
      if AnyOpen(payments) {
        return Some(InvoiceExists);
      }
      var items := NormalizeAll(lines);
      var subtotal := Subtotal(items);
      var tax := TaxAmount(subtotal, taxRate.GetOr(0.0));
      var amount := Amount(subtotal, tax);
      if amount <= 0.0 {
        return Some(TotalNotPositive);
      }
      payments := payments + [Payment(items, subtotal, taxRate.GetOr(0.0), tax, amount, Pending)];
      answered := true;
      refusal := None;
    }
  }

  predicate Sound(payments: seq<Payment>) {
    && (forall i | 0 <= i < |payments| :: Balanced(payments[i]))
    && (forall i, j | 0 <= i < j < |payments| :: !(Open(payments[i]) && Open(payments[j])))
  }

  /** Requests for an invoice, and payments that are paid, cancelled or fail; neither of the last two is undone. */
  datatype Event = Create(lines: seq<LineRequest>, rate: Option<real>) | Settle(payment: nat, status: PaymentStatus)

  function Step(payments: seq<Payment>, e: Event): seq<Payment> {
    match e
    case Create(lines, rate) => Created(payments, lines, rate)
    case Settle(k, status) =>
      if k < |payments| && Open(payments[k]) then payments[k := payments[k].(status := status)] else payments
  }

  function Run(payments: seq<Payment>, events: seq<Event>): seq<Payment> {
    if events == [] then payments else Step(Run(payments, events[..|events| - 1]), events[|events| - 1])
  }

  lemma StatusDoesNotMatter(p: Payment, status: PaymentStatus)
    requires Balanced(p)
    ensures Balanced(p.(status := status))
  {
  }

  lemma StepKeepsInvoices(payments: seq<Payment>, e: Event)
    requires Sound(payments)
    ensures Sound(Step(payments, e))
  {
    hide NewPayment, Balanced;
    match e
    case Create(lines, rate) =>
      if Verdict(payments, lines, rate).None? {
        NewPaymentIsBalanced(lines, rate);
      }
    case Settle(k, status) =>
      if k < |payments| {
        assert Balanced(payments[k].(status := status)) by {
          StatusDoesNotMatter(payments[k], status);
        }
      }
  }

  /** Request after request, at most one invoice is open and every invoice adds up to the cent. */
  lemma {:induction false} OneOpenInvoice(payments: seq<Payment>, events: seq<Event>)
    requires Sound(payments)
    ensures Sound(Run(payments, events))
  {
    hide Sound, Step;
    if events != [] {
      OneOpenInvoice(payments, events[..|events| - 1]);
      StepKeepsInvoices(Run(payments, events[..|events| - 1]), events[|events| - 1]);
    }
  }
}
