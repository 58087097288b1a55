/** The order (`commande`) record the order pages, the charts and the statistics cards
    share, its validation status as those pages read it, the tallies and sums they show,
    and the local update that records a validation on some orders. */
module Orders {
  import opened Wrappers
  import Seqs

  /** The two review decisions: `'valide' | 'refuse'`. */
  datatype Action = Valide | Refuse

  /** The status string an action writes into `statut_validation`. */
  function ActionName(a: Action): string
  {
    match a
    case Valide => "valide"
    case Refuse => "refuse"
  }

  /** The fields of a `Commande` row that the modelled code reads or writes. Nullable
      columns are options; `created_at` stays the text the database returns. */
  datatype Order = Order(
    id: string,
    idOrder: Option<string>,
    publisherShopName: Option<string>,
    publisherId: Option<int>,
    shopId: Option<string>,
    statutValidation: Option<string>,
    dateValidation: Option<string>,
    montantTotal: Option<real>,
    montantCommission: Option<real>,
    createdAt: string,
    lapseTime: Option<int>)

  /** `!statut_validation`: no status, or the empty string. */
  predicate IsFalsy(s: Option<string>)
  {
    s.None? || s.value == ""
  }

  predicate IsValidated(o: Order)
  {
    o.statutValidation == Some("valide")
  }

  predicate IsRefused(o: Order)
  {
    o.statutValidation == Some("refuse")
  }

  predicate IsPending(o: Order)
  {
    IsFalsy(o.statutValidation)
  }

  /** A status that is none of the three the pages count. */
  predicate HasOtherStatus(o: Order)
  {
    !IsValidated(o) && !IsRefused(o) && !IsPending(o)
  }

  function ValidatedCount(orders: seq<Order>): nat
  {
    |Seqs.Filter(orders, IsValidated)|
  }

  function RefusedCount(orders: seq<Order>): nat
  {
    |Seqs.Filter(orders, IsRefused)|
  }

  function PendingCount(orders: seq<Order>): nat
  {
    |Seqs.Filter(orders, IsPending)|
  }

  function OtherCount(orders: seq<Order>): nat
  {
    |Seqs.Filter(orders, HasOtherStatus)|
  }

  /** Every order falls in exactly one of the four status classes, so the four counts
      add up to the number of orders. */
  lemma {:induction false} StatusPartition(orders: seq<Order>)
    ensures ValidatedCount(orders) + RefusedCount(orders) + PendingCount(orders) + OtherCount(orders)
            == |orders|
  {
    if orders != [] {
      StatusPartition(orders[1..]);
    }
  }

  /** The three counted classes cover every order exactly when no order carries another
      status; otherwise their sum falls short of the total. */
  lemma CountsCoverAll(orders: seq<Order>)
    ensures ValidatedCount(orders) + RefusedCount(orders) + PendingCount(orders) <= |orders|
    ensures (ValidatedCount(orders) + RefusedCount(orders) + PendingCount(orders) == |orders|)
            <==> (forall i :: 0 <= i < |orders| ==> !HasOtherStatus(orders[i]))
  {
    StatusPartition(orders);
    var others := Seqs.Filter(orders, HasOtherStatus);
    if others != [] {
      assert others[0] in orders;
    }
    if exists i :: 0 <= i < |orders| && HasOtherStatus(orders[i]) {
      var i :| 0 <= i < |orders| && HasOtherStatus(orders[i]);
      assert orders[i] in others;
    }
  }

  /** `x || 0` on a nullable amount. */
  function OrZero(x: Option<real>): real
  {
    if x.Some? then x.value else 0.0
  }

  /** The `montant_total` column with missing values read as 0. */
  function Amounts(orders: seq<Order>): (r: seq<real>)
    ensures |r| == |orders|
  {
    seq(|orders|, i requires 0 <= i < |orders| => OrZero(orders[i].montantTotal))
  }

  /** The `montant_commission` column with missing values read as 0. */
  function Commissions(orders: seq<Order>): (r: seq<real>)
    ensures |r| == |orders|
  {
    seq(|orders|, i requires 0 <= i < |orders| => OrZero(orders[i].montantCommission))
  }

  /** `reduce((sum, c) => sum + (c.montant_total || 0), 0)`. */
  function AmountTotal(orders: seq<Order>): real
  {
    Seqs.Sum(Amounts(orders))
  }

  /** `reduce((sum, c) => sum + (c.montant_commission || 0), 0)`. */
  function CommissionTotal(orders: seq<Order>): real
  {
    Seqs.Sum(Commissions(orders))
  }

  predicate HasAmount(o: Order)
  {
    o.montantTotal.Some?
  }

  /** The total of a list is its first amount plus the total of the rest. */
  lemma AmountTotalCons(o: Order, rest: seq<Order>)
    ensures AmountTotal([o] + rest) == OrZero(o.montantTotal) + AmountTotal(rest)
  {
    assert Amounts([o] + rest) == [OrZero(o.montantTotal)] + Amounts(rest);
    Seqs.SumAppend([OrZero(o.montantTotal)], Amounts(rest));
    assert Seqs.Sum([OrZero(o.montantTotal)]) == OrZero(o.montantTotal) by {
      assert [OrZero(o.montantTotal)][..0] == [];
    }
  }

  /** Orders without an amount contribute nothing: the total is the same as over the
      orders that have one. */
  lemma {:induction false} AmountTotalOfKnown(orders: seq<Order>)
    ensures AmountTotal(orders) == AmountTotal(Seqs.Filter(orders, HasAmount))
  {
    if orders != [] {
      var o, rest := orders[0], orders[1..];
      AmountTotalOfKnown(rest);
      assert orders == [o] + rest;
      AmountTotalCons(o, rest);
      if HasAmount(o) {
        AmountTotalCons(o, Seqs.Filter(rest, HasAmount));
      }
    }
  }

  /** `orders.map(c => c.id)`. */
  function Ids(orders: seq<Order>): (r: seq<string>)
    ensures |r| == |orders|
    ensures forall i :: 0 <= i < |orders| ==> r[i] == orders[i].id
  {
    seq(|orders|, i requires 0 <= i < |orders| => orders[i].id)
  }

  /** The order with `statut_validation` and `date_validation` set, other fields kept. */
  function WithStatus(o: Order, status: string, date: string): Order
  {
    o.(statutValidation := Some(status), dateValidation := Some(date))
  }

  /** The local update after a successful validation: every order whose id is among
      `ids` gets the status and the validation date `date`; the others are left as they
      are, and the list keeps its length and order. */
  function SetStatus(orders: seq<Order>, ids: seq<string>, status: string, date: string): (r: seq<Order>)
    ensures |r| == |orders|
    ensures Ids(r) == Ids(orders)
  {
    var r := seq(|orders|, i requires 0 <= i < |orders| =>
                   if orders[i].id in ids then WithStatus(orders[i], status, date) else orders[i]);
    assert Ids(r) == Ids(orders);
    r
  }

  /** Only the targeted orders change, and only in their status and validation date. */
  lemma SetStatusOnlyTargets(orders: seq<Order>, ids: seq<string>, status: string, date: string, i: int)
    requires 0 <= i < |orders|
    ensures orders[i].id !in ids ==> SetStatus(orders, ids, status, date)[i] == orders[i]
    ensures orders[i].id in ids ==>
              && SetStatus(orders, ids, status, date)[i].statutValidation == Some(status)
              && SetStatus(orders, ids, status, date)[i].dateValidation == Some(date)
              && SetStatus(orders, ids, status, date)[i].(statutValidation := orders[i].statutValidation,
                                                         dateValidation := orders[i].dateValidation)
                 == orders[i]
  {
  }

  /** Applying the same update twice is the same as applying it once. */
  lemma SetStatusIdempotent(orders: seq<Order>, ids: seq<string>, status: string, date: string)
    ensures SetStatus(SetStatus(orders, ids, status, date), ids, status, date)
            == SetStatus(orders, ids, status, date)
  {
  }

  /** A status update leaves the amount and commission totals as they were. */
  lemma SetStatusKeepsTotals(orders: seq<Order>, ids: seq<string>, status: string, date: string)
    ensures AmountTotal(SetStatus(orders, ids, status, date)) == AmountTotal(orders)
    ensures CommissionTotal(SetStatus(orders, ids, status, date)) == CommissionTotal(orders)
  {
    var r := SetStatus(orders, ids, status, date);
    assert Amounts(r) == Amounts(orders);
    assert Commissions(r) == Commissions(orders);
  }

  /** After validating the orders listed in `ids`, the validated orders are exactly those
      that were validated before or are listed. */
  lemma {:induction false} ValidateCount(orders: seq<Order>, ids: seq<string>, date: string)
    ensures ValidatedCount(SetStatus(orders, ids, "valide", date))
            == |Seqs.Filter(orders, (o: Order) => o.id in ids || IsValidated(o))|
  {
    if orders != [] {
      ValidateCount(orders[1..], ids, date);
      var r := SetStatus(orders, ids, "valide", date);
      assert r[1..] == SetStatus(orders[1..], ids, "valide", date);
      assert IsValidated(r[0]) <==> orders[0].id in ids || IsValidated(orders[0]);
    }
  }

  /** `statut_validation || 'en_attente'`: the status key the charts and the recent-orders
      table use. */
  function StatusKey(s: Option<string>): (k: string)
    ensures k != ""
    ensures k == "en_attente" <==> IsFalsy(s) || s == Some("en_attente")
  {
    if IsFalsy(s) then "en_attente" else s.value
  }

  const ValidatedText: string := "\U{2705} Valid\U{00E9}e"
  const RefusedText: string := "\U{274C} Refus\U{00E9}e"
  const PendingText: string := "\U{23F3} En attente"

  /** `getStatusText`: the badge text for a status; anything but `valide` and `refuse`
      (no status included) reads as pending. */
  function StatusText(s: Option<string>): string
  {
    if s == Some("valide") then ValidatedText
    else if s == Some("refuse") then RefusedText
    else PendingText
  }

  /** Each status shows one of the three badge texts, and it is the pending one exactly
      when the status is neither `valide` nor `refuse`. */
  lemma StatusTextCases(s: Option<string>)
    ensures StatusText(s) == ValidatedText <==> s == Some("valide")
    ensures StatusText(s) == RefusedText <==> s == Some("refuse")
    ensures StatusText(s) == PendingText <==> s != Some("valide") && s != Some("refuse")
  {
  }
}
