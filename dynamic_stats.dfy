/** The statistics cards of the dashboard: the figures computed once from every order
    fetched from the `commande` table. */
module DynamicStats {
  import opened Wrappers
  import Seqs
  import opened Orders
  import CsvStore

  /** `StatsData`: the eight figures the cards show. */
  datatype StatsData = StatsData(
    totalCommandes: nat,
    commandesValidees: nat,
    commandesRefusees: nat,
    commandesEnAttente: nat,
    montantTotal: real,
    commissionTotale: real,
    commandesAujourdhui: nat,
    tauxValidation: real)

  /** The figures shown when the query returns no data at all. */
  const NoStats: StatsData := StatsData(0, 0, 0, 0, 0.0, 0.0, 0, 0.0)

  /** An order created at or after the start of today, reading `created_at` through
      `instant`; a date that does not parse is never today. */
  predicate CreatedToday(o: Order, startOfToday: int, instant: string -> Option<int>)
  {
    CsvStore.AtOrAfter(instant(o.createdAt), startOfToday)
  }

  function TodayCount(orders: seq<Order>, startOfToday: int, instant: string -> Option<int>): nat
  {
    |Seqs.Filter(orders, o => CreatedToday(o, startOfToday, instant))|
  }

  /** `total > 0 ? validated / total * 100 : 0`. */
  function ValidationRate(validated: nat, total: nat): real
  {
    if total > 0 then validated as real / total as real * 100.0 else 0.0
  }

  /** The rate lies between 0 and 100 when the validated orders are some of the orders,
      and it is 100 exactly when all of a non-empty list is validated. */
  lemma ValidationRateBounds(validated: nat, total: nat)
    requires validated <= total
    ensures 0.0 <= ValidationRate(validated, total) <= 100.0
    ensures total > 0 ==> (ValidationRate(validated, total) == 100.0 <==> validated == total)
  {
    if total > 0 {
      var q := validated as real / total as real;
      assert q * total as real == validated as real;
      assert 0.0 <= q <= 1.0;
      assert q == 1.0 <==> validated == total;
    }
  }

  /** `fetchStats` once the rows have arrived: all zeros when there is no data, otherwise
      the order count, the counts per status, the amount and commission sums with missing
      values read as 0, the orders created today, and the validation rate. */
  function ComputeStats(commandes: Option<seq<Order>>, startOfToday: int, instant: string -> Option<int>)
    : (s: StatsData)
    ensures commandes.None? ==> s == NoStats
    ensures commandes.Some? ==>
              && s.totalCommandes == |commandes.value|
              && s.commandesValidees == ValidatedCount(commandes.value)
              && s.commandesRefusees == RefusedCount(commandes.value)
              && s.commandesEnAttente == PendingCount(commandes.value)
              && s.commissionTotale == CommissionTotal(commandes.value)
              && s.commandesAujourdhui == TodayCount(commandes.value, startOfToday, instant)
              && s.tauxValidation == ValidationRate(ValidatedCount(commandes.value), |commandes.value|)
              && s.commandesValidees + s.commandesRefusees + s.commandesEnAttente <= s.totalCommandes
              && s.commandesAujourdhui <= s.totalCommandes
              && 0.0 <= s.tauxValidation <= 100.0
              && s.montantTotal == AmountTotal(Seqs.Filter(commandes.value, HasAmount))
  {
    match commandes
    case None => NoStats
    case Some(cs) =>
      CountsCoverAll(cs);
      AmountTotalOfKnown(cs);
      ValidationRateBounds(ValidatedCount(cs), |cs|);
      StatsData(|cs|, ValidatedCount(cs), RefusedCount(cs), PendingCount(cs),
                AmountTotal(cs), CommissionTotal(cs), TodayCount(cs, startOfToday, instant),
                ValidationRate(ValidatedCount(cs), |cs|))
  }

  /** The rate card shows 100% exactly when there are orders and every one is validated,
      and 0% when none is. */
  lemma RateMeaning(cs: seq<Order>, startOfToday: int, instant: string -> Option<int>)
    ensures var s := ComputeStats(Some(cs), startOfToday, instant);
            && (s.tauxValidation == 100.0 <==> cs != [] && forall i :: 0 <= i < |cs| ==> IsValidated(cs[i]))
            && ((forall i :: 0 <= i < |cs| ==> !IsValidated(cs[i])) ==> s.tauxValidation == 0.0)
  {
    Seqs.FilterFull(cs, IsValidated);
    Seqs.FilterEmpty(cs, IsValidated);
    ValidationRateBounds(ValidatedCount(cs), |cs|);
  }

  /** An order counts as today's exactly when its creation date parses to an instant at
      or after the start of today; a later start of day never counts more orders. */
  lemma TodayCountMeaning(cs: seq<Order>, startOfToday: int, later: int, instant: string -> Option<int>)
    requires startOfToday <= later
    ensures forall o :: o in Seqs.Filter(cs, o => CreatedToday(o, startOfToday, instant))
                        <==> o in cs && instant(o.createdAt).Some? && instant(o.createdAt).value >= startOfToday
    ensures TodayCount(cs, later, instant) <= TodayCount(cs, startOfToday, instant)
  {
    Seqs.FilterWeaker(cs, o => CreatedToday(o, startOfToday, instant), o => CreatedToday(o, later, instant));
  }
}
