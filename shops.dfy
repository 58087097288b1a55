/** The shop (`marque`) list page: the search and status filter over the fetched shops,
    the active/inactive counts and average commission shown above the list, and the local
    updates after a shop is switched on or off or deleted. */
module Shops {
  import opened Wrappers
  import opened Text
  import Seqs

  /** The fields of a `Shop` row that the modelled code reads or writes. The code reads
      `slug` and `shop_id` with `?.`, `pourcentage` with `|| 0` and `is_marque` with
      `=== true` / `=== false`, so each may be missing. */
  datatype Shop = Shop(
    id: string,
    shopId: Option<int>,
    nom: string,
    slug: Option<string>,
    isMarque: Option<bool>,
    pourcentage: Option<real>)

  /** The search test: the lower-cased term inside the lower-cased name or slug, or the
      term as typed inside the decimal text of `shop_id`. */
  predicate MatchesSearch(m: Shop, searchTerm: string)
  {
    || Contains(Lower(m.nom), Lower(searchTerm))
    || (m.slug.Some? && Contains(Lower(m.slug.value), Lower(searchTerm)))
    || (m.shopId.Some? && Contains(IntToString(m.shopId.value), searchTerm))
  }

  /** The status test: `actif` keeps the active shops, `inactif` the inactive ones, and
      any other value keeps every shop. */
  predicate MatchesStatus(m: Shop, statusFilter: string)
  {
    if statusFilter == "actif" then m.isMarque == Some(true)
    else if statusFilter == "inactif" then m.isMarque == Some(false)
    else true
  }

  /** `filterMarques`: the search filter when a term is typed, then the status filter
      unless it is `all`. */
  function FilterMarques(marques: seq<Shop>, searchTerm: string, statusFilter: string): seq<Shop>
  {
    var bySearch := Seqs.FilterWhen(marques, searchTerm != "", m => MatchesSearch(m, searchTerm));
    Seqs.FilterWhen(bySearch, statusFilter != "all", m => MatchesStatus(m, statusFilter))
  }

  /** Whether a shop is listed under the current search and status filter. */
  predicate Listed(m: Shop, searchTerm: string, statusFilter: string)
  {
    (searchTerm == "" || MatchesSearch(m, searchTerm)) && MatchesStatus(m, statusFilter)
  }

  /** The two filters in a row are one filter by `Listed`: the list shown keeps the
      fetched order and holds exactly the fetched shops that pass both tests. */
  lemma FilterMarquesIsOneFilter(marques: seq<Shop>, searchTerm: string, statusFilter: string)
    ensures FilterMarques(marques, searchTerm, statusFilter) == Seqs.Filter(marques, m => Listed(m, searchTerm, statusFilter))
    ensures Seqs.IsSubseq(FilterMarques(marques, searchTerm, statusFilter), marques)
    ensures forall m :: m in FilterMarques(marques, searchTerm, statusFilter)
                        <==> m in marques && Listed(m, searchTerm, statusFilter)
  {
    Seqs.FilterWhen2(marques, searchTerm != "", m => MatchesSearch(m, searchTerm),
                     statusFilter != "all", m => MatchesStatus(m, statusFilter),
                     m => Listed(m, searchTerm, statusFilter));
  }

  /** With no term and any status value other than `actif` or `inactif`, every shop is
      listed, in the fetched order. */
  lemma NoFilterListsAll(marques: seq<Shop>, statusFilter: string)
    requires statusFilter != "actif" && statusFilter != "inactif"
    ensures FilterMarques(marques, "", statusFilter) == marques
  {
    FilterMarquesIsOneFilter(marques, "", statusFilter);
    Seqs.FilterAll(marques, m => Listed(m, "", statusFilter));
  }

  /** What the search test means: some stretch of the lower-cased name or slug is the
      lower-cased term, or some stretch of the id's decimal text is the term. */
  lemma SearchMeaning(m: Shop, searchTerm: string)
    ensures MatchesSearch(m, searchTerm) <==>
              || (exists i :: OccursAt(Lower(m.nom), Lower(searchTerm), i))
              || (m.slug.Some? && exists i :: OccursAt(Lower(m.slug.value), Lower(searchTerm), i))
              || (m.shopId.Some? && exists i :: OccursAt(IntToString(m.shopId.value), searchTerm, i))
  {
    ContainsIff(Lower(m.nom), Lower(searchTerm));
    if m.slug.Some? {
      ContainsIff(Lower(m.slug.value), Lower(searchTerm));
    }
    if m.shopId.Some? {
      ContainsIff(IntToString(m.shopId.value), searchTerm);
    }
  }

  predicate IsActive(m: Shop)
  {
    m.isMarque == Some(true)
  }

  predicate IsInactive(m: Shop)
  {
    m.isMarque == Some(false)
  }

  predicate HasNoFlag(m: Shop)
  {
    m.isMarque.None?
  }

  /** The figures of `getStats`. */
  datatype ShopStats = ShopStats(total: nat, actifs: nat, inactifs: nat)

  /** `getStats`: the number of shops and how many are active and inactive. */
  function GetStats(marques: seq<Shop>): (s: ShopStats)
    ensures s.total == |marques|
    ensures s.actifs == |Seqs.Filter(marques, IsActive)| && s.inactifs == |Seqs.Filter(marques, IsInactive)|
    ensures s.actifs + s.inactifs <= s.total
    ensures s.actifs + s.inactifs == s.total <==> forall i :: 0 <= i < |marques| ==> marques[i].isMarque.Some?
  {
    FlagPartition(marques);
    Seqs.FilterEmpty(marques, HasNoFlag);
    ShopStats(|marques|, |Seqs.Filter(marques, IsActive)|, |Seqs.Filter(marques, IsInactive)|)
  }

  /** Every shop is active, inactive or without a flag. */
  lemma {:induction false} FlagPartition(marques: seq<Shop>)
    ensures |Seqs.Filter(marques, IsActive)| + |Seqs.Filter(marques, IsInactive)| + |Seqs.Filter(marques, HasNoFlag)|
            == |marques|
  {
    if marques != [] {
      FlagPartition(marques[1..]);
      match marques[0].isMarque
      case None =>
      case Some(b) => assert marques[0].isMarque == Some(true) || marques[0].isMarque == Some(false);
    }
  }

  /** `pourcentage || 0` for each shop. */
  function Percentages(marques: seq<Shop>): (r: seq<real>)
    ensures |r| == |marques|
  {
    seq(|marques|, i requires 0 <= i < |marques| => if marques[i].pourcentage.Some? then marques[i].pourcentage.value else 0.0)
  }

  /** The average-commission card: `None` for an empty list (shown as `0%`), otherwise
      the sum of the percentages, missing ones counted as 0, over the number of shops. */
  function AverageCommission(marques: seq<Shop>): Option<real>
  {
    if |marques| > 0 then Some(Seqs.Sum(Percentages(marques)) / |marques| as real) else None
  }

  /** The average lies between the smallest and the largest percentage: when every shop's
      percentage (a missing one read as 0) is within `[lo, hi]`, so is the average. */
  lemma AverageBetween(marques: seq<Shop>, lo: real, hi: real)
    requires forall i :: 0 <= i < |marques| ==> lo <= Percentages(marques)[i] <= hi
    ensures AverageCommission(marques).None? <==> marques == []
    ensures marques != [] ==> lo <= AverageCommission(marques).value <= hi
  {
    if marques != [] {
      Seqs.SumBounds(Percentages(marques), lo, hi);
      DivBetween(Seqs.Sum(Percentages(marques)), |marques| as real, lo, hi);
    }
  }

  /** A quotient by a positive `n` of a value between `n * lo` and `n * hi` lies between
      `lo` and `hi`. */
  lemma DivBetween(sum: real, n: real, lo: real, hi: real)
    requires n > 0.0 && n * lo <= sum <= n * hi
    ensures lo <= sum / n <= hi
  {
    var avg := sum / n;
    assert avg * n == sum;
    assert n * (avg - lo) >= 0.0 && n * (hi - avg) >= 0.0;
  }

  /** The shops after `handleToggleStatus` succeeded: every shop with the id gets
      `is_marque` set to `active`, the others are kept. */
  function SetActive(marques: seq<Shop>, id: string, active: bool): (r: seq<Shop>)
    ensures |r| == |marques|
  {
    seq(|marques|, i requires 0 <= i < |marques| =>
          if marques[i].id == id then marques[i].(isMarque := Some(active)) else marques[i])
  }

  /** Switching a shop changes `is_marque` on the shops with that id and nothing else:
      the other shops and all other fields stay as they were. Afterwards those shops are
      listed under the matching status filter and not under the other one. */
  lemma SetActiveOnlyTarget(marques: seq<Shop>, id: string, active: bool, i: int)
    requires 0 <= i < |marques|
    ensures marques[i].id != id ==> SetActive(marques, id, active)[i] == marques[i]
    ensures marques[i].id == id ==>
              && SetActive(marques, id, active)[i].isMarque == Some(active)
              && SetActive(marques, id, active)[i].(isMarque := marques[i].isMarque) == marques[i]
    ensures marques[i].id == id ==>
              && SetActive(marques, id, active)[i] in FilterMarques(SetActive(marques, id, active), "", if active then "actif" else "inactif")
              && SetActive(marques, id, active)[i] !in FilterMarques(SetActive(marques, id, active), "", if active then "inactif" else "actif")
  {
    var r := SetActive(marques, id, active);
    FilterMarquesIsOneFilter(r, "", "actif");
    FilterMarquesIsOneFilter(r, "", "inactif");
  }

  /** The shops after `handleDeleteMarque` succeeded: those with another id, in order. */
  function RemoveShop(marques: seq<Shop>, id: string): seq<Shop>
  {
    Seqs.Filter(marques, (m: Shop) => m.id != id)
  }

  /** Deleting takes out exactly the shops with the id: the rest stay, in order, and the
      list shrinks by the number of shops that had the id. */
  lemma RemoveShopMeaning(marques: seq<Shop>, id: string)
    ensures forall m :: m in RemoveShop(marques, id) <==> m in marques && m.id != id
    ensures Seqs.IsSubseq(RemoveShop(marques, id), marques)
    ensures |RemoveShop(marques, id)| + |Seqs.Filter(marques, (m: Shop) => m.id == id)| == |marques|
  {
    Seqs.FilterSplit(marques, (m: Shop) => m.id != id, (m: Shop) => m.id == id);
  }

  /** The page's state after the shops have been fetched. */
  class ShopsPage {
    var marques: seq<Shop>
    var searchTerm: string
    var statusFilter: string

    /** The page with the fetched shops, no search term and the `all` status filter. */
    constructor (fetched: seq<Shop>)
      ensures marques == fetched && searchTerm == "" && statusFilter == "all"
    {
      marques := fetched;
      searchTerm := "";
      statusFilter := "all";
    }

    /** The list on screen. */
    function Filtered(): seq<Shop>
      reads this
    {
      FilterMarques(marques, searchTerm, statusFilter)
    }

    /** `handleToggleStatus`: on success (`remoteOk`) the shops with the id take
        `is_marque = (newStatus == 'actif')`; on failure the list is left alone. */
    method ToggleStatus(id: string, newStatus: string, remoteOk: bool)
      modifies this
      ensures remoteOk ==> marques == SetActive(old(marques), id, newStatus == "actif")
      ensures !remoteOk ==> marques == old(marques)
      ensures searchTerm == old(searchTerm) && statusFilter == old(statusFilter)
    {
      if remoteOk {
        marques := SetActive(marques, id, newStatus == "actif");
      }
    }

    /** `handleDeleteMarque`: nothing happens unless the user confirms; on a confirmed and
        successful delete the shops with the id leave the list. */
    method DeleteShop(id: string, confirmed: bool, remoteOk: bool)
      modifies this
      ensures confirmed && remoteOk ==> marques == RemoveShop(old(marques), id)
      ensures !(confirmed && remoteOk) ==> marques == old(marques)
      ensures searchTerm == old(searchTerm) && statusFilter == old(statusFilter)
    {
      if confirmed && remoteOk {
        marques := RemoveShop(marques, id);
      }
    }
  }
}
