/** The sales page: the order list narrowed by a search term, a status and a shop, a
    selection of order ids, and the validate/refuse buttons, one order at a time or in
    bulk over the selection. */
module Sales {
  import opened Wrappers
  import opened Text
  import Seqs
  import opened Orders

  /** The search test: a case-insensitive substring of `id_order` or of
      `publisher_shop_name`, or a case-sensitive substring of `publisher_id`'s decimal
      text; a missing field never matches. */
  predicate MatchesSearch(o: Order, term: string)
  {
    || (o.idOrder.Some? && Contains(Lower(o.idOrder.value), Lower(term)))
    || (o.publisherShopName.Some? && Contains(Lower(o.publisherShopName.value), Lower(term)))
    || (o.publisherId.Some? && Contains(IntToString(o.publisherId.value), term))
  }

  /** The status test for a selector other than `all`; an unknown selector keeps
      everything. */
  predicate MatchesStatus(o: Order, statusFilter: string)
  {
    if statusFilter == "valide" then IsValidated(o)
    else if statusFilter == "refuse" then IsRefused(o)
    else if statusFilter == "en_attente" then IsPending(o)
    else true
  }

  /** The shop test for a selector other than `all`. */
  predicate MatchesShop(o: Order, shopFilter: string)
  {
    o.shopId == Some(shopFilter)
  }

  /** `filterCommandes`: the three filters one after the other, each skipped when its
      control is empty or `all`. */
  function FilterCommandes(commandes: seq<Order>, searchTerm: string, statusFilter: string,
                           shopFilter: string): seq<Order>
  {
    var bySearch := Seqs.FilterWhen(commandes, searchTerm != "", o => MatchesSearch(o, searchTerm));
    var byStatus := Seqs.FilterWhen(bySearch, statusFilter != "all", o => MatchesStatus(o, statusFilter));
    Seqs.FilterWhen(byStatus, shopFilter != "all", o => MatchesShop(o, shopFilter))
  }

  /** Whether an order passes all three controls, a disabled control passing everything. */
  predicate Shown(o: Order, searchTerm: string, statusFilter: string, shopFilter: string)
  {
    && (searchTerm == "" || MatchesSearch(o, searchTerm))
    && (statusFilter == "all" || MatchesStatus(o, statusFilter))
    && (shopFilter == "all" || MatchesShop(o, shopFilter))
  }

  /** The chain of filters is one filter by `Shown`: the result is an order-preserving
      subsequence of the orders holding exactly the orders that pass every control. */
  lemma FilterCommandesIsOneFilter(commandes: seq<Order>, searchTerm: string, statusFilter: string,
                                   shopFilter: string)
    ensures FilterCommandes(commandes, searchTerm, statusFilter, shopFilter)
            == Seqs.Filter(commandes, o => Shown(o, searchTerm, statusFilter, shopFilter))
    ensures Seqs.IsSubseq(FilterCommandes(commandes, searchTerm, statusFilter, shopFilter), commandes)
    ensures forall o :: o in FilterCommandes(commandes, searchTerm, statusFilter, shopFilter) <==>
              o in commandes && Shown(o, searchTerm, statusFilter, shopFilter)
  {
    var p1 := (o: Order) => MatchesSearch(o, searchTerm);
    var p2 := (o: Order) => MatchesStatus(o, statusFilter);
    var p3 := (o: Order) => MatchesShop(o, shopFilter);
    var e1, e2, e3 := searchTerm != "", statusFilter != "all", shopFilter != "all";
    Seqs.FilterWhen3(commandes, e1, p1, e2, p2, e3, p3, o => Shown(o, searchTerm, statusFilter, shopFilter));
  }

  /** With an empty search and both selectors on `all`, every order is listed. */
  lemma NoFilterListsAll(commandes: seq<Order>)
    ensures FilterCommandes(commandes, "", "all", "all") == commandes
  {
  }

  /** What the search means: the lowered term occurs in the lowered order number or shop
      name, or the term occurs in the publisher id's digits. */
  lemma SearchMeaning(o: Order, term: string)
    ensures MatchesSearch(o, term) <==>
              || (o.idOrder.Some? && exists i :: OccursAt(Lower(o.idOrder.value), Lower(term), i))
              || (o.publisherShopName.Some? &&
                  exists i :: OccursAt(Lower(o.publisherShopName.value), Lower(term), i))
              || (o.publisherId.Some? && exists i :: OccursAt(IntToString(o.publisherId.value), term, i))
  {
    if o.idOrder.Some? {
      ContainsIff(Lower(o.idOrder.value), Lower(term));
    }
    if o.publisherShopName.Some? {
      ContainsIff(Lower(o.publisherShopName.value), Lower(term));
    }
    if o.publisherId.Some? {
      ContainsIff(IntToString(o.publisherId.value), term);
    }
  }

  /** The status selector `en_attente` lists exactly the shown orders without a status,
      and `valide` / `refuse` exactly those with that status. */
  lemma StatusSelector(commandes: seq<Order>, searchTerm: string, shopFilter: string, o: Order)
    requires o in commandes
    requires searchTerm == "" || MatchesSearch(o, searchTerm)
    requires shopFilter == "all" || MatchesShop(o, shopFilter)
    ensures o in FilterCommandes(commandes, searchTerm, "en_attente", shopFilter) <==> IsPending(o)
    ensures o in FilterCommandes(commandes, searchTerm, "valide", shopFilter) <==> IsValidated(o)
    ensures o in FilterCommandes(commandes, searchTerm, "refuse", shopFilter) <==> IsRefused(o)
  {
    FilterCommandesIsOneFilter(commandes, searchTerm, "en_attente", shopFilter);
    FilterCommandesIsOneFilter(commandes, searchTerm, "valide", shopFilter);
    FilterCommandesIsOneFilter(commandes, searchTerm, "refuse", shopFilter);
  }

  /** `orderActions[id]`: the action recorded for an order, `None` when none is (the key
      is absent or holds `null`). */
  function Recorded(actions: map<string, Option<Action>>, id: string): Option<Action>
  {
    if id in actions then actions[id] else None
  }

  /** `currentStatus === action ? null : action`: a click on the recorded action clears
      it, any other click records the clicked action. */
  function NextAction(current: Option<Action>, action: Action): (r: Option<Action>)
    ensures r.None? <==> current == Some(action)
    ensures r.Some? ==> r.value == action
  {
    if current == Some(action) then None else Some(action)
  }

  /** Two clicks on the same button: the second undoes the first unless a different
      action was recorded before, in which case nothing is recorded after. */
  lemma ClickTwice(current: Option<Action>, action: Action)
    ensures NextAction(NextAction(current, action), action)
            == (if current == Some(action) then current else None)
    ensures current.None? || current == Some(action) ==> NextAction(NextAction(current, action), action) == current
  {
  }

  /** `getActionButtonStyle`: the active class when the button's action is recorded for
      the order, its plain class otherwise. */
  function ButtonStyle(actions: map<string, Option<Action>>, id: string, action: Action): string
  {
    var isActive := Recorded(actions, id) == Some(action);
    match action
    case Valide => if isActive then "btn-action-valide-active" else "btn-action-valide"
    case Refuse => if isActive then "btn-action-refuse-active" else "btn-action-refuse"
  }

  /** A click on a button flips that button between active and plain, and leaves the
      other orders' buttons as they were. */
  lemma ClickFlipsStyle(actions: map<string, Option<Action>>, id: string, action: Action, other: string)
    requires other != id
    ensures var after := actions[id := NextAction(Recorded(actions, id), action)];
            && ButtonStyle(after, id, action) != ButtonStyle(actions, id, action)
            && (forall b :: ButtonStyle(after, other, b) == ButtonStyle(actions, other, b))
  {
  }

  /** The actions a bulk update records: the action for every selected id (the
      `reduce` over the selection). */
  function BulkActions(ids: seq<string>, action: Action): map<string, Option<Action>>
  {
    map id | id in ids :: Some(action)
  }

  /** After merging a bulk update, every selected id has the action recorded and every
      other id keeps what it had. */
  lemma BulkActionsRecord(actions: map<string, Option<Action>>, ids: seq<string>, action: Action, id: string)
    ensures id in ids ==> Recorded(actions + BulkActions(ids, action), id) == Some(action)
    ensures id !in ids ==> Recorded(actions + BulkActions(ids, action), id) == Recorded(actions, id)
  {
  }

  /** The page's state after the orders have been fetched. */
  class SalesPage {
    var commandes: seq<Order>
    var searchTerm: string
    var statusFilter: string
    var shopFilter: string
    var selected: seq<string>
    var orderActions: map<string, Option<Action>>

    /** The page with the fetched orders, no filter, no selection and no recorded action. */
    constructor (fetched: seq<Order>)
      ensures commandes == fetched && searchTerm == "" && statusFilter == "all" && shopFilter == "all"
      ensures selected == [] && orderActions == map[]
      ensures Filtered() == fetched
    {
      commandes := fetched;
      searchTerm := "";
      statusFilter := "all";
      shopFilter := "all";
      selected := [];
      orderActions := map[];
    }

    /** The list on screen, which the page recomputes whenever the orders or a control
        change. */
    function Filtered(): seq<Order>
      reads this
    {
      FilterCommandes(commandes, searchTerm, statusFilter, shopFilter)
    }

    /** `handleSelectAll`: clears the selection when it is as long as the list on screen,
        whatever ids it holds; otherwise selects the listed ids, in order. */
    method SelectAll()
      modifies this
      ensures |old(selected)| == |old(Filtered())| ==> selected == []
      ensures |old(selected)| != |old(Filtered())| ==> selected == Ids(old(Filtered()))
      ensures commandes == old(commandes) && orderActions == old(orderActions)
      ensures searchTerm == old(searchTerm) && statusFilter == old(statusFilter) && shopFilter == old(shopFilter)
    {
      var filtered := Filtered();
      if |selected| == |filtered| {
        selected := [];
      } else {
        selected := Ids(filtered);
      }
    }

    /** `handleSelectCommande`: removes every copy of the id when it is selected, appends
        it otherwise. */
    method SelectCommande(id: string)
      modifies this
      ensures selected == Seqs.Toggled(old(selected), id)
      ensures id in selected <==> id !in old(selected)
      ensures commandes == old(commandes) && orderActions == old(orderActions)
      ensures searchTerm == old(searchTerm) && statusFilter == old(statusFilter) && shopFilter == old(shopFilter)
    {
      if id in selected {
        selected := Seqs.RemoveAll(selected, id);
      } else {
        selected := selected + [id];
      }
    }

    /** `handleActionClick`: records the next action before the remote update is sent.
        Only when there is an action to send and the update succeeds (`remoteOk`) does the
        order with that id take the status and the validation date `now`; a failure keeps
        the recorded action. */
    method ActionClick(id: string, action: Action, remoteOk: bool, now: string)
      modifies this
      ensures orderActions == old(orderActions)[id := NextAction(Recorded(old(orderActions), id), action)]
      ensures Recorded(old(orderActions), id) == Some(action) || !remoteOk ==> commandes == old(commandes)
      ensures Recorded(old(orderActions), id) != Some(action) && remoteOk ==>
                commandes == SetStatus(old(commandes), [id], ActionName(action), now)
      ensures selected == old(selected)
      ensures searchTerm == old(searchTerm) && statusFilter == old(statusFilter) && shopFilter == old(shopFilter)
    {
      var current := Recorded(orderActions, id);
      var newStatus := NextAction(current, action);
      orderActions := orderActions[id := newStatus];
      if newStatus.Some? {
        if remoteOk {
          commandes := SetStatus(commandes, [id], ActionName(newStatus.value), now);
        }
      }
    }

    /** `handleBulkAction`: nothing with an empty selection or when the remote update
        fails. Otherwise every selected id gets the action recorded and its orders the
        status and the date `now`, every other order and record stays as it was, and the
        selection is emptied. */
    method BulkAction(action: Action, remoteOk: bool, now: string)
      modifies this
      ensures old(selected) == [] || !remoteOk ==>
                && commandes == old(commandes) && selected == old(selected)
                && orderActions == old(orderActions)
      ensures old(selected) != [] && remoteOk ==>
                && orderActions == old(orderActions) + BulkActions(old(selected), action)
                && commandes == SetStatus(old(commandes), old(selected), ActionName(action), now)
                && selected == []
      ensures old(selected) != [] && remoteOk ==>
                && (forall id :: id in old(selected) ==> Recorded(orderActions, id) == Some(action))
                && (forall id :: id !in old(selected) ==> Recorded(orderActions, id) == Recorded(old(orderActions), id))
                && (forall i :: 0 <= i < |commandes| ==>
                      if commandes[i].id in old(selected)
                      then commandes[i].statutValidation == Some(ActionName(action))
                      else commandes[i] == old(commandes)[i])
      ensures searchTerm == old(searchTerm) && statusFilter == old(statusFilter) && shopFilter == old(shopFilter)
    {
      if |selected| == 0 {
        return;
      }
      if !remoteOk {
        return;
      }
      var newActions: map<string, Option<Action>> := map[];
      var i := 0;
      while i < |selected|
        invariant 0 <= i <= |selected|
        invariant newActions == BulkActions(selected[..i], action)
      {
        assert selected[..i + 1] == selected[..i] + [selected[i]];
        newActions := newActions[selected[i] := Some(action)];
        i := i + 1;
      }
      assert selected[..i] == selected;
      orderActions := orderActions + newActions;
      commandes := SetStatus(commandes, selected, ActionName(action), now);
      selected := [];
    }
  }
}
