/** The recent-orders page: the fetched orders shown as they come, status counts and the
    amount total above them, a checkbox selection, and validate/refuse buttons that record
    the decision first and then update the order. */
module RecentOrders {
  import opened Wrappers
  import opened Text
  import Seqs
  import opened Orders

  /** The figures of `getStats`. */
  datatype Stats = Stats(total: nat, validees: nat, refusees: nat, enAttente: nat, montantTotal: real)

  /** `getStats`: the number of orders, how many are validated, refused and without a
      status, and the sum of their amounts with missing amounts read as 0. The three counts
      never exceed the total, and make it up exactly when no order carries another status;
      the amount is the sum over the orders that have one. */
  function GetStats(commandes: seq<Order>): (s: Stats)
    ensures s.total == |commandes|
    ensures s.validees == ValidatedCount(commandes) && s.refusees == RefusedCount(commandes)
    ensures s.enAttente == PendingCount(commandes)
    ensures s.validees + s.refusees + s.enAttente <= s.total
    ensures (s.validees + s.refusees + s.enAttente == s.total)
            <==> (forall i :: 0 <= i < |commandes| ==> !HasOtherStatus(commandes[i]))
    ensures s.montantTotal == AmountTotal(Seqs.Filter(commandes, HasAmount))
  {
    CountsCoverAll(commandes);
    AmountTotalOfKnown(commandes);
    Stats(|commandes|, ValidatedCount(commandes), RefusedCount(commandes), PendingCount(commandes),
          AmountTotal(commandes))
  }

  /** A successful validate or refuse click changes neither the number of orders nor the
      amount total. */
  lemma ClickKeepsTotals(commandes: seq<Order>, id: string, action: Action, now: string)
    ensures GetStats(SetStatus(commandes, [id], ActionName(action), now)).total == GetStats(commandes).total
    ensures GetStats(SetStatus(commandes, [id], ActionName(action), now)).montantTotal
            == GetStats(commandes).montantTotal
  {
    SetStatusKeepsTotals(commandes, [id], ActionName(action), now);
  }

  /** JavaScript's `a % b` for a positive `b`: the remainder takes the sign of `a`. */
  function JsRem(a: int, b: int): (r: int)
    requires b > 0
    ensures a >= 0 ==> 0 <= r < b
    ensures a < 0 ==> -b < r <= 0
    ensures a >= 0 ==> r == a % b
    ensures a < 0 ==> r == if a % b == 0 then 0 else a % b - b
  {
    if a >= 0 then a % b
    else
      var q, m := (-a) / b, (-a) % b;
      assert a == (-q - 1) * b + (b - m);
      assert m != 0 ==> a % b == b - m by {
        if m != 0 {
          ModOfShifted(a, -q - 1, b - m, b);
        }
      }
      assert m == 0 ==> a % b == 0 by {
        if m == 0 {
          ModOfShifted(a, -q, 0, b);
        }
      }
      -m
  }

  /** A value written as a multiple of `b` plus a remainder in `[0, b)` has that remainder. */
  lemma ModOfShifted(a: int, q: int, m: int, b: int)
    requires b > 0 && 0 <= m < b && a == q * b + m
    ensures a % b == m
  {
    var r, d := a % b, a / b;
    var k := q - d;
    assert k * b == q * b - d * b;
    assert k * b == r - m;
    MultipleBounds(k, b);
  }

  /** A non-zero multiple of a positive `b` is at least `b` away from zero. */
  lemma MultipleBounds(k: int, b: int)
    requires b > 0
    ensures k >= 1 ==> k * b >= b
    ensures k <= -1 ==> k * b <= -b
  {
  }

  /** `formatLapseTime`: `N/A` for a missing or zero lapse, otherwise the whole hours
      (rounded down), `h`, and the remaining minutes padded to two characters. */
  function FormatLapseTime(lapse: Option<int>): string
  {
    if lapse.None? || lapse.value == 0 then "N/A"
    else
      var t := lapse.value;
      IntToString(t / 60) + "h" + PadStart2(IntToString(JsRem(t, 60)))
  }

  /** For a positive lapse the text is two digit groups around one `h`: hours `h` and
      two-digit minutes `m` with `h * 60 + m` the lapse and `m` below 60. */
  lemma FormatLapseTimeReadsBack(t: int)
    requires t > 0
    ensures var parts := Split(FormatLapseTime(Some(t)), 'h');
            && |parts| == 2
            && parts[0] != [] && AllDigits(parts[0])
            && |parts[1]| == 2 && AllDigits(parts[1])
            && DigitsValue(parts[0]) * 60 + DigitsValue(parts[1]) == t
            && DigitsValue(parts[1]) < 60
  {
    var h: nat, m: nat := t / 60, t % 60;
    var hs, ms := NatToString(h), PadStart2(NatToString(m));
    assert FormatLapseTime(Some(t)) == hs + ['h'] + ms;
    NatToStringValue(h);
    PadStart2Value(m);
    SplitDigitGroups(hs, ms, 'h');
  }

  /** A zero or missing lapse shows `N/A`, and a positive one never does. */
  lemma FormatLapseTimeNA(lapse: Option<int>)
    ensures lapse.None? || lapse == Some(0) ==> FormatLapseTime(lapse) == "N/A"
    ensures lapse.Some? && lapse.value > 0 ==> FormatLapseTime(lapse) != "N/A"
  {
    if lapse.Some? && lapse.value > 0 {
      var t := lapse.value;
      var r := FormatLapseTime(lapse);
      assert r[0] == NatToString(t / 60)[0];
      assert IsDigit(r[0]) && !IsDigit("N/A"[0]);
    }
  }

  /** A negative lapse prints with a minus sign: the hours are rounded down and the
      minutes keep the lapse's sign, so -65 prints as `-2h-5`. */
  lemma FormatLapseTimeNegative(t: int)
    requires t < 0
    ensures FormatLapseTime(Some(t))[0] == '-'
    ensures FormatLapseTime(Some(t)) == IntToString(t / 60) + "h" + PadStart2(IntToString(JsRem(t, 60)))
    ensures (t / 60) * 60 + JsRem(t, 60) == if t % 60 == 0 then t else t - 60
    ensures FormatLapseTime(Some(-65)) == "-2h-5"
  {
    assert t / 60 < 0;
    assert IntToString(-2) == "-2" && IntToString(-5) == "-5";
    assert JsRem(-65, 60) == -5;
  }

  /** The status cell: `getStatusText(statut_validation || 'en_attente')`. It shows the same
      text as the status itself would, so a missing or unknown status reads as pending. */
  function StatusCell(status: Option<string>): (r: string)
    ensures r == StatusText(status)
    ensures r == PendingText <==> status != Some("valide") && status != Some("refuse")
  {
    StatusTextCases(status);
    StatusText(Some(StatusKey(status)))
  }

  function ActiveClass(a: Action): string
  {
    match a
    case Valide => "btn-action-valide-active"
    case Refuse => "btn-action-refuse-active"
  }

  function PlainClass(a: Action): string
  {
    match a
    case Valide => "btn-action-valide"
    case Refuse => "btn-action-refuse"
  }

  /** The classes of a button whose order already has the other action recorded. */
  const DisabledClass: string :=
    "w-8 h-8 rounded-full flex items-center justify-center text-lg font-bold transition-all "
    + "bg-gray-200 border-2 border-gray-300 text-gray-400 cursor-not-allowed"

  /** `getActionButtonStyle`: active when the button's action is recorded for the order,
      disabled when the other one is, plain when none is. */
  function ButtonStyle(actions: map<string, Action>, id: string, action: Action): string
  {
    if id in actions && actions[id] == action then ActiveClass(action)
    else if id in actions then DisabledClass
    else PlainClass(action)
  }

  /** Exactly one of the three looks applies, and which one is decided by the record. */
  lemma ButtonStyleCases(actions: map<string, Action>, id: string, action: Action)
    ensures ButtonStyle(actions, id, action) == ActiveClass(action) <==> id in actions && actions[id] == action
    ensures ButtonStyle(actions, id, action) == DisabledClass <==> id in actions && actions[id] != action
    ensures ButtonStyle(actions, id, action) == PlainClass(action) <==> id !in actions
  {
    assert ActiveClass(action) != DisabledClass && PlainClass(action) != DisabledClass by {
      assert |DisabledClass| > 30;
    }
  }

  /** After a click the clicked button is active and the other one disabled, whatever was
      recorded before; the other orders' buttons do not change. */
  lemma ClickStyles(actions: map<string, Action>, id: string, action: Action, other: Action, otherId: string)
    requires other != action && otherId != id
    ensures ButtonStyle(actions[id := action], id, action) == ActiveClass(action)
    ensures ButtonStyle(actions[id := action], id, other) == DisabledClass
    ensures forall b :: ButtonStyle(actions[id := action], otherId, b) == ButtonStyle(actions, otherId, b)
  {
  }

  /** The page's state after the orders have been fetched. */
  class RecentOrdersPage {
    var commandes: seq<Order>
    var selected: seq<string>
    var orderActions: map<string, Action>

    /** The page with the fetched orders, nothing selected and nothing recorded. */
    constructor (fetched: seq<Order>)
      ensures commandes == fetched && selected == [] && orderActions == map[]
    {
      commandes := fetched;
      selected := [];
      orderActions := map[];
    }

    /** The list on screen: the fetched orders, unfiltered. */
    function Filtered(): seq<Order>
      reads this
    {
      commandes
    }

    /** The header checkbox: ticked when the selection is as long as a non-empty list. */
    predicate AllSelected()
      reads this
    {
      |selected| == |Filtered()| && |Filtered()| > 0
    }

    /** `handleActionClick`: the action is recorded before the remote update is sent and
        stays recorded if it fails; only on success (`remoteOk`) does the order with that
        id take the status and the validation date `now`. */
    method ActionClick(id: string, action: Action, remoteOk: bool, now: string)
      modifies this
      ensures orderActions == old(orderActions)[id := action]
      ensures remoteOk ==> commandes == SetStatus(old(commandes), [id], ActionName(action), now)
      ensures !remoteOk ==> commandes == old(commandes)
      ensures selected == old(selected)
    {
      orderActions := orderActions[id := action];
      if remoteOk {
        commandes := SetStatus(commandes, [id], ActionName(action), now);
      }
    }

    /** `handleSelectCommande`: ticking appends the id, even when it is already selected;
        unticking removes every copy and keeps the other ids in order. */
    method SelectCommande(id: string, checked: bool)
      modifies this
      ensures checked ==> selected == old(selected) + [id]
      ensures !checked ==> selected == Seqs.RemoveAll(old(selected), id)
      ensures !checked ==> id !in selected && forall x :: x != id ==> (x in selected <==> x in old(selected))
      ensures commandes == old(commandes) && orderActions == old(orderActions)
    {
      if checked {
        selected := selected + [id];
      } else {
        selected := Seqs.RemoveAll(selected, id);
      }
    }

    /** `handleSelectAll`: ticking selects the listed ids in order, unticking clears the
        selection; the header checkbox then shows ticked exactly when the list is not
        empty and it was ticked. */
    method SelectAll(checked: bool)
      modifies this
      ensures checked ==> selected == Ids(commandes)
      ensures !checked ==> selected == []
      ensures AllSelected() <==> checked && commandes != []
      ensures commandes == old(commandes) && orderActions == old(orderActions)
    {
      if checked {
        selected := Ids(commandes);
      } else {
        selected := [];
      }
    }
  }

  /** Ticking and then unticking an id leaves no copy of it, and the rest of the
      selection as it was. */
  lemma TickUntick(selected: seq<string>, id: string)
    ensures Seqs.RemoveAll(selected + [id], id) == Seqs.RemoveAll(selected, id)
    ensures id !in selected ==> Seqs.RemoveAll(selected + [id], id) == selected
  {
    Seqs.RemoveAllAppended(selected, id);
    if id !in selected {
      Seqs.RemoveAbsent(selected, id);
    }
  }
}
