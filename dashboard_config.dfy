/** The dialog that picks which dashboard sections to show: a selection of section ids
    toggled one at a time or all at once, and handed over when applied. */
module DashboardConfig {
  import opened Wrappers
  import Seqs

  /** The ids of `availableSections`, in declaration order. */
  const SectionIds: seq<string> :=
    ["revenues", "commission", "metrics", "client_type", "sales_distribution", "publisher_performance"]

  /** A selection the dialog can reach: no id twice, and only declared ids. */
  predicate Reachable(selection: seq<string>)
  {
    Seqs.NoDup(selection) && forall i :: 0 <= i < |selection| ==> selection[i] in SectionIds
  }

  /** The declared ids are six different ones. */
  lemma SectionIdsDistinct()
    ensures |SectionIds| == 6 && Reachable(SectionIds)
  {
  }

  /** Toggling a declared id keeps a reachable selection reachable. */
  lemma ToggleReachable(selection: seq<string>, id: string)
    requires Reachable(selection) && id in SectionIds
    ensures Reachable(Seqs.Toggled(selection, id))
  {
    Seqs.ToggledNoDup(selection, id);
    var r := Seqs.Toggled(selection, id);
    forall i | 0 <= i < |r| ensures r[i] in SectionIds {
      assert r[i] in r;
      if r[i] != id {
        assert r[i] in selection;
      }
    }
  }

  /** Toggling an id twice gives back the same selection: exactly when it was not
      selected, and with the same ids, each as often, when it was (it then moves to the
      end). */
  lemma ToggleTwice(selection: seq<string>, id: string)
    requires Reachable(selection)
    ensures id !in selection ==> Seqs.Toggled(Seqs.Toggled(selection, id), id) == selection
    ensures multiset(Seqs.Toggled(Seqs.Toggled(selection, id), id)) == multiset(selection)
  {
    if id in selection {
      Seqs.ToggleTwicePresent(selection, id);
    } else {
      Seqs.ToggleTwiceAbsent(selection, id);
    }
  }

  /** The dialog's state. */
  class DashboardConfigModal {
    var selectedSections: seq<string>
    var isOpen: bool

    /** A freshly opened dialog: nothing selected. */
    constructor ()
      ensures selectedSections == [] && isOpen
      ensures Reachable(selectedSections)
    {
      selectedSections := [];
      isOpen := true;
    }

    /** `handleSectionToggle`: a selected id leaves the selection, an unselected one is
        appended; for a declared id the selection stays reachable. */
    method Toggle(id: string)
      modifies this
      ensures selectedSections == Seqs.Toggled(old(selectedSections), id)
      ensures old(Reachable(selectedSections)) && id in SectionIds ==> Reachable(selectedSections)
      ensures isOpen == old(isOpen)
    {
      if Reachable(selectedSections) && id in SectionIds {
        ToggleReachable(selectedSections, id);
      }
      selectedSections := if id in selectedSections then Seqs.RemoveAll(selectedSections, id)
                          else selectedSections + [id];
    }

    /** `handleSelectAll`: every declared id, in declaration order. */
    method SelectAll()
      modifies this
      ensures selectedSections == SectionIds && Reachable(selectedSections)
      ensures isOpen == old(isOpen)
    {
      SectionIdsDistinct();
      selectedSections := SectionIds;
    }

    /** `handleSelectNone`: nothing selected. */
    method SelectNone()
      modifies this
      ensures selectedSections == [] && Reachable(selectedSections)
      ensures isOpen == old(isOpen)
    {
      selectedSections := [];
    }

    /** `handleApply`, behind a button disabled while nothing is selected: with a
        selection it hands the selection over unchanged and closes the dialog; with none
        nothing happens. */
    method Apply() returns (configured: Option<seq<string>>)
      modifies this
      ensures old(selectedSections) == [] ==> configured == None && isOpen == old(isOpen)
      ensures old(selectedSections) != [] ==> configured == Some(old(selectedSections)) && !isOpen
      ensures selectedSections == old(selectedSections)
    {
      if selectedSections == [] {
        configured := None;
      } else {
        configured := Some(selectedSections);
        isOpen := false;
      }
    }
  }

  /** The steps the dialog offers: toggle a declared id, select all, select none. */
  datatype Step = ToggleStep(id: string) | SelectAllStep | SelectNoneStep

  /** The selection after one step. */
  function StepSelection(selection: seq<string>, step: Step): seq<string>
  {
    match step
    case ToggleStep(id) => Seqs.Toggled(selection, id)
    case SelectAllStep => SectionIds
    case SelectNoneStep => []
  }

  /** The selection after a run of steps from `selection`. */
  function RunSteps(selection: seq<string>, steps: seq<Step>): seq<string>
    decreases |steps|
  {
    if steps == [] then selection else RunSteps(StepSelection(selection, steps[0]), steps[1..])
  }

  /** Starting from the empty selection and toggling only the declared sections, any run
      of steps ends in a selection with no id twice and only declared ids. */
  lemma {:induction false} StepsStayReachable(selection: seq<string>, steps: seq<Step>)
    requires Reachable(selection)
    requires forall i :: 0 <= i < |steps| && steps[i].ToggleStep? ==> steps[i].id in SectionIds
    ensures Reachable(RunSteps(selection, steps))
    decreases |steps|
  {
    if steps != [] {
      match steps[0] {
        case ToggleStep(id) => ToggleReachable(selection, id);
        case SelectAllStep => SectionIdsDistinct();
        case SelectNoneStep =>
      }
      var next := StepSelection(selection, steps[0]);
      assert forall i :: 0 <= i < |steps[1..]| && steps[1..][i].ToggleStep? ==> steps[1..][i].id in SectionIds by {
        forall i | 0 <= i < |steps[1..]| && steps[1..][i].ToggleStep? ensures steps[1..][i].id in SectionIds {
          assert steps[1..][i] == steps[i + 1];
        }
      }
      StepsStayReachable(next, steps[1..]);
    }
  }

  /** In particular, from the dialog's initial empty selection. */
  lemma FromEmptyReachable(steps: seq<Step>)
    requires forall i :: 0 <= i < |steps| && steps[i].ToggleStep? ==> steps[i].id in SectionIds
    ensures Reachable(RunSteps([], steps))
  {
    StepsStayReachable([], steps);
  }
}
