/** `Command.Execute` (ViewPurge/Command.cs:19-165) over plain data.

    The host's object model is replaced by inputs: the selected elements (id
    and resolved name, in the order `GetElementIds` yields them), the active
    view's id, the five view collectors' contents, the button the user
    presses in the confirmation dialog, and what `Document.Delete` does with
    the deletion collection. The observable effects are collected in an
    `Outcome`. */
module Command {
  import opened Purge
  import NameList

  datatype Option<T> = None | Some(value: T)

  /** The answer of the confirmation dialog; `Other` stands for every
      `TaskDialogResult` that is neither Yes nor Cancel. */
  datatype DialogAnswer = Yes | Cancel | Other

  /** What `Document.Delete` does: it throws, or it returns the ids it deleted. */
  datatype DeleteReply = Threw | Deleted(ids: seq<ElementId>)

  /** The host's command result. */
  datatype Result = Succeeded | Cancelled | Failed

  /** What one invocation does: its result, the text of the confirmation
      dialog if that dialog was shown, the collection handed to `Delete` if
      the delete was attempted, and whether the transaction was committed. */
  datatype Outcome = Outcome(
    result: Result,
    prompt: Option<string>,
    deletion: Option<seq<ElementId>>,
    committed: bool)

  const PromptHeader: string :=
    "Are you sure you want to delete unselected views? WARNING: THIS CANNOT BE UNDONE! \n Views saved: "

  /** The names of the selected elements, in selection order. */
  function Names(selection: seq<Element>): (r: seq<string>)
    ensures |r| == |selection|
    ensures forall i :: 0 <= i < |selection| ==> r[i] == selection[i].name
  {
    seq(|selection|, i requires 0 <= i < |selection| => selection[i].name)
  }

  /** The main instruction of the confirmation dialog (Command.cs:78). */
  function Prompt(selection: seq<Element>): (r: string)
    ensures |r| >= |PromptHeader| && r[..|PromptHeader|] == PromptHeader
  {
    PromptHeader + NameList.Join(Names(selection))
  }

  /** Every collected view, in the order the filter loops visit the
      collectors: plans, schedules, 3D views, sheets, and sections last,
      although sections are collected second. */
  function Visited(plans: seq<Element>, sections: seq<Element>, schedules: seq<Element>,
                   views3D: seq<Element>, sheets: seq<Element>): (r: seq<Element>)
  {
    plans + schedules + views3D + sheets + sections
  }

  /** The deletion collection the five loops build. */
  function DeletionSet(selected: seq<ElementId>, plans: seq<Element>, sections: seq<Element>,
                       schedules: seq<Element>, views3D: seq<Element>, sheets: seq<Element>): (r: seq<ElementId>)
    ensures |r| <= |plans| + |sections| + |schedules| + |views3D| + |sheets|
    ensures forall i :: 0 <= i < |r| ==> r[i] !in selected
  {
    DeletionIds(Visited(plans, sections, schedules, views3D, sheets), selected)
  }

  /** The deletion collection is the filter of each collector in turn,
      concatenated in loop order. */
  lemma {:induction false} DeletionSetByCollector(selected: seq<ElementId>, plans: seq<Element>,
      sections: seq<Element>, schedules: seq<Element>, views3D: seq<Element>, sheets: seq<Element>)
    ensures DeletionSet(selected, plans, sections, schedules, views3D, sheets) ==
      DeletionIds(plans, selected) + DeletionIds(schedules, selected) + DeletionIds(views3D, selected)
      + DeletionIds(sheets, selected) + DeletionIds(sections, selected)
  {
    DeletionIdsAppend(plans, schedules, selected);
    DeletionIdsAppend(plans + schedules, views3D, selected);
    DeletionIdsAppend(plans + schedules + views3D, sheets, selected);
    DeletionIdsAppend(plans + schedules + views3D + sheets, sections, selected);
  }

  /** With the host's unique ids, a collected view ends up in the deletion
      collection exactly when it is neither selected nor exempt; so the views
      that are kept are exactly the selected and the exempt ones. */
  lemma {:induction false} KeptIffSelectedOrExempt(selection: seq<Element>, plans: seq<Element>,
      sections: seq<Element>, schedules: seq<Element>, views3D: seq<Element>, sheets: seq<Element>)
    requires UniqueIds(Visited(plans, sections, schedules, views3D, sheets))
    ensures var all := Visited(plans, sections, schedules, views3D, sheets);
      forall j :: 0 <= j < |all| ==>
        (all[j].id !in DeletionSet(Ids(selection), plans, sections, schedules, views3D, sheets)
         <==> all[j].id in Ids(selection) || IsExempt(all[j].name))
  {
    DeletedIffDeletable(Visited(plans, sections, schedules, views3D, sheets), Ids(selection));
  }

  /** The name-collecting loop of Command.cs:48-49. */
  method CollectNames(selection: seq<Element>) returns (names: seq<string>)
    ensures names == Names(selection)
  {
    names := [];
    var i := 0;
    while i < |selection|
      invariant i <= |selection|
      invariant names == Names(selection[..i])
    {
      names := names + [selection[i].name];
      i := i + 1;
    }
    assert selection[..i] == selection;
  }

  /** `Command.Execute`, with the guard, the dialog branches, the five filter
      loops, the delete and the commit. */
  method Execute(selection: seq<Element>, activeView: ElementId,
                 plans: seq<Element>, sections: seq<Element>, schedules: seq<Element>,
                 views3D: seq<Element>, sheets: seq<Element>,
                 answer: DialogAnswer, reply: DeleteReply)
    returns (outcome: Outcome)
    // The active view must be selected; otherwise nothing is shown, deleted or committed.
    ensures activeView !in Ids(selection) ==> outcome == Outcome(Cancelled, None, None, false)
    // Past the guard the confirmation dialog lists the selected names.
    ensures activeView in Ids(selection) ==> outcome.prompt == Some(Prompt(selection))
    // Cancel aborts; any other answer but Yes ends successfully without deleting.
    ensures activeView in Ids(selection) && answer == Cancel ==>
      outcome.result == Cancelled && outcome.deletion == None && !outcome.committed
    ensures activeView in Ids(selection) && answer == Other ==>
      outcome.result == Succeeded && outcome.deletion == None && !outcome.committed
    // On Yes the unselected, non-exempt views are handed to Delete.
    ensures activeView in Ids(selection) && answer == Yes ==>
      outcome.deletion == Some(DeletionSet(Ids(selection), plans, sections, schedules, views3D, sheets))
    // A throwing or empty delete fails before the commit; anything else commits.
    ensures activeView in Ids(selection) && answer == Yes ==>
      if reply.Threw? || |reply.ids| == 0 then outcome.result == Failed && !outcome.committed
      else outcome.result == Succeeded && outcome.committed
    // Whatever happens: a commit only follows a delete, and never a selected view.
    ensures outcome.committed <==> outcome.result == Succeeded && outcome.deletion.Some?
    ensures outcome.deletion.Some? ==>
      forall i :: 0 <= i < |outcome.deletion.value| ==> outcome.deletion.value[i] !in Ids(selection)
  {
    var selected := Ids(selection);
    var names := CollectNames(selection);
    var formatted := NameList.FormatNames(names);

    if activeView !in selected {
      return Outcome(Cancelled, None, None, false);
    }

    var prompt := Some(PromptHeader + formatted);
    if answer == Cancel {
      return Outcome(Cancelled, prompt, None, false);
    }

    if answer == Yes {
      var idSelection: seq<ElementId> := [];
      idSelection := AddDeletable(idSelection, plans, selected);
      assert idSelection == DeletionIds(plans, selected);
      idSelection := AddDeletable(idSelection, schedules, selected);
      idSelection := AddDeletable(idSelection, views3D, selected);
      idSelection := AddDeletable(idSelection, sheets, selected);
      idSelection := AddDeletable(idSelection, sections, selected);
      DeletionSetByCollector(selected, plans, sections, schedules, views3D, sheets);
      assert idSelection == DeletionSet(selected, plans, sections, schedules, views3D, sheets);

      match reply {
        case Threw =>
          return Outcome(Failed, prompt, Some(idSelection), false);
        case Deleted(deletedIdSet) =>
          if |deletedIdSet| == 0 {
            return Outcome(Failed, prompt, Some(idSelection), false);
          }
      }
      return Outcome(Succeeded, prompt, Some(idSelection), true);
    } else {
      return Outcome(Succeeded, prompt, None, false);
    }
  }
}
