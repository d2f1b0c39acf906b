# ViewPurge command, modelled in Dafny

ViewPurge is a Revit add-in. Its one command deletes every view of a project
except the views the user has selected. This project models the decision and
filtering logic of that command, `Command.Execute` in `ViewPurge/Command.cs`.
The Revit object model is replaced by plain inputs:

- the selected elements, each with its id and its resolved name, in the order
  `Selection.GetElementIds` yields them;
- the id of the active view;
- the contents of the five view collectors: plans, sections, schedules, 3D
  views and sheets;
- the button pressed in the confirmation dialog: Yes, Cancel, or any other answer;
- what `Document.Delete` does: it throws, or it returns the ids it deleted.

`Command.Execute` returns an `Outcome`. It records the command result
(Succeeded, Cancelled or Failed), the text of the confirmation dialog if that
dialog was shown, the collection handed to `Delete` if a delete was attempted,
and whether the transaction was committed.

Files:

- `text.dfy` (module `Text`): ASCII lower-casing, which stands in for
  `String.ToLower`, and case-insensitive equality.
- `names.dfy` (module `NameList`): the loop that joins the selected names for
  the confirmation dialog, and what that loop produces.
- `purge.dfy` (module `Purge`): the exemption test and one filter loop that
  adds the unselected, non-exempt views to the deletion collection.
- `command.dfy` (module `Command`): the collected names, the deletion
  collection built from all five collectors, and `Execute` with its guard,
  dialog branches, delete and commit.

Behaviour the model makes explicit:

- **The name list has no separators in the common case.** The join loop adds
  `", "` only when the accumulator already holds a comma. The comment in the
  code reads "If first in list", so a list like "A, B, C" was evidently
  wanted. What the code actually produces for `["A", "B", "C"]` is `"ABC"`.
  A `", "` separator appears only after some name has brought a comma into
  the accumulator. The model follows the code (`NameList.JoinWithoutCommas`,
  `NameList.JoinAfterComma`).
- **A delete that removes nothing is a failure.** The code throws inside the
  `try` when `Delete` returns an empty collection. The `catch` then returns
  `Result.Failed` before the commit. The command does not fall through to
  success. The error dialog built in the `catch` is never shown, so the user
  sees nothing, but the result is Failed.
- **Sections are filtered last.** They are collected second but visited by the
  fifth loop, so the deletion collection lists the views of plans, schedules,
  3D views, sheets and then sections, each in collector order.

## Model

| member | source | states |
|---|---|---|
| `Command.Names` | ViewPurge/Command.cs:48-49 | Defines the names collected for the dialog: one entry per selected element, the element's name, in selection order. |
| `Command.Prompt` | ViewPurge/Command.cs:78 | Defines the dialog's main instruction: the fixed warning header followed by the joined names. The text always starts with that header. |
| `Command.Visited` | ViewPurge/Command.cs:115-133 | Defines the order in which the five loops visit views: plans, schedules, 3D views, sheets, and sections last. |
| `Command.DeletionSet` | ViewPurge/Command.cs:112-133 | Defines the deletion collection as the line-116 filter over the visited views. It holds no selected id and no more ids than there are collected views. |
| `Command.Execute` | ViewPurge/Command.cs:19-165 | If the active view is not selected, the result is Cancelled: no dialog, no delete, no commit. Otherwise the dialog shows the joined names. Cancel gives Cancelled with no delete and no commit. Any other non-Yes answer gives Succeeded with no delete and no commit. Yes hands `DeletionSet` to `Delete`. If that throws or returns nothing, the result is Failed without a commit; otherwise Succeeded with a commit. In every case, a commit happens exactly on a successful delete, and no selected id is ever handed to `Delete`. |
| `Command.CollectNames` | ViewPurge/Command.cs:43-49 | Returns the names of the selected elements, one per selected id, in selection order. |
| `Command.DeletionSetByCollector` | ViewPurge/Command.cs:115-133 | The deletion collection is the filter of plans, then schedules, then 3D views, then sheets, then sections, concatenated in that order. |
| `Command.KeptIffSelectedOrExempt` | ViewPurge/Command.cs:115-133 | With unique element ids, a collected view stays out of the deletion collection if and only if it is selected or has an exempt name. |
| `NameList.JoinStep` | ViewPurge/Command.cs:55-58 | Defines one iteration of the join loop: the name is appended bare while the accumulator holds no comma, and after ", " once it does. |
| `NameList.Join` | ViewPurge/Command.cs:52-59 | Defines the accumulator after the loop as the left fold of `JoinStep` from the empty string. Its properties are proved in `JoinIsClosed`, `CommaPersists`, `JoinLength` and `AccCommaIff`. |
| `NameList.FormatNames` | ViewPurge/Command.cs:52-59 | The loop's result is the left fold `Join` of the names. If no name contains a comma, it is their plain concatenation. Its length is the sum of the name lengths plus 2 for every name appended after the first comma. |
| `NameList.JoinIsClosed` | ViewPurge/Command.cs:52-59 | The join equals a reference form: names up to and including the first one that holds a comma are concatenated bare, and every later name gets a ", " prefix. |
| `NameList.CommaPersists` | ViewPurge/Command.cs:55-58 | Once the accumulator holds a comma, it keeps holding one, and every later name is appended with a ", " prefix. |
| `NameList.NoCommaIsConcat` | ViewPurge/Command.cs:55-56 | While no name contains a comma, names are appended bare, so the join is their concatenation. |
| `NameList.JoinLength` | ViewPurge/Command.cs:55-58 | The joined length is the sum of the name lengths plus 2 for each name appended after the accumulator first held a comma. |
| `NameList.CommaInConcat` | ViewPurge/Command.cs:55 | A concatenation of names holds a comma if and only if one of the names does. |
| `NameList.AccCommaIff` | ViewPurge/Command.cs:55 | The loop's branch test holds on the accumulator if and only if some name consumed so far contains a comma. |
| `NameList.FirstCommaSnoc` | ViewPurge/Command.cs:55-58 | Appending a name moves the first comma only if there was none yet. |
| `NameList.JoinWithoutCommas` | ViewPurge/Command.cs:52-59 | `["A", "B", "C"]` is shown as "ABC". |
| `NameList.JoinAfterComma` | ViewPurge/Command.cs:52-59 | `["A,B", "C"]` is shown as "A,B, C", and `["A", "B,C", "D"]` as "AB,C, D". |
| `Text.Lower` | ViewPurge/Command.cs:116 | Models `view.Name.ToLower()`: it keeps the length and lower-cases each character independently, mapping 'A'..'Z' to 'a'..'z' and leaving all others unchanged. |
| `Text.LowerEqIffIgnoreCase` | ViewPurge/Command.cs:116 | Comparing lower-cased strings is exactly position-by-position case-insensitive equality. |
| `Purge.IsExempt` | ViewPurge/Command.cs:116 | Defines the name test: the lower-cased name equals "project view" or "system browser". |
| `Purge.Deletable` | ViewPurge/Command.cs:116-132 | Defines the condition every filter loop tests (lines 116, 120, 124, 128 and 132): the view's id is not selected and its name is not exempt. |
| `Purge.ExemptIsCaseVariant` | ViewPurge/Command.cs:116 | Stated without lower-casing: a name is exempt if and only if every character matches the lower- or upper-case letter of "project view" (or of "system browser") at that position. The test is case-insensitive for exactly these two literals, and no other name is exempt. |
| `Purge.ExemptIgnoresCase` | ViewPurge/Command.cs:116 | A name is exempt if and only if it equals "project view" or "system browser" ignoring case. No other name is exempt. |
| `Purge.ProjectViewExempt` | ViewPurge/Command.cs:116 | "Project View" is exempt. |
| `Purge.SystemBrowserExempt` | ViewPurge/Command.cs:116 | "SYSTEM BROWSER" is exempt. |
| `Purge.NotExemptExamples` | ViewPurge/Command.cs:116 | "Project Views", "System  Browser" and "Level 1" are not exempt: spacing and extra text count. |
| `Purge.DeletionIds` | ViewPurge/Command.cs:115-117 | One collector's filter never yields a selected id, and yields no more ids than there are views. |
| `Purge.AddDeletable` | ViewPurge/Command.cs:115-117 | One filter loop appends exactly `DeletionIds` of its collector to the collection built so far. |
| `Purge.DeletionIdsAppend` | ViewPurge/Command.cs:115-133 | Filtering two view lists back to back gives the two filters concatenated. Order is kept across collectors. |
| `Purge.DeletionIdsMembers` | ViewPurge/Command.cs:115-133 | An id is in the filter's output if and only if some collected view with that id is neither selected nor exempt. |
| `Purge.DeletedIffDeletable` | ViewPurge/Command.cs:115-133 | With unique ids, a view is handed to deletion if and only if it is neither selected nor exempt. |
| `Purge.DeletionIdsAll` | ViewPurge/Command.cs:115-117 | If no view is selected or exempt, every view's id is deleted, in collector order. |
| `Purge.DeletionIdsNone` | ViewPurge/Command.cs:115-117 | If every view is selected or exempt, nothing is handed to deletion. |

## Left out

- ViewPurge/App.cs: ribbon tab, panel and button registration, the assembly-path reflection, the unused embedded-image loader and the shutdown handler. This is host UI glue with no logic to verify.
- The `sel.Equals(null)` check (Command.cs:34-41): it can never be true, since calling `Equals` on a null selection would throw instead, and it does not change the control flow either way.
- Dialog construction and display: the confirmation dialog is an input answer, and its text is recorded in `Outcome.prompt`. The active-view error dialog (Command.cs:64-70) and the delete-failure dialog (Command.cs:147-151) are built but never shown, so they have no effect. The completion notice (Command.cs:156) is shown exactly when the transaction commits, so it is not recorded separately.
- The Revit object model (`FilteredElementCollector`, `Document.GetElement`, `Document.Delete`, `Transaction`, `Selection`): these are inputs. Each selected id is assumed to resolve to an element, so the null dereference a missing element would cause is not modelled. What `Delete` does is an input value independent of the collection handed to it.
- The document after the delete: the model records the collection handed to `Delete`, not the host's resulting view set. Elements the host deletes as dependents are not modelled.
- Transaction start and the rollback on disposal: these are the host's job. Only the `committed` flag is modelled.
- The text of the caught exception (`e.Source`, `e.Message`): it only feeds the dialog that is never shown.
- `Text.Lower`: does not model the culture-sensitive `String.ToLower` of .NET; only 'A'..'Z' are lower-cased. The result can differ from the host's in two ways. A name with a non-ASCII letter that lower-cases to ASCII is compared differently. Under a Turkish or Azerbaijani culture, .NET lower-cases 'I' to the dotless 'ı' (U+0131), so any name with an upper-case 'I', such as "PROJECT VIEW", is not exempt there but is exempt in the model.
- `Purge.DeletedIffDeletable` and `Command.KeptIffSelectedOrExempt`: the "only if" direction needs unique element ids, which the host guarantees. Without that requirement the model states only that every handed-over id belongs to some non-selected, non-exempt view (`Purge.DeletionIdsMembers`).
- Element ids are unbounded integers; the host's id width plays no part in the logic.
