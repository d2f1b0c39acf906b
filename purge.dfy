/** Which views the purge hands to the host for deletion
    (ViewPurge/Command.cs:112-133): every collected view whose id is not
    selected and whose lower-cased name is neither "project view" nor
    "system browser", in collector order. */
module Purge {
  import Text

  /** The host's opaque element identity. */
  type ElementId = int

  /** What the command reads of an element: its id and its name. */
  datatype Element = Element(id: ElementId, name: string)

  const ProjectView: string := "project view"
  const SystemBrowser: string := "system browser"

  /** The name test of Command.cs:116: `name.ToLower()` equals one of the two
      exempt literals. */
  predicate IsExempt(name: string) {
    var lower := Text.Lower(name);
    lower == ProjectView || lower == SystemBrowser
  }

  /** The ids of a sequence of elements, in order. */
  function Ids(es: seq<Element>): (r: seq<ElementId>)
    ensures |r| == |es|
    ensures forall i :: 0 <= i < |es| ==> r[i] == es[i].id
  {
    seq(|es|, i requires 0 <= i < |es| => es[i].id)
  }

  /** The condition of Command.cs:116, 120, 124, 128 and 132. */
  predicate Deletable(v: Element, selected: seq<ElementId>) {
    v.id !in selected && !IsExempt(v.name)
  }

  /** The ids one filter loop adds, in the order the collector yields the views. */
  function DeletionIds(views: seq<Element>, selected: seq<ElementId>): (r: seq<ElementId>)
    ensures |r| <= |views|
    ensures forall i :: 0 <= i < |r| ==> r[i] !in selected
    decreases |views|
  {
    if |views| == 0 then []
    else
      var rest := DeletionIds(views[..|views| - 1], selected);
      var v := views[|views| - 1];
      if Deletable(v, selected) then rest + [v.id] else rest
  }

  /** No two views share an id, as the host guarantees for element ids. */
  predicate UniqueIds(views: seq<Element>) {
    forall i, j :: 0 <= i < |views| && 0 <= j < |views| && views[i].id == views[j].id ==> i == j
  }

  /** The two exempt literals are already in lower case. */
  lemma {:induction false} ProjectViewIsLower()
    ensures Text.Lower(ProjectView) == ProjectView
  {
    assert forall i :: 0 <= i < |"project view"| ==> !Text.IsUpper("project view"[i]);
    Text.LowerOfLowerCase("project view");
  }

  lemma {:induction false} SystemBrowserIsLower()
    ensures Text.Lower(SystemBrowser) == SystemBrowser
  {
    assert forall i :: 0 <= i < |"system browser"| ==> !Text.IsUpper("system browser"[i]);
    Text.LowerOfLowerCase("system browser");
  }

  /** Exemption is case-insensitive equality with one of the two literals,
      and nothing else. */
  lemma {:induction false} ExemptIgnoresCase(name: string)
    ensures IsExempt(name) <==>
      Text.EqualsIgnoreCase(name, "project view") || Text.EqualsIgnoreCase(name, "system browser")
  {
    ProjectViewIsLower();
    SystemBrowserIsLower();
    Text.LowerEqIffIgnoreCase(name, ProjectView);
    Text.LowerEqIffIgnoreCase(name, SystemBrowser);
  }

  lemma {:induction false} ProjectViewPair()
    ensures Text.CasePair("project view", "PROJECT VIEW")
  {
    assert forall i :: 0 <= i < 12 ==> !Text.IsUpper("project view"[i]) && Text.IsUpperOf("PROJECT VIEW"[i], "project view"[i]);
  }

  lemma {:induction false} SystemBrowserPair()
    ensures Text.CasePair("system browser", "SYSTEM BROWSER")
  {
    assert forall i :: 0 <= i < 14 ==> !Text.IsUpper("system browser"[i]) && Text.IsUpperOf("SYSTEM BROWSER"[i], "system browser"[i]);
  }

  /** Exemption, stated without lower-casing: a name is exempt exactly when
      each of its characters is the lower- or the upper-case letter of one of
      the two literals at that position. */
  lemma {:induction false} ExemptIsCaseVariant(name: string)
    ensures IsExempt(name) <==>
      Text.CaseVariant(name, "project view", "PROJECT VIEW") ||
      Text.CaseVariant(name, "system browser", "SYSTEM BROWSER")
  {
    ProjectViewPair();
    SystemBrowserPair();
    Text.VariantIff(name, "project view", "PROJECT VIEW");
    Text.VariantIff(name, "system browser", "SYSTEM BROWSER");
  }

  /** The filter over two lists run back to back is the two filters concatenated. */
  lemma {:induction false} DeletionIdsAppend(a: seq<Element>, b: seq<Element>, selected: seq<ElementId>)
    ensures DeletionIds(a + b, selected) == DeletionIds(a, selected) + DeletionIds(b, selected)
    decreases |b|
  {
    if |b| == 0 {
      assert a + b == a;
    } else {
      var b' := b[..|b| - 1];
      assert (a + b)[..|a + b| - 1] == a + b';
      assert (a + b)[|a + b| - 1] == b[|b| - 1];
      DeletionIdsAppend(a, b', selected);
    }
  }

  /** An id is handed to deletion exactly when some collected view with that
      id is neither selected nor exempt. */
  lemma {:induction false} DeletionIdsMembers(views: seq<Element>, selected: seq<ElementId>, x: ElementId)
    ensures x in DeletionIds(views, selected) <==>
      exists j :: 0 <= j < |views| && views[j].id == x && Deletable(views[j], selected)
    decreases |views|
  {
    if |views| != 0 {
      var p := views[..|views| - 1];
      var v := views[|views| - 1];
      DeletionIdsMembers(p, selected, x);
      if x in DeletionIds(views, selected) {
        if x in DeletionIds(p, selected) {
          var j :| 0 <= j < |p| && p[j].id == x && Deletable(p[j], selected);
          assert views[j] == p[j];
        } else {
          assert views[|views| - 1].id == x && Deletable(views[|views| - 1], selected);
        }
      }
      if exists j :: 0 <= j < |views| && views[j].id == x && Deletable(views[j], selected) {
        var j :| 0 <= j < |views| && views[j].id == x && Deletable(views[j], selected);
        if j < |p| {
          assert p[j] == views[j];
          assert x in DeletionIds(p, selected);
        } else {
          assert v == views[j];
        }
      }
    }
  }

  /** With unique ids, a collected view is deleted if and only if it is neither
      selected nor exempt: no selected or exempt view is ever deleted, and
      every other view is. */
  lemma {:induction false} DeletedIffDeletable(views: seq<Element>, selected: seq<ElementId>)
    requires UniqueIds(views)
    ensures forall j :: 0 <= j < |views| ==>
      (views[j].id in DeletionIds(views, selected) <==> Deletable(views[j], selected))
  {
    forall j | 0 <= j < |views|
      ensures views[j].id in DeletionIds(views, selected) <==> Deletable(views[j], selected)
    {
      DeletionIdsMembers(views, selected, views[j].id);
    }
  }

  /** When nothing is selected or exempt, every view is deleted, in collector order. */
  lemma {:induction false} DeletionIdsAll(views: seq<Element>, selected: seq<ElementId>)
    requires forall j :: 0 <= j < |views| ==> Deletable(views[j], selected)
    ensures DeletionIds(views, selected) == Ids(views)
    decreases |views|
  {
    if |views| != 0 {
      var p := views[..|views| - 1];
      DeletionIdsAll(p, selected);
      assert Ids(views) == Ids(p) + [views[|views| - 1].id];
    }
  }

  /** When every view is selected or exempt, nothing is deleted. */
  lemma {:induction false} DeletionIdsNone(views: seq<Element>, selected: seq<ElementId>)
    requires forall j :: 0 <= j < |views| ==> !Deletable(views[j], selected)
    ensures DeletionIds(views, selected) == []
    decreases |views|
  {
    if |views| != 0 {
      DeletionIdsNone(views[..|views| - 1], selected);
    }
  }

  /** Concrete names: the test ignores case. */
  lemma {:induction false} ProjectViewExempt()
    ensures IsExempt("Project View")
  {
    assert forall i :: 0 <= i < 12 ==> Text.LowerChar("Project View"[i]) == Text.LowerChar("project view"[i]);
    ExemptIgnoresCase("Project View");
  }

  lemma {:induction false} SystemBrowserExempt()
    ensures IsExempt("SYSTEM BROWSER")
  {
    assert forall i :: 0 <= i < 14 ==> Text.LowerChar("SYSTEM BROWSER"[i]) == Text.LowerChar("system browser"[i]);
    ExemptIgnoresCase("SYSTEM BROWSER");
  }

  /** Only names as long as one of the literals can be exempt. */
  lemma {:induction false} ExemptLength(name: string)
    requires IsExempt(name)
    ensures |name| == |ProjectView| || |name| == |SystemBrowser|
  {
  }

  /** Concrete names: spacing and extra text are not ignored. */
  lemma {:induction false} NotExemptExamples()
    ensures !IsExempt("Project Views") && !IsExempt("System  Browser") && !IsExempt("Level 1")
  {
    if IsExempt("Project Views") { ExemptLength("Project Views"); }
    if IsExempt("System  Browser") { ExemptLength("System  Browser"); }
    if IsExempt("Level 1") { ExemptLength("Level 1"); }
  }

  /** One of the five filter loops of Command.cs:115-133, appending to the
      deletion collection in place. */
  method AddDeletable(idSelection: seq<ElementId>, views: seq<Element>, selected: seq<ElementId>)
    returns (result: seq<ElementId>)
    ensures result == idSelection + DeletionIds(views, selected)
  {
    result := idSelection;
    var i := 0;
    while i < |views|
      invariant i <= |views|
      invariant result == idSelection + DeletionIds(views[..i], selected)
    {
      var view := views[i];
      assert views[..i + 1][..i] == views[..i];
      if view.id !in selected && Text.Lower(view.name) != ProjectView && Text.Lower(view.name) != SystemBrowser {
        result := result + [view.id];
      }
      i := i + 1;
    }
    assert views[..i] == views;
  }
}
