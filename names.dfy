/** The list of selected element names shown in the confirmation dialog
    (ViewPurge/Command.cs:43-59).

    The separator decision asks whether the accumulator already contains a
    comma. Names without commas are therefore glued together with no
    separator at all; the ", " separator only appears once some name has
    brought a comma into the accumulator. */
module NameList {

  /** One iteration of the join loop (Command.cs:55-58). */
  function JoinStep(acc: string, name: string): (r: string) {
    if ',' !in acc then acc + name else acc + ", " + name
  }

  /** The value of the accumulator after the join loop has consumed `names`,
      as a left fold of `JoinStep` starting from "". */
  function Join(names: seq<string>): (r: string)
    decreases |names|
  {
    if |names| == 0 then "" else JoinStep(Join(names[..|names| - 1]), names[|names| - 1])
  }

  /** Plain concatenation of the names. */
  function Concat(names: seq<string>): (r: string)
    decreases |names|
  {
    if |names| == 0 then "" else Concat(names[..|names| - 1]) + names[|names| - 1]
  }

  /** Every name with a ", " prefix, concatenated. */
  function Prefixed(names: seq<string>): (r: string)
    decreases |names|
  {
    if |names| == 0 then "" else Prefixed(names[..|names| - 1]) + ", " + names[|names| - 1]
  }

  function SumLengths(names: seq<string>): (n: nat)
    decreases |names|
  {
    if |names| == 0 then 0 else SumLengths(names[..|names| - 1]) + |names[|names| - 1]|
  }

  /** The index of the first name that contains a comma, or |names| if none does. */
  function FirstComma(names: seq<string>): (k: nat)
    ensures k <= |names|
  {
    if |names| == 0 then 0
    else if ',' in names[0] then 0
    else 1 + FirstComma(names[1..])
  }

  /** `FirstComma` is the least index of a name holding a comma. */
  lemma {:induction false} FirstCommaIsFirst(names: seq<string>)
    ensures forall j :: 0 <= j < FirstComma(names) ==> ',' !in names[j]
    ensures FirstComma(names) < |names| ==> ',' in names[FirstComma(names)]
    decreases |names|
  {
    if |names| != 0 && ',' !in names[0] {
      FirstCommaIsFirst(names[1..]);
      forall j | 1 <= j < FirstComma(names) ensures ',' !in names[j] {
        assert names[j] == names[1..][j - 1];
      }
    }
  }

  /** How many names the loop appends with a ", " prefix: all those after the
      first name containing a comma. */
  function PrefixedCount(names: seq<string>): (n: nat) {
    var k := FirstComma(names);
    if k == |names| then 0 else |names| - k - 1
  }

  /** Reference description of the join: names up to and including the first
      one with a comma are concatenated bare, every later one gets ", ". */
  function JoinClosed(names: seq<string>): (r: string) {
    var k := FirstComma(names);
    if k == |names| then Concat(names) else Concat(names[..k + 1]) + Prefixed(names[k + 1..])
  }

  /** A concatenation contains a comma exactly when one of its parts does. */
  lemma {:induction false} CommaInConcat(names: seq<string>)
    ensures ',' in Concat(names) <==> exists j :: 0 <= j < |names| && ',' in names[j]
    decreases |names|
  {
    if |names| != 0 {
      var p, x := names[..|names| - 1], names[|names| - 1];
      CommaInConcat(p);
      assert Concat(names) == Concat(p) + x;
      if ',' in Concat(names) {
        if ',' in x {
          assert ',' in names[|names| - 1];
        } else {
          var j :| 0 <= j < |p| && ',' in p[j];
          assert names[j] == p[j];
        }
      }
      if exists j :: 0 <= j < |names| && ',' in names[j] {
        var j :| 0 <= j < |names| && ',' in names[j];
        if j < |p| {
          assert p[j] == names[j];
          assert ',' in Concat(p);
        } else {
          assert x == names[j];
        }
        var c :| c in Concat(p) + x && c == ',';
      }
    }
  }

  lemma {:induction false} ConcatLength(names: seq<string>)
    ensures |Concat(names)| == SumLengths(names)
    decreases |names|
  {
    if |names| != 0 {
      ConcatLength(names[..|names| - 1]);
    }
  }

  lemma {:induction false} PrefixedLength(names: seq<string>)
    ensures |Prefixed(names)| == SumLengths(names) + 2 * |names|
    decreases |names|
  {
    if |names| != 0 {
      PrefixedLength(names[..|names| - 1]);
    }
  }

  lemma {:induction false} SumLengthsAppend(a: seq<string>, b: seq<string>)
    ensures SumLengths(a + b) == SumLengths(a) + SumLengths(b)
    decreases |b|
  {
    if b == [] {
      assert a + b == a;
    } else {
      var b', x := b[..|b| - 1], b[|b| - 1];
      assert (a + b)[..|a + b| - 1] == a + b';
      SumLengthsAppend(a, b');
    }
  }

  /** The step of `JoinIsClosed` while no earlier name holds a comma. */
  lemma {:induction false} JoinClosedStepBare(p: seq<string>, x: string)
    requires FirstComma(p) == |p|
    ensures JoinStep(JoinClosed(p), x) == JoinClosed(p + [x])
  {
    var names := p + [x];
    assert names[..|names| - 1] == p;
    FirstCommaIsFirst(p);
    CommaInConcat(p);
    assert JoinStep(JoinClosed(p), x) == Concat(names);
    FirstCommaSnoc(p, x);
    if ',' in x {
      assert names[..|p| + 1] == names;
      assert names[|p| + 1..] == [];
    }
  }

  lemma {:induction false} PrefixedSnoc(a: seq<string>, x: string)
    ensures Prefixed(a + [x]) == Prefixed(a) + ", " + x
  {
    assert (a + [x])[..|a|] == a;
  }

  /** Appending a name moves the first comma only if there was none yet. */
  lemma {:induction false} FirstCommaSnoc(p: seq<string>, x: string)
    ensures FirstComma(p + [x]) ==
      if FirstComma(p) < |p| then FirstComma(p) else if ',' in x then |p| else |p| + 1
    decreases |p|
  {
    if p != [] {
      assert (p + [x])[0] == p[0];
      assert (p + [x])[1..] == p[1..] + [x];
      FirstCommaSnoc(p[1..], x);
    }
  }

  lemma {:induction false} FirstCommaKept(p: seq<string>, x: string)
    requires FirstComma(p) < |p|
    ensures FirstComma(p + [x]) == FirstComma(p)
  {
    FirstCommaSnoc(p, x);
  }

  lemma {:induction false} ClosedHasComma(p: seq<string>)
    requires FirstComma(p) < |p|
    ensures ',' in JoinClosed(p)
  {
    var k := FirstComma(p);
    FirstCommaIsFirst(p);
    CommaInConcat(p[..k + 1]);
    assert p[..k + 1][k] == p[k];
  }

  /** Slicing commutes with appending one element (stated generically, which
      keeps the solver away from comparing the strings themselves). */
  lemma {:induction false} SliceSnoc<T>(p: seq<T>, x: T, i: nat)
    requires i <= |p|
    ensures (p + [x])[..i] == p[..i]
    ensures (p + [x])[i..] == p[i..] + [x]
  {
  }

  /** `JoinClosed` once the input holds a comma, with the split written out. */
  lemma {:induction false} ClosedSplit(p: seq<string>)
    requires FirstComma(p) < |p|
    ensures JoinClosed(p) == Concat(p[..FirstComma(p) + 1]) + Prefixed(p[FirstComma(p) + 1..])
  {
  }

  /** `JoinClosed` of a longer list, split at the first comma of the shorter one. */
  lemma {:induction false} ClosedSnocSplit(p: seq<string>, x: string)
    requires FirstComma(p) < |p|
    ensures JoinClosed(p + [x]) == Concat(p[..FirstComma(p) + 1]) + Prefixed(p[FirstComma(p) + 1..] + [x])
  {
    var k := FirstComma(p);
    FirstCommaKept(p, x);
    ClosedSplit(p + [x]);
    SliceSnoc(p, x, k + 1);
  }

  /** Once the first comma is behind, the reference form grows by ", " + x. */
  lemma {:induction false} ClosedSnocPrefixed(p: seq<string>, x: string)
    requires FirstComma(p) < |p|
    ensures JoinClosed(p + [x]) == JoinClosed(p) + ", " + x
  {
    var k := FirstComma(p);
    var head, tail := Concat(p[..k + 1]), Prefixed(p[k + 1..]);
    ClosedSnocSplit(p, x);
    PrefixedSnoc(p[k + 1..], x);
    ClosedSplit(p);
    Reassociate(head, tail, ", ", x);
  }

  lemma {:induction false} Reassociate<T>(a: seq<T>, b: seq<T>, c: seq<T>, d: seq<T>)
    ensures a + (b + c + d) == a + b + c + d
  {
  }

  /** The step of `JoinIsClosed` once some earlier name holds a comma. */
  lemma {:induction false} JoinClosedStepPrefixed(p: seq<string>, x: string)
    requires FirstComma(p) < |p|
    ensures JoinStep(JoinClosed(p), x) == JoinClosed(p + [x])
  {
    ClosedHasComma(p);
    ClosedSnocPrefixed(p, x);
  }

  /** The fold and the reference description agree on every input. */
  lemma {:induction false} JoinIsClosed(names: seq<string>)
    ensures Join(names) == JoinClosed(names)
    decreases |names|
  {
    if |names| != 0 {
      var p, x := names[..|names| - 1], names[|names| - 1];
      assert names == p + [x];
      JoinIsClosed(p);
      assert Join(names) == JoinStep(JoinClosed(p), x);
      if FirstComma(p) == |p| {
        JoinClosedStepBare(p, x);
      } else {
        JoinClosedStepPrefixed(p, x);
      }
    }
  }

  /** The branch test of the join loop, `',' in acc`, holds exactly when some
      name consumed so far contains a comma. */
  lemma {:induction false} AccCommaIff(names: seq<string>)
    ensures ',' in Join(names) <==> exists j :: 0 <= j < |names| && ',' in names[j]
  {
    JoinIsClosed(names);
    FirstCommaIsFirst(names);
    if FirstComma(names) == |names| {
      CommaInConcat(names);
    } else {
      ClosedHasComma(names);
    }
  }

  /** While no name so far contained a comma, names are appended bare: the
      accumulator is the plain concatenation. */
  lemma {:induction false} NoCommaIsConcat(names: seq<string>)
    requires forall j :: 0 <= j < |names| ==> ',' !in names[j]
    ensures Join(names) == Concat(names)
  {
    FirstCommaIsFirst(names);
    JoinIsClosed(names);
  }

  /** Once the accumulator holds a comma it keeps one, and every later name
      is appended with a ", " prefix. */
  lemma {:induction false} CommaPersists(names: seq<string>, i: nat)
    requires i <= |names|
    requires ',' in Join(names[..i])
    ensures ',' in Join(names)
    ensures Join(names) == Join(names[..i]) + Prefixed(names[i..])
    decreases |names| - i
  {
    if i == |names| {
      assert names[..i] == names;
      assert names[i..] == [];
    } else {
      var n := |names|;
      var p, x := names[..n - 1], names[n - 1];
      assert p[..i] == names[..i];
      CommaPersists(p, i);
      assert ',' in Join(p);
      assert names[i..][..|names[i..]| - 1] == p[i..];
      assert Prefixed(names[i..]) == Prefixed(p[i..]) + ", " + x;
    }
  }

  /** The length of the shown list: the names' lengths plus two characters for
      every name appended after the first comma. */
  lemma {:induction false} JoinLength(names: seq<string>)
    ensures |Join(names)| == SumLengths(names) + 2 * PrefixedCount(names)
  {
    JoinIsClosed(names);
    var k := FirstComma(names);
    if k == |names| {
      ConcatLength(names);
    } else {
      ConcatLength(names[..k + 1]);
      PrefixedLength(names[k + 1..]);
      assert names == names[..k + 1] + names[k + 1..];
      SumLengthsAppend(names[..k + 1], names[k + 1..]);
    }
  }

  /** Comma-free names are glued together with no separator at all. */
  lemma {:induction false} JoinWithoutCommas()
    ensures Join(["A", "B", "C"]) == "ABC"
  {
    var l := ["A", "B", "C"];
    NoCommaIsConcat(l);
    assert l[..2] == ["A", "B"];
    assert l[..2][..1] == ["A"];
    assert Concat(["A"]) == "A";
  }

  /** A comma inside the first name switches the ", " separator on. */
  lemma {:induction false} JoinAfterComma()
    ensures Join(["A,B", "C"]) == "A,B, C"
    ensures Join(["A", "B,C", "D"]) == "AB,C, D"
  {
    var l := ["A,B", "C"];
    JoinIsClosed(l);
    assert ',' in l[0];
    assert l[..1] == ["A,B"];
    assert l[1..] == ["C"];
    assert Concat(["A,B"]) == "A,B";
    assert Prefixed(["C"]) == ", C";
    var m := ["A", "B,C", "D"];
    JoinIsClosed(m);
    assert ',' !in m[0] && ',' in m[1];
    assert m[1..][1..] == ["D"];
    assert m[..2] == ["A", "B,C"];
    assert m[..2][..1] == ["A"];
    assert m[2..] == ["D"];
    assert Concat(["A", "B,C"]) == "AB,C";
    assert Prefixed(["D"]) == ", D";
  }

  /** The join loop of Command.cs:52-59 over a list of names. */
  method FormatNames(names: seq<string>) returns (formatted: string)
    ensures formatted == Join(names)
    ensures (forall j :: 0 <= j < |names| ==> ',' !in names[j]) ==> formatted == Concat(names)
    ensures |formatted| == SumLengths(names) + 2 * PrefixedCount(names)
  {
    formatted := "";
    var i := 0;
    while i < |names|
      invariant i <= |names|
      invariant formatted == Join(names[..i])
    {
      assert names[..i + 1][..i] == names[..i];
      if ',' !in formatted {
        formatted := formatted + names[i];
      } else {
        formatted := formatted + ", " + names[i];
      }
      i := i + 1;
    }
    assert names[..i] == names;
    if forall j :: 0 <= j < |names| ==> ',' !in names[j] {
      NoCommaIsConcat(names);
    }
    JoinLength(names);
  }
}
