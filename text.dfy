/** ASCII case handling for view names: the model of .NET's `String.ToLower`
    restricted to the letters 'A'..'Z', and case-insensitive equality. */
module Text {

  predicate IsUpper(c: char) {
    'A' <= c <= 'Z'
  }

  /** Lower-cases one character; everything but 'A'..'Z' is left alone. */
  function LowerChar(c: char): (r: char)
    ensures !IsUpper(r)
    ensures IsUpper(c) ==> r as int == c as int + 32
    ensures !IsUpper(c) ==> r == c
  {
    if IsUpper(c) then (c as int + 32) as char else c
  }

  /** `s.ToLower()`, character by character. */
  function Lower(s: string): (r: string)
    ensures |r| == |s|
    ensures forall i :: 0 <= i < |s| ==> r[i] == LowerChar(s[i])
  {
    if s == [] then [] else [LowerChar(s[0])] + Lower(s[1..])
  }

  /** Case-insensitive equality, stated position by position. */
  predicate EqualsIgnoreCase(a: string, b: string) {
    |a| == |b| && forall i :: 0 <= i < |a| ==> LowerChar(a[i]) == LowerChar(b[i])
  }

  /** The upper-case partner of a character: 'a'..'z' shifted down by 32,
      everything else itself. */
  predicate IsUpperOf(u: char, l: char) {
    if 'a' <= l <= 'z' then u as int == l as int - 32 else u == l
  }

  /** `up` spells the lower-case string `lo` in upper case, position by position. */
  predicate CasePair(lo: string, up: string) {
    |lo| == |up| && forall i :: 0 <= i < |lo| ==> !IsUpper(lo[i]) && IsUpperOf(up[i], lo[i])
  }

  /** `s` is `lo` with each position taken from either `lo` or `up`: a
      spelling of the same word in any mixture of cases. */
  predicate CaseVariant(s: string, lo: string, up: string)
    requires |lo| == |up|
  {
    |s| == |lo| && forall i :: 0 <= i < |s| ==> s[i] == lo[i] || s[i] == up[i]
  }

  /** A character lower-cases to a lower-case `l` exactly when it is `l` or
      its upper-case partner. */
  lemma {:induction false} CharVariant(c: char, l: char, u: char)
    requires !IsUpper(l) && IsUpperOf(u, l)
    ensures LowerChar(c) == l <==> c == l || c == u
  {
  }

  /** Lower-casing to `lo` is exactly being a case variant of `lo`. */
  lemma {:induction false} VariantIff(s: string, lo: string, up: string)
    requires CasePair(lo, up)
    ensures Lower(s) == lo <==> CaseVariant(s, lo, up)
  {
    if |s| == |lo| {
      forall i | 0 <= i < |s| ensures LowerChar(s[i]) == lo[i] <==> s[i] == lo[i] || s[i] == up[i] {
        CharVariant(s[i], lo[i], up[i]);
      }
      if CaseVariant(s, lo, up) {
        assert forall i :: 0 <= i < |s| ==> Lower(s)[i] == lo[i];
      }
      if Lower(s) == lo {
        assert forall i :: 0 <= i < |s| ==> Lower(s)[i] == lo[i];
      }
    }
  }

  /** A string without upper-case letters is its own lower-case form. */
  lemma {:induction false} LowerOfLowerCase(s: string)
    requires forall i :: 0 <= i < |s| ==> !IsUpper(s[i])
    ensures Lower(s) == s
  {
  }

  /** Comparing lower-case forms is exactly case-insensitive equality. */
  lemma {:induction false} LowerEqIffIgnoreCase(a: string, b: string)
    ensures Lower(a) == Lower(b) <==> EqualsIgnoreCase(a, b)
  {
    if EqualsIgnoreCase(a, b) {
      assert forall i :: 0 <= i < |a| ==> Lower(a)[i] == Lower(b)[i];
    }
    if Lower(a) == Lower(b) {
      forall i | 0 <= i < |a| ensures LowerChar(a[i]) == LowerChar(b[i]) {
        assert Lower(a)[i] == Lower(b)[i];
      }
    }
  }
}
