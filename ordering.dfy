/**
 * The two ways the dashboards list a column's distinct values: sorted
 * (`sorted(col.unique())`) and in order of first appearance (`col.unique()`).
 */
module Ordering {

  /** `less` is a strict total order: irreflexive, transitive, and relates any two distinct values. */
  ghost predicate StrictTotalOrder<T(!new)>(less: (T, T) -> bool) {
    && (forall x :: !less(x, x))
    && (forall x, y, z :: less(x, y) && less(y, z) ==> less(x, z))
    && (forall x, y :: x != y ==> less(x, y) || less(y, x))
  }

  predicate StrictlyAscending<T>(s: seq<T>, less: (T, T) -> bool) {
    forall i, j :: 0 <= i < j < |s| ==> less(s[i], s[j])
  }

  predicate NoDuplicates<T(==)>(s: seq<T>) {
    forall i, j :: 0 <= i < j < |s| ==> s[i] != s[j]
  }

  /** Python's `<` on integers. */
  predicate IntLess(a: int, b: int) {
    a < b
  }

  /** Python's `<` on strings: lexicographic by code point, a proper prefix first. */
  predicate StrLess(a: string, b: string) {
    if a == [] then b != []
    else if b == [] then false
    else a[0] < b[0] || (a[0] == b[0] && StrLess(a[1..], b[1..]))
  }

  lemma {:induction false} StrLessIrreflexive(a: string)
    ensures !StrLess(a, a)
  {
    if a != [] {
      StrLessIrreflexive(a[1..]);
    }
  }

  lemma {:induction false} StrLessTransitive(a: string, b: string, c: string)
    requires StrLess(a, b) && StrLess(b, c)
    ensures StrLess(a, c)
  {
    if a != [] && a[0] == b[0] && b[0] == c[0] {
      StrLessTransitive(a[1..], b[1..], c[1..]);
    }
  }

  lemma {:induction false} StrLessConnected(a: string, b: string)
    requires a != b
    ensures StrLess(a, b) || StrLess(b, a)
  {
    if a != [] && b != [] && a[0] == b[0] {
      assert a == [a[0]] + a[1..] && b == [b[0]] + b[1..];
      StrLessConnected(a[1..], b[1..]);
    }
  }

  /** Python's string order is a strict total order, so sorting strings is well defined. */
  lemma StrLessIsStrictTotalOrder()
    ensures StrictTotalOrder(StrLess)
  {
    forall x: string ensures !StrLess(x, x) {
      StrLessIrreflexive(x);
    }
    forall x: string, y: string, z: string | StrLess(x, y) && StrLess(y, z) ensures StrLess(x, z) {
      StrLessTransitive(x, y, z);
    }
    forall x: string, y: string | x != y ensures StrLess(x, y) || StrLess(y, x) {
      StrLessConnected(x, y);
    }
  }

  lemma IntLessIsStrictTotalOrder()
    ensures StrictTotalOrder(IntLess)
  {
  }

  /** Puts `x` into its place in an ascending list without duplicates, unless it is already there. */
  function Insert<T(==,!new)>(x: T, s: seq<T>, less: (T, T) -> bool): (r: seq<T>)
    requires StrictTotalOrder(less)
    requires StrictlyAscending(s, less)
    ensures StrictlyAscending(r, less)
    ensures forall e :: e in r <==> e == x || e in s
  {
    if s == [] then
      [x]
    else if x == s[0] then
      s
    else if less(x, s[0]) then
      [x] + s
    else
      var rest := Insert(x, s[1..], less);
      assert forall e :: e in s <==> e == s[0] || e in s[1..];
      assert forall e :: e in rest ==> less(s[0], e);
      [s[0]] + rest
  }

  /** `sorted(col.unique())`: each value of `s` once, in ascending order. */
  function SortedDistinct<T(==,!new)>(s: seq<T>, less: (T, T) -> bool): (r: seq<T>)
    requires StrictTotalOrder(less)
    ensures StrictlyAscending(r, less)
    ensures NoDuplicates(r)
    ensures forall e :: e in r <==> e in s
  {
    if s == [] then
      []
    else
      var r := Insert(s[|s| - 1], SortedDistinct(s[..|s| - 1], less), less);
      assert forall e :: e in s <==> e == s[|s| - 1] || e in s[..|s| - 1];
      r
  }

  /** The position of the first occurrence of `x` in `s`. */
  function FirstIndex<T(==)>(s: seq<T>, x: T): (i: nat)
    requires x in s
    ensures i < |s| && s[i] == x
    ensures forall j :: 0 <= j < i ==> s[j] != x
  {
    if s[0] == x then 0 else 1 + FirstIndex(s[1..], x)
  }

  /** `a` occurs in `s` for the first time before `b` does. */
  predicate AppearsBefore<T(==)>(s: seq<T>, a: T, b: T) {
    a in s && b in s && FirstIndex(s, a) < FirstIndex(s, b)
  }

  /** `col.unique()`: each value of `s` once, in the order of first appearance. */
  function Distinct<T(==,!new)>(s: seq<T>): (r: seq<T>)
    ensures NoDuplicates(r)
    ensures forall e :: e in r <==> e in s
    ensures forall i, j :: 0 <= i < j < |r| ==> AppearsBefore(s, r[i], r[j])
  {
    if s == [] then
      []
    else
      var prefix, x := s[..|s| - 1], s[|s| - 1];
      var d := Distinct(prefix);
      assert forall e :: e in s <==> e == x || e in prefix;
      FirstIndexInPrefix(prefix, x);
      if x in d then d else d + [x]
  }

  /** Appending a value does not move the first occurrence of a value already present. */
  lemma FirstIndexInPrefix<T>(prefix: seq<T>, x: T)
    ensures forall e :: e in prefix ==> FirstIndex(prefix + [x], e) == FirstIndex(prefix, e)
    ensures x !in prefix ==> FirstIndex(prefix + [x], x) == |prefix|
  {
    forall e | e in prefix
      ensures FirstIndex(prefix + [x], e) == FirstIndex(prefix, e)
    {
      var i, k := FirstIndex(prefix + [x], e), FirstIndex(prefix, e);
      assert (prefix + [x])[k] == e;
    }
  }
}
