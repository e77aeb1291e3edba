/**
 * pandas' aggregates over a numeric column: NaN (None) is skipped, and an
 * aggregate over no defined value is itself undefined.
 */
module Stats {
  import opened Wrappers

  /** The defined values of a column, in order: what `mean` and `max` look at. */
  function Defined(ps: seq<Option<int>>): (xs: seq<int>)
    ensures |xs| <= |ps|
    ensures forall x :: x in xs <==> Some(x) in ps
  {
    if ps == [] then
      []
    else
      var rest := Defined(ps[1..]);
      assert forall p :: p in ps <==> p == ps[0] || p in ps[1..];
      if ps[0].Some? then [ps[0].value] + rest else rest
  }

  /** Undefined entries contribute nothing: the defined values of a concatenation. */
  lemma {:induction false} DefinedAppend(a: seq<Option<int>>, b: seq<Option<int>>)
    ensures Defined(a + b) == Defined(a) + Defined(b)
  {
    if a == [] {
      assert a + b == b;
    } else {
      assert (a + b)[1..] == a[1..] + b;
      DefinedAppend(a[1..], b);
    }
  }

  /** An undefined entry at the end contributes nothing. */
  lemma DefinedIgnoresNone(ps: seq<Option<int>>)
    ensures Defined(ps + [None]) == Defined(ps)
  {
    DefinedAppend(ps, [None]);
    assert Defined([None]) == [];
  }

  /** Every entry of the column is undefined. */
  predicate AllUndefined(ps: seq<Option<int>>) {
    forall i :: 0 <= i < |ps| ==> ps[i].None?
  }

  /** A column has no defined value exactly when every entry is undefined. */
  lemma DefinedEmpty(ps: seq<Option<int>>)
    ensures Defined(ps) == [] <==> AllUndefined(ps)
  {
    if Defined(ps) != [] {
      assert Defined(ps)[0] in Defined(ps);
    }
    if exists i :: 0 <= i < |ps| && ps[i].Some? {
      var i :| 0 <= i < |ps| && ps[i].Some?;
      assert ps[i] in ps;
      assert ps[i].value in Defined(ps);
    }
  }

  function Sum(xs: seq<int>): int {
    if xs == [] then 0 else xs[0] + Sum(xs[1..])
  }

  /** The arithmetic mean; None for no values (NaN in pandas). */
  function Mean(xs: seq<int>): (m: Option<real>)
    ensures m.None? <==> xs == []
    ensures m.Some? ==> m.value * (|xs| as real) == Sum(xs) as real
  {
    if xs == [] then None else Some(Sum(xs) as real / |xs| as real)
  }

  /** The largest value; None for no values. */
  function Max(xs: seq<int>): (m: Option<int>)
    ensures m.None? <==> xs == []
    ensures m.Some? ==> m.value in xs && forall x :: x in xs ==> x <= m.value
  {
    if xs == [] then
      None
    else
      var rest := Max(xs[1..]);
      assert forall x :: x in xs <==> x == xs[0] || x in xs[1..];
      if rest.None? || rest.value < xs[0] then Some(xs[0]) else rest
  }

  /** The smallest value; None for no values. */
  function Min(xs: seq<int>): (m: Option<int>)
    ensures m.None? <==> xs == []
    ensures m.Some? ==> m.value in xs && forall x :: x in xs ==> m.value <= x
  {
    if xs == [] then
      None
    else
      var rest := Min(xs[1..]);
      assert forall x :: x in xs <==> x == xs[0] || x in xs[1..];
      if rest.None? || xs[0] < rest.value then Some(xs[0]) else rest
  }

  /** A sum of values between `lo` and `hi` lies between `|xs| * lo` and `|xs| * hi`. */
  lemma SumBounds(xs: seq<int>, lo: int, hi: int)
    requires forall x :: x in xs ==> lo <= x <= hi
    ensures |xs| * lo <= Sum(xs) <= |xs| * hi
  {
    SumAtLeast(xs, lo);
    SumAtMost(xs, hi);
  }

  lemma {:induction false} SumAtLeast(xs: seq<int>, lo: int)
    requires forall x :: x in xs ==> lo <= x
    ensures |xs| * lo <= Sum(xs)
  {
    if xs != [] {
      assert xs[0] in xs;
      assert forall x :: x in xs[1..] ==> x in xs;
      SumAtLeast(xs[1..], lo);
      MulSucc(|xs[1..]|, lo);
    }
  }

  lemma {:induction false} SumAtMost(xs: seq<int>, hi: int)
    requires forall x :: x in xs ==> x <= hi
    ensures Sum(xs) <= |xs| * hi
  {
    if xs != [] {
      assert xs[0] in xs;
      assert forall x :: x in xs[1..] ==> x in xs;
      SumAtMost(xs[1..], hi);
      MulSucc(|xs[1..]|, hi);
    }
  }

  lemma MulSucc(n: int, k: int)
    ensures (n + 1) * k == n * k + k
  {
  }

  /** `m` is the mean of `xs`: there are values, and `m` times their count is their sum. */
  predicate IsMeanOf(m: real, xs: seq<int>) {
    xs != [] && m * (|xs| as real) == Sum(xs) as real
  }

  /** A defined mean is the sum divided by the count. */
  lemma MeanTimesCount(xs: seq<int>)
    ensures Mean(xs).Some? ==> IsMeanOf(Mean(xs).value, xs)
  {
  }

  /** The mean lies between the smallest and the largest value. */
  lemma MeanWithinRange(xs: seq<int>)
    requires xs != []
    ensures Min(xs).value as real <= Mean(xs).value <= Max(xs).value as real
  {
    MeanBetween(xs, Min(xs).value, Max(xs).value);
  }

  /** `mx` is one of the column's entries and no defined entry exceeds it. */
  predicate ColumnMax(ps: seq<Option<int>>, mx: int) {
    && (exists i :: 0 <= i < |ps| && ps[i] == Some(mx))
    && (forall i :: 0 <= i < |ps| && ps[i].Some? ==> ps[i].value <= mx)
  }

  /** The maximum of a column's defined entries is undefined exactly when every entry is. */
  lemma MaxOfColumn(ps: seq<Option<int>>)
    ensures Max(Defined(ps)).None? <==> AllUndefined(ps)
    ensures Max(Defined(ps)).Some? ==> ColumnMax(ps, Max(Defined(ps)).value)
  {
    var xs := Defined(ps);
    DefinedEmpty(ps);
    if xs != [] {
      var mx := Max(xs).value;
      assert Some(mx) in ps;
      forall i | 0 <= i < |ps| && ps[i].Some?
        ensures ps[i].value <= mx
      {
        assert ps[i] in ps;
      }
    }
  }

  /** The mean of a column's defined entries lies within their range. */
  lemma MeanOfColumn(ps: seq<Option<int>>)
    ensures Mean(Defined(ps)).None? <==> AllUndefined(ps)
    ensures Mean(Defined(ps)).Some? ==>
      Min(Defined(ps)).value as real <= Mean(Defined(ps)).value <= Max(Defined(ps)).value as real
  {
    DefinedEmpty(ps);
    if Defined(ps) != [] {
      MeanWithinRange(Defined(ps));
    }
  }

  /** Values within `lo .. hi` have their mean within `lo .. hi`. */
  lemma MeanBetween(xs: seq<int>, lo: int, hi: int)
    requires xs != []
    requires forall x :: x in xs ==> lo <= x <= hi
    ensures lo as real <= Mean(xs).value <= hi as real
  {
    var s, n := Sum(xs), |xs|;
    SumBounds(xs, lo, hi);
    AverageBounds(s as real / n as real, s, n, lo, hi);
  }

  /** A quotient `m = s / n` of a sum within `n * lo .. n * hi` lies within `lo .. hi`. */
  lemma AverageBounds(m: real, s: int, n: int, lo: int, hi: int)
    requires n > 0 && m == s as real / n as real
    requires n * lo <= s <= n * hi
    ensures lo as real <= m <= hi as real
  {
    assert m * (n as real) == s as real;
    RealOfProduct(n, lo);
    RealOfProduct(n, hi);
    if m < lo as real {
      ScaleStrict(m, lo as real, n as real);
    }
    if m > hi as real {
      ScaleStrict(hi as real, m, n as real);
    }
  }

  lemma RealOfProduct(a: int, b: int)
    ensures (a * b) as real == (a as real) * (b as real)
  {
  }

  lemma ScaleStrict(a: real, b: real, c: real)
    requires a < b && c > 0.0
    ensures a * c < b * c
  {
  }
}
