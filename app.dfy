/**
 * The dashboard with the chart (app.py): the `Preço Numérico` column,
 * first-appearance filter options, the two-column filter, the displayed
 * projection and the mean price per year.
 */
module App {
  import opened Wrappers
  import opened Sheet
  import opened Ordering
  import opened Stats

  /** The loaded table: the derived column is `Preço Numérico` (None is NaN). */
  type PricedTable = seq<Row<Option<int>>>

  /** Adds `Preço Numérico` to every row; nothing else changes and no row is dropped. */
  function AddNumericPrice(t: seq<Row<()>>): (p: PricedTable)
    ensures |p| == |t|
    ensures forall i :: 0 <= i < |t| ==>
      p[i] == Row(t[i].modelo, t[i].ano, t[i].preco, PriceValue(t[i].preco))
  {
    seq(|t|, i requires 0 <= i < |t| => Row(t[i].modelo, t[i].ano, t[i].preco, PriceValue(t[i].preco)))
  }

  /** `load_data_from_sheet` of this dashboard: ingestion, then the numeric price column. */
  function Load(fetched: Result<seq<RawRow>, FetchError>): (r: Result<PricedTable, LoadError>)
    ensures r.Success? <==> fetched.Success? && fetched.value != []
    ensures r.Success? ==> |r.value| == |fetched.value|
    ensures r.Success? ==> forall i :: 0 <= i < |r.value| ==>
      && r.value[i].modelo == fetched.value[i].modelo
      && r.value[i].ano == CoerceYear(fetched.value[i].ano)
      && r.value[i].preco == fetched.value[i].preco
      && r.value[i].derived == PriceValue(fetched.value[i].preco)
    ensures r.Failure? ==> r == Failure(Ingest(fetched).error)
  {
    match Ingest(fetched)
    case Success(t) => Success(AddNumericPrice(t))
    case Failure(e) => Failure(e)
  }

  // ---------------------------------------------------------------- options

  /** `df['Modelo'].unique()`, also the default selection. */
  function ModelOptions(p: PricedTable): (o: seq<string>)
    ensures NoDuplicates(o)
    ensures forall m :: m in o <==> m in Modelos(p)
    ensures forall i, j :: 0 <= i < j < |o| ==> AppearsBefore(Modelos(p), o[i], o[j])
  {
    Distinct(Modelos(p))
  }

  /** `df['Ano'].unique()`, also the default selection. */
  function YearOptions(p: PricedTable): (o: seq<int>)
    ensures NoDuplicates(o)
    ensures forall y :: y in o <==> y in Anos(p)
    ensures forall i, j :: 0 <= i < j < |o| ==> AppearsBefore(Anos(p), o[i], o[j])
  {
    Distinct(Anos(p))
  }

  /** Every row's model and year are among the options, so each can be selected. */
  lemma OptionsCoverRows(p: PricedTable)
    ensures forall r :: r in p ==> r.modelo in ModelOptions(p) && r.ano in YearOptions(p)
  {
    forall r | r in p
      ensures r.modelo in ModelOptions(p) && r.ano in YearOptions(p)
    {
      var i :| 0 <= i < |p| && p[i] == r;
      assert Modelos(p)[i] == r.modelo && Anos(p)[i] == r.ano;
    }
  }

  /** The default selections (all options) keep every row. */
  lemma DefaultSelectionKeepsAll(p: PricedTable)
    ensures Filter(p, ModelOptions(p), YearOptions(p)) == p
  {
    OptionsCoverRows(p);
    FilterAllSelected(p, ModelOptions(p), YearOptions(p));
  }

  /** Deriving the price before filtering (as here) or after it gives the same rows. */
  lemma {:induction false} FilterAddNumericPrice(t: seq<Row<()>>, models: seq<string>, years: seq<int>)
    ensures Filter(AddNumericPrice(t), models, years) == AddNumericPrice(Filter(t, models, years))
  {
    if t != [] {
      var r, tail := t[0], t[1..];
      var derived := Row(r.modelo, r.ano, r.preco, PriceValue(r.preco));
      var rest := Filter(tail, models, years);
      SplitHead(t);
      FilterAddNumericPrice(tail, models, years);
      AddNumericPriceCons(r, tail);
      FilterCons(derived, AddNumericPrice(tail), models, years);
      FilterCons(r, tail, models, years);
      if Selected(r, models, years) {
        AddNumericPriceCons(r, rest);
      }
    }
  }

  lemma AddNumericPriceCons(r: Row<()>, t: seq<Row<()>>)
    ensures AddNumericPrice([r] + t) == [Row(r.modelo, r.ano, r.preco, PriceValue(r.preco))] + AddNumericPrice(t)
  {
    var rt := [r] + t;
    var lhs, rhs := AddNumericPrice(rt), [Row(r.modelo, r.ano, r.preco, PriceValue(r.preco))] + AddNumericPrice(t);
    assert |lhs| == |rhs|;
    forall i | 0 <= i < |lhs|
      ensures lhs[i] == rhs[i]
    {
      var x := rt[i];
      assert lhs[i] == Row(x.modelo, x.ano, x.preco, PriceValue(x.preco));
      if i > 0 {
        assert x == t[i - 1];
        assert rhs[i] == AddNumericPrice(t)[i - 1];
      }
    }
  }

  // ---------------------------------------------------------------- display

  /** `df_filtered[['Modelo', 'Ano', 'Preço (R$)']]`: the displayed columns, row for row. */
  function Project(p: PricedTable): (t: seq<Row<()>>)
    ensures |t| == |p|
    ensures forall i :: 0 <= i < |p| ==> t[i] == Row(p[i].modelo, p[i].ano, p[i].preco, ())
  {
    seq(|p|, i requires 0 <= i < |p| => Row(p[i].modelo, p[i].ano, p[i].preco, ()))
  }

  /** Dropping `Preço Numérico` again gives back exactly the loaded rows. */
  lemma ProjectAddNumericPrice(t: seq<Row<()>>)
    ensures Project(AddNumericPrice(t)) == t
  {
    var back := Project(AddNumericPrice(t));
    forall i | 0 <= i < |t|
      ensures back[i] == t[i]
    {
      assert back[i] == Row(t[i].modelo, t[i].ano, t[i].preco, ());
      assert t[i].derived == ();
    }
  }

  /** The displayed table is the filter applied to the displayed columns. */
  lemma {:induction false} ProjectFilter(p: PricedTable, models: seq<string>, years: seq<int>)
    ensures Project(Filter(p, models, years)) == Filter(Project(p), models, years)
  {
    if p != [] {
      var r, tail := p[0], p[1..];
      var shown := Row(r.modelo, r.ano, r.preco, ());
      var rest := Filter(tail, models, years);
      SplitHead(p);
      ProjectFilter(tail, models, years);
      ProjectCons(r, tail);
      FilterCons(shown, Project(tail), models, years);
      FilterCons(r, tail, models, years);
      if Selected(r, models, years) {
        ProjectCons(r, rest);
      }
    }
  }

  lemma ProjectCons(r: Row<Option<int>>, p: PricedTable)
    ensures Project([r] + p) == [Row(r.modelo, r.ano, r.preco, ())] + Project(p)
  {
    var lhs, rhs := Project([r] + p), [Row(r.modelo, r.ano, r.preco, ())] + Project(p);
    forall i | 0 <= i < |lhs|
      ensures lhs[i] == rhs[i]
    {
      if i > 0 {
        assert ([r] + p)[i] == p[i - 1];
      }
    }
  }

  // ---------------------------------------------------------------- chart data

  /** One point of the chart: a year and the mean price of its rows (None is NaN). */
  datatype YearMean = YearMean(ano: int, mean: Option<real>)

  /** The rows of one year, in table order (a `groupby('Ano')` group). */
  function YearGroup(p: PricedTable, y: int): (g: PricedTable)
    ensures |g| <= |p|
    ensures forall r :: r in g <==> r in p && r.ano == y
  {
    if p == [] then
      []
    else
      var rest := YearGroup(p[1..], y);
      assert forall r :: r in p <==> r == p[0] || r in p[1..];
      if p[0].ano == y then [p[0]] + rest else rest
  }

  /** The group keeps every copy of a row of year `y`, in table order, and nothing else. */
  lemma {:induction false} YearGroupKeepsEveryCopy(p: PricedTable, y: int, r: Row<Option<int>>)
    ensures multiset(YearGroup(p, y))[r] == if r.ano == y then multiset(p)[r] else 0
  {
    if p != [] {
      YearGroupKeepsEveryCopy(p[1..], y, r);
      assert p == [p[0]] + p[1..];
    }
  }

  /** The group lists its rows in the order the table does. */
  lemma {:induction false} YearGroupIsSubsequence(p: PricedTable, y: int)
    ensures IsSubsequence(YearGroup(p, y), p)
  {
    if p != [] {
      YearGroupIsSubsequence(p[1..], y);
      var rest := YearGroup(p[1..], y);
      if p[0].ano != y && rest != [] {
        assert rest[0] in rest;
      }
    }
  }

  /** The `Preço Numérico` column. */
  function NumericColumn(p: PricedTable): (ps: seq<Option<int>>)
    ensures |ps| == |p| && forall i :: 0 <= i < |p| ==> ps[i] == p[i].derived
  {
    seq(|p|, i requires 0 <= i < |p| => p[i].derived)
  }

  /**
   * The mean of the defined prices of the rows of year `y`: undefined (NaN)
   * exactly when none of its rows has a defined price.
   */
  function MeanOfYear(p: PricedTable, y: int): (m: Option<real>)
    ensures m == Mean(Defined(NumericColumn(YearGroup(p, y))))
    ensures m.None? <==> YearUndefined(p, y)
  {
    var ps := NumericColumn(YearGroup(p, y));
    DefinedEmpty(ps);
    GroupAllUndefined(p, y);
    Mean(Defined(ps))
  }

  function Years(series: seq<YearMean>): (ys: seq<int>)
    ensures |ys| == |series| && forall i :: 0 <= i < |series| ==> ys[i] == series[i].ano
  {
    seq(|series|, i requires 0 <= i < |series| => series[i].ano)
  }

  /**
   * `groupby('Ano')['Preço Numérico'].mean().reset_index()`: one point per
   * year of the table, years ascending, each with its year's mean.
   */
  function YearMeans(p: PricedTable): (series: seq<YearMean>)
    ensures forall i, j :: 0 <= i < j < |series| ==> series[i].ano < series[j].ano
    ensures forall y :: y in Years(series) <==> y in Anos(p)
    ensures forall i :: 0 <= i < |series| ==> series[i].mean == MeanOfYear(p, series[i].ano)
  {
    IntLessIsStrictTotalOrder();
    var ys := SortedDistinct(Anos(p), IntLess);
    var series := seq(|ys|, i requires 0 <= i < |ys| => YearMean(ys[i], MeanOfYear(p, ys[i])));
    assert Years(series) == ys;
    series
  }

  /**
   * A defined year mean times the number of that year's defined prices is
   * their sum: it is their sum divided by their count.
   */
  lemma MeanOfYearValue(p: PricedTable, y: int)
    ensures var xs := Defined(NumericColumn(YearGroup(p, y)));
      MeanOfYear(p, y).Some? ==> IsMeanOf(MeanOfYear(p, y).value, xs)
  {
    var xs := Defined(NumericColumn(YearGroup(p, y)));
    assert MeanOfYear(p, y) == Mean(xs);
    MeanTimesCount(xs);
  }

  /** A defined mean of a year lies between the smallest and the largest of its defined prices. */
  lemma MeanOfYearBounds(p: PricedTable, y: int)
    requires MeanOfYear(p, y).Some?
    ensures var xs := Defined(NumericColumn(YearGroup(p, y)));
      Min(xs).value as real <= MeanOfYear(p, y).value <= Max(xs).value as real
  {
    var xs := Defined(NumericColumn(YearGroup(p, y)));
    assert MeanOfYear(p, y) == Mean(xs);
    MeanWithinRange(xs);
  }

  /** Every row of year `y` has an undefined price. */
  ghost predicate YearUndefined(p: PricedTable, y: int) {
    forall r :: r in p && r.ano == y ==> r.derived.None?
  }

  /** A year's price column is all undefined iff every row of that year has an undefined price. */
  lemma GroupAllUndefined(p: PricedTable, y: int)
    ensures AllUndefined(NumericColumn(YearGroup(p, y))) <==> YearUndefined(p, y)
  {
    if AllUndefined(NumericColumn(YearGroup(p, y))) {
      GroupUndefinedRows(p, y);
    }
    if YearUndefined(p, y) {
      RowsUndefinedGroup(p, y);
    }
  }

  lemma GroupUndefinedRows(p: PricedTable, y: int)
    requires AllUndefined(NumericColumn(YearGroup(p, y)))
    ensures YearUndefined(p, y)
  {
    var g := YearGroup(p, y);
    var ps := NumericColumn(g);
    forall r | r in p && r.ano == y
      ensures r.derived.None?
    {
      assert r in g;
      var i :| 0 <= i < |g| && g[i] == r;
      assert ps[i] == r.derived;
    }
  }

  lemma RowsUndefinedGroup(p: PricedTable, y: int)
    requires YearUndefined(p, y)
    ensures AllUndefined(NumericColumn(YearGroup(p, y)))
  {
    var g := YearGroup(p, y);
    var ps := NumericColumn(g);
    forall i | 0 <= i < |g|
      ensures ps[i].None?
    {
      assert g[i] in g;
      assert ps[i] == g[i].derived;
    }
  }
}
