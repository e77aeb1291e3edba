/**
 * The dashboard with KPI metrics (integracao.py): sorted filter options,
 * the two-column filter, count / mean / maximum of the price, the BRL
 * display of a metric and the height of the table widget.
 */
module Integracao {
  import opened Wrappers
  import opened Sheet
  import opened Ordering
  import opened Stats

  const RowHeight: nat := 35
  const HeaderHeight: nat := 35

  /** The loaded table: no derived column. */
  type Table = seq<Row<()>>

  // ---------------------------------------------------------------- options

  /** `sorted(df['Modelo'].unique())`. */
  function ModelOptions(t: Table): (o: seq<string>)
    ensures StrictlyAscending(o, StrLess) && NoDuplicates(o)
    ensures forall m :: m in o <==> m in Modelos(t)
  {
    StrLessIsStrictTotalOrder();
    SortedDistinct(Modelos(t), StrLess)
  }

  /** `sorted(df['Ano'].unique())`. */
  function YearOptions(t: Table): (o: seq<int>)
    ensures StrictlyAscending(o, IntLess) && NoDuplicates(o)
    ensures forall y :: y in o <==> y in Anos(t)
  {
    IntLessIsStrictTotalOrder();
    SortedDistinct(Anos(t), IntLess)
  }

  /** Every row's model and year are among the options, so each can be selected. */
  lemma OptionsCoverRows(t: Table)
    ensures forall r :: r in t ==> r.modelo in ModelOptions(t) && r.ano in YearOptions(t)
  {
    forall r | r in t
      ensures r.modelo in ModelOptions(t) && r.ano in YearOptions(t)
    {
      var i :| 0 <= i < |t| && t[i] == r;
      assert Modelos(t)[i] == r.modelo && Anos(t)[i] == r.ano;
    }
  }

  /** The default selections (all options) keep the whole table. */
  lemma DefaultSelectionKeepsAll(t: Table)
    ensures Filter(t, ModelOptions(t), YearOptions(t)) == t
  {
    OptionsCoverRows(t);
    FilterAllSelected(t, ModelOptions(t), YearOptions(t));
  }

  // ---------------------------------------------------------------- metrics

  /** Count, mean and maximum price of the filtered rows; an undefined aggregate is None. */
  datatype Metrics = Metrics(count: nat, mean: Option<real>, max: Option<int>)

  /** The price column after cleaning and `to_numeric`, one entry per row. */
  function Prices(f: Table): (ps: seq<Option<int>>)
    ensures |ps| == |f| && forall i :: 0 <= i < |f| ==> ps[i] == PriceValue(f[i].preco)
  {
    seq(|f|, i requires 0 <= i < |f| => PriceValue(f[i].preco))
  }

  /** The metrics section: shown only for a non-empty filtered table. */
  function Summarize(f: Table): (m: Option<Metrics>)
    ensures m.None? <==> f == []
    ensures m.Some? ==> m.value.count == |f|
    ensures m.Some? ==> (m.value.mean.None? <==> m.value.max.None?)
    ensures m.Some? ==> m.value.mean == Mean(Defined(Prices(f))) && m.value.max == Max(Defined(Prices(f)))
  {
    if f == [] then
      None
    else
      var defined := Defined(Prices(f));
      Some(Metrics(|f|, Mean(defined), Max(defined)))
  }

  /**
   * The maximum is a price of some filtered row and no defined price exceeds
   * it; the mean lies between the smallest and largest defined price; both are
   * undefined exactly when no filtered row has a defined price.
   */
  lemma MetricsMeaning(f: Table)
    requires f != []
    ensures Summarize(f).value.max.None? <==> AllUndefined(Prices(f))
    ensures Summarize(f).value.max.Some? ==> ColumnMax(Prices(f), Summarize(f).value.max.value)
    ensures Summarize(f).value.mean.Some? ==>
      Min(Defined(Prices(f))).value as real <= Summarize(f).value.mean.value <= Summarize(f).value.max.value as real
  {
    var ps := Prices(f);
    MaxOfColumn(ps);
    MeanOfColumn(ps);
  }

  /**
   * A defined average price times the number of defined prices of the
   * filtered rows is their sum: it is their sum divided by their count.
   */
  lemma MetricsMeanValue(f: Table)
    requires f != []
    ensures var m, xs := Summarize(f).value, Defined(Prices(f));
      m.mean.Some? ==> IsMeanOf(m.mean.value, xs)
  {
    var xs := Defined(Prices(f));
    assert Summarize(f).value.mean == Mean(xs);
    MeanTimesCount(xs);
  }

  /** A row whose price does not parse adds to the count and changes neither mean nor maximum. */
  lemma UndefinedPriceIgnored(f: Table, r: Row<()>)
    requires f != [] && PriceValue(r.preco).None?
    ensures Summarize(f + [r]) == Some(Metrics(|f| + 1, Summarize(f).value.mean, Summarize(f).value.max))
  {
    PricesAppend(f, r);
    DefinedIgnoresNone(Prices(f));
  }

  lemma PricesAppend(f: Table, r: Row<()>)
    ensures Prices(f + [r]) == Prices(f) + [PriceValue(r.preco)]
  {
  }

  // ---------------------------------------------------------------- display

  /** `s.replace(from, to)` for single characters. */
  function Replace(s: string, from: char, to: char): (r: string)
    ensures |r| == |s|
    ensures forall i :: 0 <= i < |s| ==> r[i] == if s[i] == from then to else s[i]
  {
    seq(|s|, i requires 0 <= i < |s| => if s[i] == from then to else s[i])
  }

  /** `.replace(",", "_").replace(".", ",").replace("_", ".")`: English to Brazilian separators. */
  function SwapSeparators(s: string): (r: string)
    ensures |r| == |s|
    ensures forall i :: 0 <= i < |s| ==>
      r[i] == if s[i] == '.' then ',' else if s[i] == ',' || s[i] == '_' then '.' else s[i]
  {
    Replace(Replace(Replace(s, ',', '_'), '.', ','), '_', '.')
  }

  /** On text without `_`, swapping the separators twice gives the text back. */
  lemma SwapSeparatorsTwice(s: string)
    requires forall i :: 0 <= i < |s| ==> s[i] != '_'
    ensures SwapSeparators(SwapSeparators(s)) == s
  {
    var once := SwapSeparators(s);
    assert forall i :: 0 <= i < |s| ==> once[i] != '_';
  }

  /**
   * A metric's text: "N/A" unless the value is defined and positive, else
   * "R$ " and the value as `f"{x:,.2f}"` writes it (`formatted`), with the
   * separators swapped.
   */
  function MetricText(v: Option<real>, formatted: string): (text: string)
    ensures text == "N/A" <==> v.None? || v.value <= 0.0
    ensures v.Some? && v.value > 0.0 ==> text == SwapSeparators("R$ " + formatted)
  {
    if v.Some? && v.value > 0.0 then
      var text := SwapSeparators("R$ " + formatted);
      assert text[0] == 'R';
      text
    else
      "N/A"
  }

  /** The maximum's text: the same rule, for an integer-valued maximum. */
  function MaxText(v: Option<int>, formatted: string): (text: string)
    ensures text == "N/A" <==> v.None? || v.value <= 0
    ensures v.Some? && v.value > 0 ==> text == SwapSeparators("R$ " + formatted)
  {
    MetricText(if v.Some? then Some(v.value as real) else None, formatted)
  }

  // ---------------------------------------------------------------- table widget

  /** `len(df_filtered) * ROW_HEIGHT + HEADER_HEIGHT`. */
  function TableHeight(rows: nat): (h: nat)
    ensures h == 35 * (rows + 1)
    ensures h >= HeaderHeight
  {
    rows * RowHeight + HeaderHeight
  }

  /** One more row makes the table taller. */
  lemma TableHeightIncreasing(m: nat, n: nat)
    requires m < n
    ensures TableHeight(m) < TableHeight(n)
  {
  }
}
