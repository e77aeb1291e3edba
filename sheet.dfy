/**
 * The spreadsheet table both dashboards load: raw cells, year coercion,
 * price cleaning, ingestion failures and the two-column filter.
 */
module Sheet {
  import opened Wrappers
  import opened Numeric

  /** A cell as the Sheets client hands it over: a number or a text. */
  datatype Cell = Num(n: int) | Text(s: string)

  /** A record from the worksheet, before any coercion. */
  datatype RawRow = RawRow(modelo: string, ano: Cell, preco: Cell)

  /**
   * A row of the loaded table: `Modelo`, `Ano` coerced to an integer, the raw
   * `Preço (R$)` cell, and the columns a dashboard derives (`D`).
   */
  datatype Row<+D> = Row(modelo: string, ano: int, preco: Cell, derived: D)

  /** Why loading the sheet fails: the secret is absent, or the sheet cannot be read. */
  datatype FetchError = MissingSecret | Unreachable(reason: string)

  /** The two `except` branches of the loader: a `KeyError`, or any other exception. */
  datatype LoadError = ConfigurationError | AccessError(reason: string)

  /** `astype(str)` on one cell. */
  function CellText(c: Cell): (s: string)
    ensures c.Text? ==> s == c.s
    ensures c.Num? ==> IsIntegerText(s) && IntegerValue(s) == c.n
  {
    match c
    case Num(n) => IntToText(n)
    case Text(s) => s
  }

  // ---------------------------------------------------------------- year

  /** `pd.to_numeric(ano, errors='coerce').fillna(0).astype(int)` on one cell. */
  function CoerceYear(c: Cell): (y: int)
    ensures c.Num? ==> y == c.n
    ensures c.Text? && !IsIntegerText(TrimSpaces(c.s)) ==> y == 0
    ensures c.Text? && IsIntegerText(TrimSpaces(c.s)) ==> y == IntegerValue(TrimSpaces(c.s))
  {
    match c
    case Num(n) => n
    case Text(s) => ParseNumber(s).GetOr(0)
  }

  /** A year written as text is read back as that year. */
  lemma YearTextKeepsValue(n: int)
    ensures CoerceYear(Text(IntToText(n))) == n
  {
    ParseIntToText(n);
  }

  /** A year written with a sign or spaces around it is read as its digits' value. */
  lemma CoerceYearPadded(k: nat, sign: string, d: string, m: nat)
    requires sign == "" || sign == "+" || sign == "-"
    requires d != [] && AllDigits(d)
    ensures CoerceYear(Text(Spaces(k) + sign + d + Spaces(m))) ==
      if sign == "-" then -(DigitsValue(d) as int) else DigitsValue(d)
  {
    ParsePaddedInteger(k, sign, d, m);
  }

  /** Replaces the `Ano` column by its coerced value; no row is dropped or reordered. */
  function CoerceYears(raw: seq<RawRow>): (t: seq<Row<()>>)
    ensures |t| == |raw|
    ensures forall i :: 0 <= i < |raw| ==>
      t[i] == Row(raw[i].modelo, CoerceYear(raw[i].ano), raw[i].preco, ())
  {
    seq(|raw|, i requires 0 <= i < |raw| => Row(raw[i].modelo, CoerceYear(raw[i].ano), raw[i].preco, ()))
  }

  // ---------------------------------------------------------------- price

  /** The characters the class `[R$.,]` deletes. */
  predicate IsNoise(c: char) {
    c == 'R' || c == '$' || c == '.' || c == ','
  }

  /** `str.replace(r'[R$.,]', '', regex=True)`: deletes every `R`, `$`, `.` and `,`. */
  function CleanPrice(s: string): (r: string)
    ensures |r| <= |s|
    ensures forall i :: 0 <= i < |r| ==> !IsNoise(r[i])
  {
    if s == [] then
      []
    else
      var rest := CleanPrice(s[1..]);
      if IsNoise(s[0]) then rest else [s[0]] + rest
  }

  /** Cleaning keeps every other character: as many of each as the input has. */
  lemma {:induction false} CleanPriceKeepsOthers(s: string, c: char)
    requires !IsNoise(c)
    ensures multiset(CleanPrice(s))[c] == multiset(s)[c]
  {
    if s != [] {
      CleanPriceKeepsOthers(s[1..], c);
      assert s == [s[0]] + s[1..];
    }
  }

  /** Cleaning works character by character: it distributes over concatenation. */
  lemma {:induction false} CleanPriceAppend(a: string, b: string)
    ensures CleanPrice(a + b) == CleanPrice(a) + CleanPrice(b)
  {
    if a == [] {
      assert a + b == b;
    } else {
      assert (a + b)[1..] == a[1..] + b;
      CleanPriceAppend(a[1..], b);
    }
  }

  /** Text without currency noise is left exactly as it is, so cleaning is idempotent. */
  lemma {:induction false} CleanPriceKeepsClean(s: string)
    requires forall i :: 0 <= i < |s| ==> !IsNoise(s[i])
    ensures CleanPrice(s) == s
  {
    if s != [] {
      CleanPriceKeepsClean(s[1..]);
    }
  }

  /**
   * The numeric price of a cell, cleaned and then parsed; None is pandas' NaN.
   * A price the sheet hands over as a number keeps its value.
   */
  function PriceValue(c: Cell): (r: Option<int>)
    ensures c.Num? ==> r == Some(c.n)
  {
    var text := CleanPrice(CellText(c));
    if c.Num? then
      NumberTextSurvivesCleaning(c.n);
      ParseNumber(text)
    else
      ParseNumber(text)
  }

  /**
   * A price is defined exactly when its cleaned text is an integer once the
   * surrounding spaces are ignored; it is then the integer that text denotes.
   */
  lemma PriceDefinedIff(c: Cell)
    ensures PriceValue(c).Some? <==> IsIntegerText(TrimSpaces(CleanPrice(CellText(c))))
    ensures PriceValue(c).Some? ==> PriceValue(c).value == IntegerValue(TrimSpaces(CleanPrice(CellText(c))))
  {
  }

  /**
   * A price whose cleaned text is a signed run of digits with spaces around
   * it is the value of those digits, negated after `-`.
   */
  lemma PriceOfCleanedText(c: Cell, k: nat, sign: string, d: string, m: nat)
    requires sign == "" || sign == "+" || sign == "-"
    requires d != [] && AllDigits(d)
    requires CleanPrice(CellText(c)) == Spaces(k) + sign + d + Spaces(m)
    ensures PriceValue(c) == Some(if sign == "-" then -(DigitsValue(d) as int) else DigitsValue(d))
  {
    ParsePaddedInteger(k, sign, d, m);
  }

  /** `str(n)` has no currency noise and is parsed back to `n` after cleaning. */
  lemma NumberTextSurvivesCleaning(n: int)
    ensures ParseNumber(CleanPrice(IntToText(n))) == Some(n)
  {
    var s := IntToText(n);
    var u := Unsigned(s);
    assert forall i :: 0 <= i < |s| ==> s[i] == '-' || IsDigit(s[i]) by {
      forall i | 0 <= i < |s|
        ensures s[i] == '-' || IsDigit(s[i])
      {
        if s[0] == '-' && i > 0 {
          assert s[i] == u[i - 1];
        } else if s[0] != '-' {
          assert s[i] == u[i];
        }
      }
    }
    CleanPriceKeepsClean(s);
    ParseIntToText(n);
  }

  /**
   * A price in Brazilian notation loses its decimal comma along with the
   * thousands dots: "R$ 80.000,00" is read as 8000000, one hundred times 80000.
   */
  lemma BrazilianPriceReading()
    ensures PriceValue(Text("R$ 80.000,00")) == Some(8000000)
  {
    EightMillionDigits();
    BrazilianPriceSpelledOut();
    CleanCurrencyText("80", "000", "00");
    ParseSpacedDigits("8000000");
  }

  /** "R$ 80.000,00" is currency noise around the digit groups "80", "000" and "00". */
  lemma BrazilianPriceSpelledOut()
    ensures "R$ " + "80" + "." + "000" + "," + "00" == "R$ 80.000,00"
    ensures "80" + "000" + "00" == "8000000"
  {
  }

  /** Cleaning "R$ a.b,c" for digit groups a, b, c leaves a space and their digits. */
  lemma CleanCurrencyText(a: string, b: string, c: string)
    requires AllDigits(a) && AllDigits(b) && AllDigits(c)
    ensures CleanPrice("R$ " + a + "." + b + "," + c) == " " + (a + b + c)
  {
    CleanCurrencyPrefix(a);
    CleanSeparatedGroup("R$ " + a, '.', b);
    CleanSeparatedGroup("R$ " + a + "." + b, ',', c);
    assert " " + a + b + c == " " + (a + b + c);
  }

  lemma CleanCurrencyPrefix(a: string)
    requires AllDigits(a)
    ensures CleanPrice("R$ " + a) == " " + a
  {
    assert CleanPrice("R$ ") == " ";
    CleanPriceKeepsClean(a);
    CleanPriceAppend("R$ ", a);
  }

  /** A separator followed by a group of digits adds just the digits. */
  lemma CleanSeparatedGroup(x: string, sep: char, g: string)
    requires IsNoise(sep) && AllDigits(g)
    ensures CleanPrice(x + [sep] + g) == CleanPrice(x) + g
  {
    CleanPriceKeepsClean(g);
    CleanPriceAppend(x + [sep], g);
    CleanPriceAppend(x, [sep]);
    assert CleanPrice([sep]) == [];
  }

  lemma EightMillionDigits()
    ensures AllDigits("8000000") && DigitsValue("8000000") == 8000000
  {
    assert "8000000"[..6] == "800000";
    assert "800000"[..5] == "80000";
    assert "80000"[..4] == "8000";
    assert "8000"[..3] == "800";
    assert "800"[..2] == "80";
    assert "80"[..1] == "8";
    assert "8"[..0] == "";
  }

  // ---------------------------------------------------------------- load

  /**
   * The loader's outcome. A failed fetch is reported by kind. An empty sheet
   * gives a frame without columns, whose `df['Ano']` raises `KeyError` and so
   * lands in the configuration-error branch too.
   */
  function Ingest(fetched: Result<seq<RawRow>, FetchError>): (r: Result<seq<Row<()>>, LoadError>)
    ensures r.Success? <==> fetched.Success? && fetched.value != []
    ensures r.Success? ==> r.value == CoerceYears(fetched.value)
    ensures fetched == Failure(MissingSecret) ==> r == Failure(ConfigurationError)
    ensures fetched == Success([]) ==> r == Failure(ConfigurationError)
    ensures fetched.Failure? && fetched.error.Unreachable? ==> r == Failure(AccessError(fetched.error.reason))
  {
    match fetched
    case Failure(MissingSecret) => Failure(ConfigurationError)
    case Failure(Unreachable(reason)) => Failure(AccessError(reason))
    case Success(records) =>
      if records == [] then Failure(ConfigurationError) else Success(CoerceYears(records))
  }

  /** What the dashboard goes on with: the table, or the empty frame after a failure. */
  function TableOf<D>(r: Result<seq<Row<D>>, LoadError>): (t: seq<Row<D>>)
    ensures r.Failure? ==> t == []
    ensures r.Success? ==> t == r.value
  {
    match r
    case Success(t) => t
    case Failure(_) => []
  }

  // ---------------------------------------------------------------- columns

  /** The `Modelo` column. */
  function Modelos<D>(t: seq<Row<D>>): (ms: seq<string>)
    ensures |ms| == |t| && forall i :: 0 <= i < |t| ==> ms[i] == t[i].modelo
  {
    seq(|t|, i requires 0 <= i < |t| => t[i].modelo)
  }

  /** The `Ano` column. */
  function Anos<D>(t: seq<Row<D>>): (ys: seq<int>)
    ensures |ys| == |t| && forall i :: 0 <= i < |t| ==> ys[i] == t[i].ano
  {
    seq(|t|, i requires 0 <= i < |t| => t[i].ano)
  }

  // ---------------------------------------------------------------- filter

  /** `Modelo.isin(models) & Ano.isin(years)` for one row. */
  predicate Selected<D(!new)>(r: Row<D>, models: seq<string>, years: seq<int>) {
    r.modelo in models && r.ano in years
  }

  /** `df[Modelo.isin(models) & Ano.isin(years)]`: the selected rows, in table order. */
  function Filter<D(!new)>(t: seq<Row<D>>, models: seq<string>, years: seq<int>): (f: seq<Row<D>>)
    ensures |f| <= |t|
    ensures forall r :: r in f <==> r in t && Selected(r, models, years)
  {
    if t == [] then
      []
    else
      var rest := Filter(t[1..], models, years);
      assert forall r :: r in t <==> r == t[0] || r in t[1..];
      if Selected(t[0], models, years) then [t[0]] + rest else rest
  }

  /** A non-empty table is its first row followed by the rest. */
  lemma SplitHead<T>(t: seq<T>)
    requires t != []
    ensures t == [t[0]] + t[1..]
  {
  }

  /** The filter works row by row. */
  lemma FilterCons<D(!new)>(r: Row<D>, t: seq<Row<D>>, models: seq<string>, years: seq<int>)
    ensures Filter([r] + t, models, years) ==
            (if Selected(r, models, years) then [r] else []) + Filter(t, models, years)
  {
    assert ([r] + t)[1..] == t;
  }

  /** `a` is `b` with some elements deleted: the elements of `a` occur in `b` in the same order. */
  ghost predicate IsSubsequence<T>(a: seq<T>, b: seq<T>) {
    if a == [] then true
    else if b == [] then false
    else if a[0] == b[0] then IsSubsequence(a[1..], b[1..])
    else IsSubsequence(a, b[1..])
  }

  /** The filtered table keeps the table's order. */
  lemma {:induction false} FilterIsSubsequence<D(!new)>(t: seq<Row<D>>, models: seq<string>, years: seq<int>)
    ensures IsSubsequence(Filter(t, models, years), t)
  {
    if t != [] {
      FilterIsSubsequence(t[1..], models, years);
      var rest := Filter(t[1..], models, years);
      if !Selected(t[0], models, years) && rest != [] {
        assert rest[0] in rest;
      }
    }
  }

  /** Every copy of a selected row is kept, and no copy of any other row. */
  lemma {:induction false} FilterKeepsEveryCopy<D(!new)>(t: seq<Row<D>>, models: seq<string>, years: seq<int>, r: Row<D>)
    ensures multiset(Filter(t, models, years))[r] ==
            if Selected(r, models, years) then multiset(t)[r] else 0
  {
    if t != [] {
      FilterKeepsEveryCopy(t[1..], models, years, r);
      assert t == [t[0]] + t[1..];
    }
  }

  /** When every row is selected, the filter returns the whole table. */
  lemma {:induction false} FilterAllSelected<D(!new)>(t: seq<Row<D>>, models: seq<string>, years: seq<int>)
    requires forall r :: r in t ==> Selected(r, models, years)
    ensures Filter(t, models, years) == t
  {
    if t != [] {
      assert forall r :: r in t[1..] ==> r in t;
      FilterAllSelected(t[1..], models, years);
      assert t == [t[0]] + t[1..];
    }
  }

  /** An empty model or year selection keeps no row. */
  lemma FilterEmptySelection<D(!new)>(t: seq<Row<D>>, models: seq<string>, years: seq<int>)
    requires models == [] || years == []
    ensures Filter(t, models, years) == []
  {
    if Filter(t, models, years) != [] {
      assert Filter(t, models, years)[0] in Filter(t, models, years);
    }
  }

  /** Applying the same selection twice is the same as applying it once. */
  lemma FilterIdempotent<D(!new)>(t: seq<Row<D>>, models: seq<string>, years: seq<int>)
    ensures Filter(Filter(t, models, years), models, years) == Filter(t, models, years)
  {
    FilterAllSelected(Filter(t, models, years), models, years);
  }
}
