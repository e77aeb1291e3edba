# Chevrolet price dashboards: the data pipeline in Dafny

The repository holds two near-identical Streamlit dashboards over one Google
Sheets worksheet of Chevrolet listings (`Modelo`, `Ano`, `Preço (R$)`).
`integracao.py` shows KPI metrics; `app.py` shows a line chart of the mean
price per year. Under the widgets, both run the same small pipeline, and this
project models it as pure functions over a sequence of rows:

- **Ingestion**: the worksheet's records arrive as a sequence of `RawRow`s.
  A missing secret or an unreachable sheet gives the empty table. So does an
  empty sheet, because `df['Ano']` on a frame without columns raises
  `KeyError` (module `Sheet`).
- **Year coercion**: `pd.to_numeric(..., errors='coerce').fillna(0).astype(int)`.
  A cell holding a number keeps it. Text holding an optionally signed decimal
  integer becomes that integer. Any other text becomes 0. No row is dropped
  (`Sheet.CoerceYear`, `Sheet.CoerceYears`).
- **Price cleaning**: the regex class `[R$.,]` deletes every `R`, `$`, `.`
  and `,`, and the remainder goes through `to_numeric`. The decimal comma is
  deleted together with the thousands dots, so "R$ 80.000,00" reads as
  8000000, one hundred times the listed price. The model does what the code
  does (`Sheet.BrazilianPriceReading`).
- **Filter options**: `sorted(col.unique())` in `integracao.py` and
  `col.unique()` (first-appearance order) in `app.py`. Either list is also the
  default selection (`Ordering`, `Integracao`, `App`).
- **Filter**: keeps, in table order, the rows whose `Modelo` and `Ano` are
  both selected (`Sheet.Filter`).
- **Aggregates**: count, mean and maximum of the price over the filtered rows
  (`Integracao.Summarize`), and the per-year mean with years ascending
  (`App.YearMeans`). Undefined (NaN) prices are skipped; an aggregate over no
  defined price is undefined (`Stats`).
- **Display helpers**: the "N/A unless > 0" rule, the three `replace` calls
  that turn English separators into Brazilian ones, and the table height
  `rows * 35 + 35` (`Integracao`).

`to_numeric` is modelled only on what it does to integers. `Numeric.ParseNumber`
accepts an optionally signed run of decimal digits with spaces around it, and
returns None (NaN) for anything else. This is narrower than pandas. Decimal
points, exponents, "inf"/"nan" and whitespace other than the space character
all give None in the model. Prices are `Option<int>`, and means are `real`
(sum divided by count), not floats.

Four consequences of the code that a reader might not expect, all modelled
as written:
- The decimal comma is deleted together with the dots, so "R$ 1.234,56" yields
  123456, not 1234.56.
- A leading `-` survives cleaning, so a negative price parses as negative.
- An empty sheet takes the configuration-error branch: `df['Ano']` raises
  `KeyError` on a frame without columns.
- Every metric that is not above 0 shows "N/A", not only an undefined one.

Modules: `Wrappers` (Option, Result), `Numeric` (integer text and its
parser), `Sheet` (cells, rows, coercion, cleaning, ingestion, filter),
`Ordering` (sorted and first-appearance distinct values), `Stats`
(defined values, sum, mean, min, max), `Integracao` and `App` (one per
dashboard). A row is `Row<D>`, where `D` holds the dashboard's derived
columns: none (`()`) for `integracao.py`, and `Preço Numérico`
(`Option<int>`) for `app.py`.

## Model

| member | source | states |
|---|---|---|
| `Numeric.ParseInteger` | app.py:28 | defined exactly for an optionally signed, non-empty run of decimal digits, and then the value of those digits, negated after a `-` |
| `Numeric.ParseNumber` | app.py:31-34 | `to_numeric` on one text cell: defined exactly when the text, spaces trimmed, is an integer |
| `Numeric.NatToText` | app.py:32 | `str` of a non-negative integer is a non-empty run of digits whose value is the integer |
| `Numeric.NatToTextCanonical` | app.py:32 | `str` writes no leading zero: only 0 itself starts with `0` |
| `Numeric.IntToText` | app.py:32 | `str(n)` is an optionally signed run of digits denoting n, with no `+` and no surrounding space |
| `Numeric.IntToTextCanonical` | app.py:32 | `str(n)` is "0" exactly for 0, has no other leading zero, and starts with `-` exactly for a negative n |
| `Numeric.ParseIntToText` | integracao.py:72 | parsing the text `str` writes for any integer gives that integer back |
| `Numeric.SignedDigitsValue` | app.py:28 | a sign (none, `+` or `-`) before a run of digits denotes the digits' value, negated after `-` |
| `Numeric.TrimPadding` | app.py:31-34 | trimming removes exactly the spaces around text that neither starts nor ends with a space |
| `Numeric.ParsePadded` | app.py:31-34 | spaces around an integer text do not change its parsed value |
| `Numeric.ParsePaddedInteger` | integracao.py:72 | a sign and a run of digits with any spaces around parse to the digits' value, negated after `-` |
| `Numeric.ParseNumberIgnoresLeadingSpace` | integracao.py:127 | a leading space (left where "R$" was deleted) does not change the parsed value |
| `Sheet.CoerceYear` | integracao.py:72 | a numeric `Ano` keeps its value; text that is an integer once spaces are trimmed gives the value of its digits, negated after a `-`; any other text gives 0 |
| `Sheet.CoerceYearPadded` | app.py:28 | a year written as a sign (none, `+` or `-`) and digits, with any spaces around, is the digits' value, negated after `-` |
| `Sheet.YearTextKeepsValue` | app.py:28 | a year written as text is coerced to that same year |
| `Sheet.CellText` | app.py:32 | `astype(str)`: text stays as it is; a number becomes an integer text denoting that number |
| `Sheet.CoerceYears` | app.py:28 | the coerced table has as many rows as the records, each with the same model and price and its year coerced |
| `Sheet.Ingest` | integracao.py:65-82 | success exactly when the fetch succeeded with at least one record, giving the coerced table; a missing secret and an empty sheet both give the configuration error; an unreachable sheet gives the access error with its reason |
| `Sheet.TableOf` | integracao.py:86 | the table the page goes on with: empty after any load failure |
| `Sheet.CleanPrice` | integracao.py:127 | the cleaned text is no longer than the input and holds no `R`, `$`, `.` or `,` |
| `Sheet.CleanPriceKeepsOthers` | app.py:32 | every other character occurs in the cleaned text as often as in the input |
| `Sheet.CleanPriceAppend` | app.py:32 | cleaning distributes over concatenation, so it keeps the order of the characters it keeps |
| `Sheet.CleanPriceKeepsClean` | integracao.py:127 | text without `R`, `$`, `.`, `,` is left unchanged, so cleaning is idempotent |
| `Sheet.PriceDefinedIff` | app.py:31-34 | `Preço Numérico` is defined exactly when the cleaned text, spaces trimmed, is an integer, and it is then the value of that text's digits, negated after a `-` |
| `Sheet.PriceOfCleanedText` | integracao.py:127 | a price whose cleaned text is a sign and digits with spaces around is the digits' value, negated after `-` |
| `Sheet.PriceValue` | app.py:31-34 | the per-cell `astype(str)`, deletion of `[R$.,]` and `to_numeric(errors='coerce')`: a price the sheet hands over as a number keeps its value through all three |
| `Sheet.BrazilianPriceReading` | integracao.py:127 | "R$ 80.000,00" is read as 8000000 |
| `Sheet.Filter` | integracao.py:114-117 | a row is in the result exactly when it is in the table with `Modelo` selected and `Ano` selected; the result is no longer than the table |
| `Sheet.FilterIsSubsequence` | app.py:80-83 | the filtered table is an order-preserving subsequence of the table |
| `Sheet.FilterKeepsEveryCopy` | app.py:80-83 | every copy of a selected row is kept, and no copy of an unselected row |
| `Sheet.FilterAllSelected` | integracao.py:114-117 | when every row is selected, the filter returns the whole table |
| `Sheet.FilterEmptySelection` | integracao.py:114-117 | an empty model selection or an empty year selection keeps no row |
| `Sheet.FilterIdempotent` | integracao.py:114-117 | applying a selection twice equals applying it once |
| `Ordering.StrLessIsStrictTotalOrder` | integracao.py:99 | Python's code-point lexicographic order on strings is irreflexive, transitive and total, so the sort is well defined |
| `Ordering.SortedDistinct` | integracao.py:99 | `sorted(unique())`: strictly ascending, no duplicates, exactly the values of the column |
| `Ordering.Distinct` | app.py:68 | `unique()`: no duplicates, exactly the values of the column, in order of first appearance |
| `Integracao.ModelOptions` | integracao.py:99 | the model options are the distinct models, strictly ascending in string order |
| `Integracao.YearOptions` | integracao.py:107 | the year options are the distinct years, strictly ascending |
| `Integracao.OptionsCoverRows` | integracao.py:99-107 | every row's model and year appear among the options |
| `Integracao.DefaultSelectionKeepsAll` | integracao.py:100-117 | with the defaults (all options) the filter returns the whole table |
| `Integracao.Summarize` | integracao.py:123-129 | metrics exist exactly for a non-empty filtered table; the count is its number of rows; the mean is `Stats.Mean` and the maximum `Stats.Max` of the defined prices of its rows, so they are undefined together |
| `Integracao.MetricsMeanValue` | integracao.py:128 | a defined average price times the number of defined prices is their sum: it is their sum divided by their count |
| `Integracao.Prices` | integracao.py:127 | the price column: one entry per filtered row, each that row's cleaned and parsed price |
| `Integracao.MetricsMeaning` | integracao.py:127-129 | over the cleaned price column of the filtered rows: the maximum is undefined exactly when every price is undefined, otherwise it is one of the prices and no defined price exceeds it; a defined mean lies between the smallest defined price and the maximum |
| `Integracao.UndefinedPriceIgnored` | integracao.py:127-129 | adding a row whose price does not parse raises the count by one and changes neither mean nor maximum |
| `Integracao.Replace` | integracao.py:148 | `str.replace` of one character: same length, each occurrence of the character replaced, every other character kept |
| `Integracao.SwapSeparators` | integracao.py:148 | the result has the same length; each `.` becomes `,`, each `,` (and `_`) becomes `.`, every other character stays |
| `Integracao.SwapSeparatorsTwice` | integracao.py:154 | on text without `_` the swap is an involution |
| `Integracao.MetricText` | integracao.py:148 | the text is "N/A" exactly when the mean is undefined or not above 0; otherwise it is "R$ " and the formatted value with separators swapped |
| `Integracao.MaxText` | integracao.py:154 | the maximum's text is "N/A" exactly when the maximum is undefined or not above 0; otherwise it is "R$ " and the formatted value with separators swapped |
| `Integracao.TableHeight` | integracao.py:165 | the height for n rows is 35 * (n + 1), never below the header height |
| `Integracao.TableHeightIncreasing` | integracao.py:165 | more rows give a strictly taller table |
| `Stats.Defined` | app.py:95 | the defined values are exactly the values of the `Some` entries, and there are no more of them than entries |
| `Stats.DefinedAppend` | app.py:95 | undefined entries contribute nothing: the defined values of a concatenation are the concatenation of the defined values |
| `Stats.DefinedEmpty` | integracao.py:128 | no value is defined exactly when every entry is undefined |
| `Stats.Mean` | integracao.py:128 | undefined exactly for no values; otherwise the mean times the count is the sum |
| `Stats.MeanTimesCount` | app.py:95 | a defined mean is the sum of the values divided by their count |
| `Stats.Max` | integracao.py:129 | undefined exactly for no values; otherwise one of the values, and no value exceeds it |
| `Stats.Min` | integracao.py:128 | undefined exactly for no values; otherwise one of the values, and no value is below it |
| `Stats.SumBounds` | integracao.py:128 | a sum of n values within lo..hi lies within n*lo..n*hi |
| `Stats.MeanWithinRange` | integracao.py:128 | the mean of non-empty values lies between their minimum and maximum |
| `Stats.MeanBetween` | integracao.py:128 | values that all lie within lo..hi have their mean within lo..hi |
| `Stats.MaxOfColumn` | integracao.py:129 | the maximum of a column's defined entries is undefined exactly when every entry is; otherwise it is one of the entries and bounds every defined entry |
| `Stats.MeanOfColumn` | integracao.py:128 | the mean of a column's defined entries is undefined exactly when every entry is; otherwise it lies between their minimum and maximum |
| `App.AddNumericPrice` | app.py:31-34 | every row gets `Preço Numérico`, the parsed cleaned price; no row is dropped and nothing else changes |
| `App.Load` | app.py:13-45 | success exactly when there is at least one record; each row keeps its model and price, has its year coerced and its numeric price derived; failures are those of the shared loader |
| `App.ModelOptions` | app.py:66-70 | the model options are the distinct models, each once, in order of first appearance |
| `App.YearOptions` | app.py:73-77 | the year options are the distinct years, each once, in order of first appearance |
| `App.OptionsCoverRows` | app.py:66-77 | every row's model and year appear among the options |
| `App.DefaultSelectionKeepsAll` | app.py:66-83 | with the defaults (all options) the filter keeps every row |
| `App.FilterAddNumericPrice` | app.py:80-83 | filtering and deriving `Preço Numérico` commute: this dashboard's order (derive, then filter) gives the same rows as the other's |
| `App.Project` | app.py:89 | the displayed table has one row per filtered row, with the same `Modelo`, `Ano` and `Preço (R$)` |
| `App.ProjectAddNumericPrice` | app.py:89 | dropping `Preço Numérico` again gives back exactly the loaded rows |
| `App.ProjectFilter` | app.py:89 | projecting the filtered table equals filtering the projected table |
| `App.YearGroup` | app.py:95 | a year's group holds the table's rows of that year and no others, and is no longer than the table |
| `App.YearGroupKeepsEveryCopy` | app.py:95 | every copy of a row of that year is in its group, so duplicate rows weigh in the mean; no row of another year is |
| `App.YearGroupIsSubsequence` | app.py:95 | the group lists its rows in table order |
| `App.YearMeans` | app.py:95-96 | one point per distinct year of the filtered table, years strictly ascending, each with the mean of its year's defined prices |
| `App.MeanOfYear` | app.py:95 | a year's mean is `Stats.Mean` of the defined prices of that year's rows, and it is undefined exactly when all of those rows have an undefined price |
| `App.MeanOfYearValue` | app.py:95 | a defined year mean times the number of that year's defined prices is their sum: it is their sum divided by their count |
| `App.MeanOfYearBounds` | app.py:95 | a defined year mean lies between the smallest and largest defined price of that year |

## Left out

- The Google Sheets client, the credentials in `st.secrets` and the network. They are foreign calls, so the fetch outcome is a parameter of `Sheet.Ingest` and `App.Load`.
- `@st.cache_data(ttl=600)` and `.clear()`. The cache, its expiry and the reload button live in the Streamlit library; the repository has no cache logic of its own.
- The CSS, titles, columns, multiselect widgets, `st.metric`, `st.dataframe`, `st.rerun`, the warnings, and the Altair chart. These are rendering only. The user's selections are parameters of the filter.
- Float formatting `f"{x:,.2f}"` and floating-point NaN. The formatted text is a parameter of `Integracao.MetricText`, and only the separator swap is modelled. NaN is `None`.
- The catch-all fallback to 0 around the metrics (integracao.py:130-132). It guards library exceptions that cannot arise once parsing is total.
- Numeric.ParseNumber: narrower than `pd.to_numeric`. It accepts only optionally signed decimal integers surrounded by spaces. Floats in cells, decimal points, exponents and other whitespace are not modelled. A float `Ano` truncated by `astype(int)` is not modelled either.
- Columns of the sheet other than `Modelo`, `Ano` and `Preço (R$)`, and a `Modelo` cell that is not text. With a non-text model, Python's `sorted` raises on mixed types.
- Integer width: `Ano` is int64 after `astype(int)` and prices are int64 or float64 in pandas, while the model's integers are unbounded, so a year or price beyond 64 bits does not overflow in the model.
- A non-finite `Ano` (gspread hands the text "inf" over as a float, and `fillna(0)` keeps it) makes `astype(int)` raise, and the whole load then takes the access-error branch (integracao.py:79-82, app.py:42-45). Cells are integers or text in the model, so this path cannot arise in it.
- A record missing one of the three columns. Its `KeyError` path is modelled only for the empty sheet.
