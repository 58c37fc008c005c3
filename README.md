# Vahan registration dashboard — a verified model of its data core

The dashboard reads one CSV export of vehicle registrations per year (2021 to
2024) from the Vahan portal. Each export is a wide table: a serial number, a
manufacturer, one column per month and a yearly total. `load_clean_data`
normalises each year on its own:

- it renames the columns by position;
- it unpivots the month columns into long rows;
- it drops cells that are not numbers;
- it stamps every row with its year, its trimmed manufacturer name, its month
  number and the first day of that month;
- it concatenates the years that loaded.

The dashboard then computes these aggregates from that table:

- yearly and quarterly totals with their percent change;
- per-manufacturer yearly growth;
- per-manufacturer totals, the top N of them, and their market shares.

This project models that core in Dafny and proves its properties:

| module | file | models |
|---|---|---|
| `Wrappers` | wrappers.dfy | `Option` |
| `Floats` | floats.dfy | float64 division, subtraction and scaling, with infinities and NaN |
| `Strings` | strings.dfy | `str.strip()` over Python's whitespace set |
| `Columns` | columns.dfy | the 15-name template, the renaming loop, the available months, the month map |
| `Reshape` | reshape.dfy | a raw table, `melt`, `to_numeric` and `dropna`, the derived fields, the per-year sums |
| `Loader` | loader.dfy | the year loop of `load_clean_data`, its error paths, the concatenation |
| `Aggregates` | aggregates.dfy | `groupby().sum()`, `pct_change`, `nlargest` and the share arithmetic |

A raw table is a header (the labels the reader produced) and rows of cells
(`Num`, `Text` or `Empty`). A row shorter than the header reads as `Empty`
past its end, as the reader pads it with NaN.

Two pandas conversions are passed in as parameters (`Reshape.Conversions`):

- `pd.to_numeric(errors='coerce')`, from a cell to a number or nothing;
- `astype(str)` of a number.

Whether a given file exists, or is readable, is the map
`files: map<int, FileState>` given to the loader.

The pandas operations (`melt`, `groupby`, `nlargest`, `pct_change`) are
functions over sequences. The parts of `load_clean_data` that change state
step by step are methods with loops, each proved equal to the function that
specifies it:

- the year loop that appends to `all_data`;
- the loop that builds `actual_columns` with `break`;
- the column assignments.

Details of the code that the model keeps:

- The renaming template has 15 names, TOTAL included.
- An empty manufacturer cell becomes the text `nan`.
- Percent change after a zero total is +inf, -inf or NaN.
- `nlargest` breaks ties in the order of the grouped series, which is
  manufacturer-name order.
- The reader turns a cell such as `N/A` into NaN, so it is an `Empty` cell,
  and `to_numeric` leaves it NaN; under `Reshape.PandasParse` such a cell
  never yields a row, and a numeric cell always does.
- `melt` raises `ValueError` (pandas 2) when a column left over after
  renaming is already labelled `Registrations`, the value name it was asked
  to create; the `except` branch then skips that year.

## Model

| member | source | states |
|---|---|---|
| Columns.Reconciled | vahan_dashboard.py:46-58 | the renamed header has as many labels as the file; position i < 15 carries the i-th template name, and every later position keeps its original label |
| Columns.ActualColumns | vahan_dashboard.py:50-55 | the loop with `break` yields exactly the first min(ncols, 15) template names, in order |
| Columns.RenameColumns | vahan_dashboard.py:58 | the assigned `df.columns` is the reconciled header |
| Columns.AvailableMonths | vahan_dashboard.py:61-62 | every available month is a month name and a column of the table |
| Columns.AvailableMonthsOfReconciled | vahan_dashboard.py:61-62 | after renaming, the available months are exactly the first min(ncols-2, 12) months in calendar order, and TOTAL is never among them |
| Columns.MonthInReconciled | vahan_dashboard.py:46-62 | a month is a column after renaming iff the file has enough columns to reach it, and then it sits at position 2 + its calendar index |
| Columns.MonthColumnOfReconciled | vahan_dashboard.py:62-66 | the column melt reads for month k is position k + 2 |
| Columns.ColumnIndex | vahan_dashboard.py:64-66 | a label lookup finds the first column carrying that label |
| Columns.IdColumnsIffTwoColumns | vahan_dashboard.py:64-66 | melt finds both SNo and Manufacturer iff the file has at least two columns |
| Columns.IdColumnsOfReconciled | vahan_dashboard.py:64-66 | with two or more columns, SNo is column 0 and Manufacturer column 1 |
| Columns.MonthNumberOf | vahan_dashboard.py:80-82 | the k-th month name maps to k + 1 |
| Columns.MonthMapMatchesMonths | vahan_dashboard.py:80-82 | every month name is mapped, each mapped name gets a number in 1..12, and that number indexes back to the same name |
| Columns.MonthsDistinct | vahan_dashboard.py:61 | the twelve month names are distinct |
| Columns.NotAMonth | vahan_dashboard.py:46-47 | no month name is SNo, Manufacturer or TOTAL |
| Columns.NotAValueName | vahan_dashboard.py:46-68 | no month name is Registrations |
| Columns.ValueNameAfterRenaming | vahan_dashboard.py:46-68 | after renaming, a column is labelled Registrations iff one of the columns past the template already was |
| Reshape.MeltMonths | vahan_dashboard.py:64-69 | melting k months over n rows yields k·n long rows, each carrying one of those months |
| Reshape.Melt | vahan_dashboard.py:64-69 | every melted row's Month is a month name |
| Reshape.MeltAt | vahan_dashboard.py:64-69 | melt yields one long row per (available month, raw row), month-major; row i·n + j carries raw row j's id cells, the i-th available month and row j's cell under it |
| Reshape.MeltOfReconciled | vahan_dashboard.py:61-69 | a file melts into MonthCount·n rows, month-major; row i·n + j carries raw row j's SNo and Manufacturer, month i and the cell under month i |
| Reshape.MeltMonthsMapped | vahan_dashboard.py:64-82 | every melted Month is a key of the month map |
| Reshape.Canonicalize | vahan_dashboard.py:76-83 | the derived row is well formed for the year (Year, Month_Num, Date, no edge whitespace in Manufacturer), its Manufacturer is the stripped text of the long row's Manufacturer cell, and it keeps the long row's SNo, Month and parsed count |
| Reshape.CleanOne | vahan_dashboard.py:72-73 | a long row yields at most one row, one exactly when its cell parses, and that row carries the parsed count and the row's month |
| Reshape.CleanRows | vahan_dashboard.py:72-83 | every surviving row is well formed: Year is the loop year, Month_Num is in 1..12 and names its Month, Date is day 1 of (Year, Month_Num), Manufacturer has no edge whitespace |
| Reshape.AsText | vahan_dashboard.py:77 | `astype(str)`: a text cell keeps its text, a number gets the text the supplied conversion gives its value, a missing cell becomes `nan`; used by Reshape.Canonicalize |
| Reshape.CleanLong | vahan_dashboard.py:72-83 | the in-place column updates after melt produce exactly the cleaned rows |
| Reshape.CleanRowsComeFromParsed | vahan_dashboard.py:72-73 | every surviving row comes from a melted row whose cell parsed, and carries that parsed value |
| Reshape.ParsedRowKept | vahan_dashboard.py:72-73 | the melted row at a given position, when its cell parses, survives canonicalised |
| Reshape.ParsedRowsAreKept | vahan_dashboard.py:72-73 | every melted row whose cell parses survives, canonicalised |
| Reshape.MissingCountsDropped | vahan_dashboard.py:72-73 | under pandas' parse every surviving row comes from a long row whose cell is not missing |
| Reshape.NumericCountsKept | vahan_dashboard.py:72-73 | under pandas' parse every long row with a numeric cell yields its canonical row |
| Reshape.CleanRowsOfNumbers | vahan_dashboard.py:72-73 | under pandas' parse, when no cell is text, exactly as many rows survive as there are numeric cells |
| Reshape.TotalOfCleanRows | vahan_dashboard.py:72-73 | the registrations that survive sum to the sum of the parsed cells: nothing is zero-filled |
| Reshape.ParsedSumOfMonthBlock | vahan_dashboard.py:64-73 | one month's block of melted rows sums to the parsed cells of that month's column |
| Reshape.ParsedSumOfMonthsStep | vahan_dashboard.py:64-73 | melting one more month adds the sum of its column, c + 1 |
| Reshape.ParsedSumOfMonths | vahan_dashboard.py:64-73 | when month k sits at position k + 2, melting the first c months sums columns 2..c + 1 |
| Reshape.MeltPreservesMonthSum | vahan_dashboard.py:61-73 | the parsed values of the melted table sum to the sum of the file's numeric cells under its month columns |
| Reshape.RowsOfYearKeeps | vahan_dashboard.py:144 | a row is in the group of its own year |
| Reshape.RowsOfYearUniform | vahan_dashboard.py:144 | a frame whose rows all have year y is its own group for y, and contributes nothing to another year |
| Strings.Strip | vahan_dashboard.py:77 | `str.strip()`: leading and trailing whitespace removed; its properties are the four lemmas below |
| Strings.StripKeepsInterior | vahan_dashboard.py:77 | strip removes a leading and a trailing whitespace run and leaves the interior unchanged |
| Strings.StripHasNoEdgeSpace | vahan_dashboard.py:77 | a stripped name neither starts nor ends with whitespace |
| Strings.StripKeepsClean | vahan_dashboard.py:77 | a name without edge whitespace is left unchanged |
| Strings.StripIdempotent | vahan_dashboard.py:77 | stripping twice is stripping once |
| Loader.ProcessTable | vahan_dashboard.py:43-85 | a readable table fails exactly when melt raises: with ValueError when an extra column is already labelled Registrations, otherwise with KeyError when it has fewer than two columns; every row it yields is well formed for the year |
| Loader.LoadYear | vahan_dashboard.py:39-91 | one pass of the loop: the year is skipped as not found iff its file is absent, with a read error iff the reader raised, and loads iff the file was read and melt accepted it |
| Loader.ThreeMonthFileMelts | vahan_dashboard.py:46-69 | a five-column file (JAN, FEB, MAR after renaming) with one row melts into that row's three month cells, in calendar order |
| Loader.CleanThree | vahan_dashboard.py:72-73 | of three long rows, when only the first and third parse, exactly those two survive, in order |
| Loader.ProcessTableLoads | vahan_dashboard.py:64-83 | a table melt accepts loads as the cleaned rows of its melted form |
| Loader.CleanJanMar | vahan_dashboard.py:72-83 | long rows for JAN = jan, a missing FEB and MAR = mar clean into exactly January's and March's rows, with their counts, month numbers, dates and stripped manufacturer names |
| Loader.MissingMonthExample | vahan_dashboard.py:46-83 | a file with JAN = 100, FEB missing and MAR = 150 yields exactly two rows, January's and March's, with their counts, month numbers and dates, both carrying the stripped text of the row's Manufacturer cell |
| Loader.Flatten | vahan_dashboard.py:93 | a row is in the concatenation iff it is in one of the frames |
| Loader.CleanData | vahan_dashboard.py:34-93 | the concatenated frames of the years that loaded; stated by the lemmas below |
| Loader.CleanDataStep | vahan_dashboard.py:38-93 | one more year in the loop appends exactly that year's rows to the result |
| Loader.LoadCleanData | vahan_dashboard.py:34-93 | the loop over 2021..2024 returns the concatenation, in year order, of the frames of the years that loaded |
| Loader.CleanDataRowsWellFormed | vahan_dashboard.py:38-85 | every row's Year is one of the requested years, and the row is well formed for it |
| Loader.OwnYearOnly | vahan_dashboard.py:38-85 | a year's own frame is its whole group for that year and adds nothing to any other |
| Loader.YearIsolation | vahan_dashboard.py:38-93 | the rows of year y in the result are exactly what y's own file produced, and none when it was missing, unreadable or rejected by melt |
| Loader.YearUnaffectedByOtherFiles | vahan_dashboard.py:38-93 | changing other years' files does not change year y's rows |
| Loader.CleanDataEmptyIff | vahan_dashboard.py:93 | the result is empty iff no year contributed a row |
| Loader.YearTotalIsNumericCellSum | vahan_dashboard.py:38-93 | a year's total registrations is the sum of the numeric month cells of its file when the file was read and melt accepted it, and 0 otherwise |
| Aggregates.PctChange | vahan_dashboard.py:145 | the percent-change series has one entry per total |
| Aggregates.PctChangeAt | vahan_dashboard.py:145 | percent change is NaN at the first entry, (t[i] - t[i-1]) / t[i-1] · 100 after a non-zero entry, and +inf, -inf or NaN by the sign of t[i] after a zero |
| Aggregates.YearlyTotals | vahan_dashboard.py:144 | each listed year is requested, has rows, and has as its total the sum of its rows |
| Aggregates.YearlyTotalsIsGroupBy | vahan_dashboard.py:144 | the yearly keys are strictly increasing, every row's year is a key, and the totals add up to the whole table |
| Aggregates.YearlyTotalsIncreasing | vahan_dashboard.py:144 | over increasing requested years, the yearly keys are strictly increasing |
| Aggregates.YearlyTotalsSum | vahan_dashboard.py:144 | over distinct years, the yearly totals add up to the total of the rows of those years |
| Aggregates.YearlyTotalsCoversRows | vahan_dashboard.py:144 | a row of a requested year makes its year a key |
| Aggregates.SeriesGrowthAt | vahan_dashboard.py:145 | the first growth entry is NaN, and a later one after a non-zero total is the relative change in percent |
| Aggregates.YoYGrowth | vahan_dashboard.py:145 | one growth entry per year that has rows, the first NaN; Aggregates.YoYGrowthAt gives the rest |
| Aggregates.YoYGrowthAt | vahan_dashboard.py:144-145 | YoY growth compares each year with the previous year that has rows, as a relative change in percent |
| Aggregates.LoadedYearlyPartition | vahan_dashboard.py:107 | on the loaded table the yearly totals run over increasing years and add up to total_registrations |
| Aggregates.LoadedYearlyTotals | vahan_dashboard.py:38-93 | on the loaded table, a year appears only when its file was read and melt accepted it, and its total is the sum of that file's numeric month cells |
| Aggregates.QuarterOf | vahan_dashboard.py:112 | a month in 1..12 falls in quarter q in 1..4 with 3(q - 1) < month <= 3q |
| Aggregates.QuartersOfYear | vahan_dashboard.py:206 | every key built for year y up to quarter q has year y and a quarter in 1..q |
| Aggregates.QuartersOfYearOrdered | vahan_dashboard.py:206 | a year's quarter keys come out strictly increasing |
| Aggregates.QuartersOfYearSums | vahan_dashboard.py:206 | each quarter key of a year has rows and carries the sum of their registrations |
| Aggregates.QuartersOfYearPrefix | vahan_dashboard.py:206 | the keys up to quarter p are the leading keys up to any later quarter q |
| Aggregates.QuartersOfYearCovers | vahan_dashboard.py:206 | every quarter of a year that has rows is a key |
| Aggregates.QuarterlyTotals | vahan_dashboard.py:206 | every (year, quarter) key has a requested year and a quarter in 1..4 |
| Aggregates.QuarterlyTotalsSums | vahan_dashboard.py:206 | each (year, quarter) key has rows and carries the sum of their registrations |
| Aggregates.QuarterlyTotalsChronological | vahan_dashboard.py:206 | over increasing years, the (year, quarter) keys are in strict chronological order |
| Aggregates.ChronologicalAppend | vahan_dashboard.py:206 | appending a later year's increasing quarters to chronological keys keeps them chronological |
| Aggregates.QuarterlyTotalsCoversRows | vahan_dashboard.py:206 | a row of a requested year makes its (year, quarter of its date) a key |
| Aggregates.QuarterlyTotalsIsGroupBy | vahan_dashboard.py:206 | the quarterly keys are in strict chronological order, every well-formed row's (year, quarter of its date) is a key, and each key carries the sum of its rows |
| Aggregates.QuarterSeriesGrowthAt | vahan_dashboard.py:207 | after a non-zero quarter, the growth entry is the relative change in percent |
| Aggregates.QoQGrowth | vahan_dashboard.py:207 | one growth entry per (year, quarter) key, the first NaN; Aggregates.QoQGrowthAt gives the rest |
| Aggregates.QoQGrowthAt | vahan_dashboard.py:206-207 | QoQ growth compares each quarter with the chronologically previous quarter that has rows, across year boundaries too |
| Aggregates.MakerGrowth | vahan_dashboard.py:194-195 | one growth entry per year in which the manufacturer has rows, the first NaN; Aggregates.MakerGrowthAt gives the rest |
| Aggregates.MakerGrowthAt | vahan_dashboard.py:194-195 | a manufacturer's growth is NaN in its first year and otherwise the relative change from its previous year with rows |
| Aggregates.InsertName | vahan_dashboard.py:178 | inserting a name keeps the key list strictly sorted and adds exactly that name |
| Aggregates.Names | vahan_dashboard.py:178 | the group keys are strictly sorted, include every row's manufacturer, and each has rows |
| Aggregates.GroupTotals | vahan_dashboard.py:178 | each key carries the sum of its manufacturer's rows |
| Aggregates.MakerTotals | vahan_dashboard.py:178 | one entry per manufacturer, by Aggregates.Names and Aggregates.GroupTotals; the entries add up by Aggregates.MakerTotalsPartition |
| Aggregates.MakerTotalsPartition | vahan_dashboard.py:178 | the per-manufacturer totals add up to total_registrations |
| Aggregates.StrLtIrreflexive | vahan_dashboard.py:178 | no name sorts before itself |
| Aggregates.StrLtTransitive | vahan_dashboard.py:178 | name order is transitive |
| Aggregates.StrLtTotal | vahan_dashboard.py:178 | two different names are ordered one way or the other |
| Aggregates.InsertDesc | vahan_dashboard.py:178 | insertion adds exactly one entry and loses none |
| Aggregates.InsertDescNonIncreasing | vahan_dashboard.py:178 | insertion keeps the totals non-increasing |
| Aggregates.InsertDescBounded | vahan_dashboard.py:178 | inserting an entry under a bound keeps every entry under that bound |
| Aggregates.SortDesc | vahan_dashboard.py:178 | the sort is a permutation, with totals non-increasing |
| Aggregates.SumTotalsSortDesc | vahan_dashboard.py:236 | sorting does not change the sum of the totals |
| Aggregates.BelowCut | vahan_dashboard.py:178 | in a non-increasing sequence nothing after a cut is larger than anything before it |
| Aggregates.CutOfSorted | vahan_dashboard.py:178 | the head of a sorted arrangement is non-increasing, drawn from the input, and no entry it leaves out is larger than one it keeps |
| Aggregates.NLargestLeftOut | vahan_dashboard.py:178 | what nlargest leaves out is exactly the tail of the sorted sequence |
| Aggregates.NLargest | vahan_dashboard.py:178 | the leading min(n, k) entries of the descending sort; what it selects is stated by Aggregates.NLargestSelects |
| Aggregates.NLargestSelects | vahan_dashboard.py:178 | nlargest(n) returns min(n, k) of the k entries, in non-increasing order, and no entry left out has a larger total than an entry returned |
| Aggregates.MakerTotalsNonNegative | vahan_dashboard.py:178 | with non-negative registrations every manufacturer total is non-negative |
| Aggregates.MemberBelowSum | vahan_dashboard.py:178 | with non-negative totals, no single entry exceeds the sum |
| Aggregates.PrefixSumBounded | vahan_dashboard.py:236 | with non-negative totals, a prefix sums to between 0 and the whole |
| Aggregates.TopSumBounded | vahan_dashboard.py:236 | the top n hold between 0 and the grand total together, and each of them at most their joint total |
| Aggregates.SharePercentBounded | vahan_dashboard.py:179 | a part of a positive whole is a finite share in 0..100 percent |
| Aggregates.TopManufacturers | vahan_dashboard.py:178-179 | the top n manufacturers with their totals and shares; each entry is stated by Aggregates.MarketShareAt |
| Aggregates.TopManufacturerEntry | vahan_dashboard.py:178-179 | entry i of the table is entry i of nlargest, with its total over total_registrations · 100 in float64 as Market_Share |
| Aggregates.NLargestEntryTotal | vahan_dashboard.py:178 | every entry nlargest selects carries the sum of that manufacturer's rows |
| Aggregates.SharePercentOf | vahan_dashboard.py:179 | a float64 share is the percentage over a non-zero whole, and +inf, -inf or NaN by the sign of the part over a zero whole |
| Aggregates.MarketShareAt | vahan_dashboard.py:178-179 | for any rows, each listed manufacturer's total is the sum of its rows; its Market_Share is that total over total_registrations · 100 when the grand total is non-zero, and +inf, -inf or NaN by the sign of its total when it is zero |
| Aggregates.MarketShareBounded | vahan_dashboard.py:178-179 | with non-negative registrations and a positive grand total, each listed Market_Share is a finite percentage in 0..100 |
| Aggregates.TopShare | vahan_dashboard.py:236 | the top-n sum over total_registrations in percent; bounded by Aggregates.TopShareBounded |
| Aggregates.TopShareBounded | vahan_dashboard.py:236 | the top-n share is in 0..100 percent when something was registered, and NaN when the grand total is 0 |

## Left out

- Streamlit page setup, styling, metrics, tabs, sidebar messages and buttons:
  these are UI. The sidebar messages of the year loop are not modelled; a
  failure is the `Skip` reason a year carries instead.
- Plotly charts: a foreign charting library.
- File existence and `pd.read_csv` with latin1 decoding: I/O and a foreign
  parser. A file is given as absent, unreadable, or a header plus rows of cells.
- `pd.to_numeric`'s number grammar, and the text of a number under
  `astype(str)`: pandas internals, passed in as functions.
- The `@st.cache_data` memoisation and the refresh that clears it: framework
  caching.
- CSV export and the download button: the serialiser belongs to pandas.
- Float64 rounding and the `:.1f` formatting: growth and shares are exact
  reals. Infinities and NaN from division by zero are modelled.
- `pd.to_datetime` and the period-string internals: a date is a
  (year, month, day) triple, and a quarter is computed from the month.
- The means and ratios shown as metrics and insights: the average monthly
  registrations, the average and latest YoY growth, the four-year growth,
  the average growth by manufacturer with its top 5, the seasonal monthly
  means, and `nunique`. They are single expressions over the modelled
  aggregates, and averaging NaN-skipping floats is not modelled.
- Duplicate column labels after renaming (a file whose extra trailing
  columns repeat a template name): a lookup resolves to the first such
  column, and melt's behaviour with repeated value columns is not modelled.
- Aggregates.NLargestSelects, Aggregates.SortDesc: the contracts do not state
  the tie order among equal totals. The function keeps the order of the grouped series, as
  keep='first' does.
- Aggregates.TopShareBounded, Aggregates.MarketShareBounded: the 0..100
  bound is stated only under non-negative registrations. `to_numeric` can
  yield negative numbers, and then no bound holds. The share formula itself
  holds for any rows (Aggregates.MarketShareAt).
- Reshape.AsText: the text of a number is a function of its value alone.
  pandas' `astype(str)` also depends on the column's type: an integer
  column gives `5`, a float column (one that holds NaN, say) gives `5.0`.
- Cells that `to_numeric` parses as infinite: `dropna` keeps them, while the
  model treats every parsed value as a finite real.
