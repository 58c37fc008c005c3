/**
 * The wide-to-long reshape of one renamed year table (pandas `melt`) and the
 * per-row cleaning that follows it: numeric coercion, dropping rows whose
 * count is missing, and the derived Year, Manufacturer, Month_Num and Date.
 */
module Reshape {
  import opened Wrappers
  import opened Columns
  import opened Strings

  /** A year's table as read: its header labels and its data rows. */
  datatype RawTable = RawTable(header: seq<string>, rows: seq<seq<Cell>>)

  /** A row of the long frame before coercion: the two id cells, the month label and the raw count cell. */
  datatype LongRow = LongRow(sno: Cell, maker: Cell, month: string, value: Cell)

  /** A calendar date as (year, month, day). */
  datatype Date = Date(year: int, month: int, day: int)

  /** A row of the canonical table, with its columns in the order the loader creates them. */
  datatype Record = Record(
    sno: Cell,
    manufacturer: string,
    month: string,
    registrations: real,
    year: int,
    monthNum: int,
    date: Date)

  /**
   * The two conversions that belong to pandas and are not modelled here:
   * `pd.to_numeric(errors='coerce')` of one cell (None where the result is NaN)
   * and the text `astype(str)` gives for a number.
   */
  datatype Conversions = Conversions(toNumeric: Cell -> Option<real>, numToStr: real -> string)

  /** The identifier columns melt keeps; without them melt raises KeyError. */
  predicate HasIdColumns(cols: seq<string>) {
    "SNo" in cols && "Manufacturer" in cols
  }

  /** Every long row of a melt carries a month the month map knows. */
  lemma MeltMonthsMapped(cols: seq<string>, rows: seq<seq<Cell>>)
    requires HasIdColumns(cols)
    ensures MonthsMapped(Melt(cols, rows))
  {
    forall x | x in Melt(cols, rows) ensures x.month in MonthMap {
      MonthMapMatchesMonths(x.month);
    }
  }

  /** The long rows for one month column: one per raw row, in row order. */
  function MeltMonth(cols: seq<string>, rows: seq<seq<Cell>>, m: string): (r: seq<LongRow>)
    requires HasIdColumns(cols) && m in cols
    ensures |r| == |rows|
  {
    var s, p, j := ColumnIndex(cols, "SNo"), ColumnIndex(cols, "Manufacturer"), ColumnIndex(cols, m);
    seq(|rows|, i requires 0 <= i < |rows| => LongRow(CellAt(rows[i], s), CellAt(rows[i], p), m, CellAt(rows[i], j)))
  }

  /** melt with the given value columns: month by month, each month's block holding every raw row. */
  function MeltMonths(ms: seq<string>, cols: seq<string>, rows: seq<seq<Cell>>): (r: seq<LongRow>)
    requires HasIdColumns(cols) && forall m | m in ms :: m in cols
    ensures |r| == |ms| * |rows|
    ensures forall x | x in r :: x.month in ms
  {
    if ms == [] then []
    else
      var front := MeltMonths(ms[..|ms| - 1], cols, rows);
      var block := MeltMonth(cols, rows, ms[|ms| - 1]);
      assert |front + block| == (|ms| - 1) * |rows| + |rows| == |ms| * |rows|;
      front + block
  }

  /** `df.melt(id_vars=['SNo', 'Manufacturer'], value_vars=available_months)`. */
  function Melt(cols: seq<string>, rows: seq<seq<Cell>>): (r: seq<LongRow>)
    requires HasIdColumns(cols)
    ensures forall x | x in r :: x.month in Months
  {
    MeltMonths(AvailableMonths(cols), cols, rows)
  }

  /** Long row number i * |rows| + j comes from month i and raw row j. */
  lemma {:induction false} MeltMonthsAt(ms: seq<string>, cols: seq<string>, rows: seq<seq<Cell>>, i: nat, j: nat)
    requires HasIdColumns(cols) && forall m | m in ms :: m in cols
    requires i < |ms| && j < |rows|
    ensures i * |rows| + j < |MeltMonths(ms, cols, rows)|
    ensures MeltMonths(ms, cols, rows)[i * |rows| + j]
         == LongRow(CellAt(rows[j], ColumnIndex(cols, "SNo")), CellAt(rows[j], ColumnIndex(cols, "Manufacturer")),
                    ms[i], CellAt(rows[j], ColumnIndex(cols, ms[i])))
  {
    var init := ms[..|ms| - 1];
    var front := MeltMonths(init, cols, rows);
    var block := MeltMonth(cols, rows, ms[|ms| - 1]);
    assert MeltMonths(ms, cols, rows) == front + block;
    if i < |init| {
      BlockBound(i, |init|, |rows|, j);
      MeltMonthsAt(init, cols, rows, i, j);
      assert init[i] == ms[i];
    } else {
      assert i * |rows| + j == |front| + j;
    }
  }

  lemma {:induction false} BlockBound(i: nat, n: nat, r: nat, j: nat)
    requires i < n && j < r
    ensures i * r + j < n * r
  {
    assert n * r == (n - 1) * r + r;
    if i < n - 1 {
      BlockBound(i, n - 1, r, j);
    }
  }

  /** The long frame melt produces from a raw table that has both identifier columns. */
  function MeltOf(t: RawTable): seq<LongRow>
    requires |t.header| >= 2
  {
    IdColumnsIffTwoColumns(t.header);
    Melt(Reconciled(t.header), t.rows)
  }

  /**
   * The reshape of a renamed table with at least two columns: MonthCount
   * months times the number of raw rows, and row i * |rows| + j carries raw
   * row j's SNo and Manufacturer cells, the i-th month and that row's cell in
   * column i + 2.
   */
  lemma MeltOfReconciled(t: RawTable, i: nat, j: nat)
    requires |t.header| >= 2
    requires i < MonthCount(|t.header|) && j < |t.rows|
    ensures |MeltOf(t)| == MonthCount(|t.header|) * |t.rows|
    ensures i * |t.rows| + j < |MeltOf(t)|
    ensures MeltOf(t)[i * |t.rows| + j]
         == LongRow(CellAt(t.rows[j], 0), CellAt(t.rows[j], 1), Months[i], CellAt(t.rows[j], i + 2))
  {
    var cols := Reconciled(t.header);
    var ms := AvailableMonths(cols);
    assert HasIdColumns(cols) && ColumnIndex(cols, "SNo") == 0 && ColumnIndex(cols, "Manufacturer") == 1 by {
      IdColumnsOfReconciled(t.header);
    }
    assert |ms| == MonthCount(|t.header|) && ms[i] == Months[i] by {
      AvailableMonthsOfReconciled(t.header);
    }
    assert ColumnIndex(cols, Months[i]) == i + 2 by {
      MonthColumnOfReconciled(t.header, i);
    }
    MeltAt(cols, t.rows, i, j);
  }

  /** Long row i * |rows| + j of melt comes from the i-th available month and raw row j. */
  lemma MeltAt(cols: seq<string>, rows: seq<seq<Cell>>, i: nat, j: nat)
    requires HasIdColumns(cols) && i < |AvailableMonths(cols)| && j < |rows|
    ensures |Melt(cols, rows)| == |AvailableMonths(cols)| * |rows|
    ensures i * |rows| + j < |Melt(cols, rows)|
    ensures Melt(cols, rows)[i * |rows| + j]
         == LongRow(CellAt(rows[j], ColumnIndex(cols, "SNo")), CellAt(rows[j], ColumnIndex(cols, "Manufacturer")),
                    AvailableMonths(cols)[i], CellAt(rows[j], ColumnIndex(cols, AvailableMonths(cols)[i])))
  {
    MeltMonthsAt(AvailableMonths(cols), cols, rows, i, j);
  }

  /** `astype(str)` of a manufacturer cell: a missing cell becomes the text "nan". */
  function AsText(c: Cell, conv: Conversions): string {
    match c
    case Num(v) => conv.numToStr(v)
    case Text(s) => s
    case Empty => "nan"
  }

  /** The canonical row made from a long row whose count parsed as v. */
  function Canonicalize(year: int, x: LongRow, v: real, conv: Conversions): (r: Record)
    requires x.month in MonthMap
    ensures WellFormed(r, year)
    ensures r.sno == x.sno && r.month == x.month && r.registrations == v
    ensures r.manufacturer == Strip(AsText(x.maker, conv))
  {
    MonthMapMatchesMonths(x.month);
    StripHasNoEdgeSpace(AsText(x.maker, conv));
    var k := MonthMap[x.month];
    Record(x.sno, Strip(AsText(x.maker, conv)), x.month, v, year, k, Date(year, k, 1))
  }

  /** What every canonical row of a year satisfies. */
  ghost predicate WellFormed(rec: Record, year: int) {
    && rec.year == year
    && 1 <= rec.monthNum <= 12
    && rec.month == Months[rec.monthNum - 1]
    && rec.date == Date(year, rec.monthNum, 1)
    && NoEdgeSpace(rec.manufacturer)
  }

  predicate MonthsMapped(ms: seq<LongRow>) {
    forall x | x in ms :: x.month in MonthMap
  }

  /** Coercion of one long row: dropped when its count is not numeric. */
  function CleanOne(year: int, x: LongRow, conv: Conversions): (r: seq<Record>)
    requires x.month in MonthMap
    ensures |r| <= 1
    ensures r != [] <==> conv.toNumeric(x.value).Some?
    ensures r != [] ==> r[0].registrations == conv.toNumeric(x.value).value && r[0].month == x.month
  {
    match conv.toNumeric(x.value)
    case None => []
    case Some(v) => [Canonicalize(year, x, v, conv)]
  }

  /**
   * The long frame after lines 72-83: counts coerced, missing counts dropped,
   * the derived columns added. Every surviving row is well formed for year.
   */
  function CleanRows(year: int, ms: seq<LongRow>, conv: Conversions): (r: seq<Record>)
    requires MonthsMapped(ms)
    ensures forall rec | rec in r :: WellFormed(rec, year)
  {
    if ms == [] then []
    else
      var x := ms[|ms| - 1];
      MonthMapMatchesMonths(x.month);
      StripHasNoEdgeSpace(AsText(x.maker, conv));
      CleanRows(year, ms[..|ms| - 1], conv) + CleanOne(year, x, conv)
  }

  /** The column assignments of lines 72-83, done in one pass over the long frame. */
  method CleanLong(year: int, melted: seq<LongRow>, conv: Conversions) returns (out: seq<Record>)
    requires MonthsMapped(melted)
    ensures out == CleanRows(year, melted, conv)
  {
    out := [];
    for i := 0 to |melted|
      invariant out == CleanRows(year, melted[..i], conv)
    {
      assert melted[..i + 1][..i] == melted[..i];
      match conv.toNumeric(melted[i].value)
      case None =>
      case Some(v) =>
        out := out + [Canonicalize(year, melted[i], v, conv)];
    }
    assert melted[..|melted|] == melted;
  }

  /** rec is the canonical row of long row x: x's count parsed to rec's registrations. */
  predicate Yields(year: int, x: LongRow, rec: Record, conv: Conversions)
    requires x.month in MonthMap
  {
    conv.toNumeric(x.value) == Some(rec.registrations) && rec == Canonicalize(year, x, rec.registrations, conv)
  }

  /** No canonical row is made up: each comes from a long row whose count parsed (never zero-filled). */
  lemma {:induction false} CleanRowsComeFromParsed(year: int, ms: seq<LongRow>, conv: Conversions)
    requires MonthsMapped(ms)
    ensures forall rec | rec in CleanRows(year, ms, conv) ::
      exists k :: 0 <= k < |ms| && Yields(year, ms[k], rec, conv)
  {
    if ms != [] {
      var init := ms[..|ms| - 1];
      CleanRowsComeFromParsed(year, init, conv);
      forall rec | rec in CleanRows(year, ms, conv)
        ensures exists k :: 0 <= k < |ms| && Yields(year, ms[k], rec, conv)
      {
        if rec in CleanRows(year, init, conv) {
          var k :| 0 <= k < |init| && Yields(year, init[k], rec, conv);
          assert ms[k] == init[k];
        } else {
          assert Yields(year, ms[|ms| - 1], rec, conv);
        }
      }
    }
  }

  /** No parsed count is lost: every long row whose count parses yields its canonical row. */
  lemma {:induction false} ParsedRowsAreKept(year: int, ms: seq<LongRow>, conv: Conversions)
    requires MonthsMapped(ms)
    ensures forall k | 0 <= k < |ms| && conv.toNumeric(ms[k].value).Some? ::
      Canonicalize(year, ms[k], conv.toNumeric(ms[k].value).value, conv) in CleanRows(year, ms, conv)
  {
    forall k | 0 <= k < |ms| && conv.toNumeric(ms[k].value).Some?
      ensures Canonicalize(year, ms[k], conv.toNumeric(ms[k].value).value, conv) in CleanRows(year, ms, conv)
    {
      ParsedRowKept(year, ms, conv, k);
    }
  }

  /** The long row at position k, when its cell parses, survives as its canonical row. */
  lemma {:induction false} ParsedRowKept(year: int, ms: seq<LongRow>, conv: Conversions, k: nat)
    requires MonthsMapped(ms) && k < |ms| && conv.toNumeric(ms[k].value).Some?
    ensures Canonicalize(year, ms[k], conv.toNumeric(ms[k].value).value, conv) in CleanRows(year, ms, conv)
  {
    var init := ms[..|ms| - 1];
    var c := Canonicalize(year, ms[k], conv.toNumeric(ms[k].value).value, conv);
    var front, back := CleanRows(year, init, conv), CleanOne(year, ms[|ms| - 1], conv);
    assert CleanRows(year, ms, conv) == front + back;
    if k < |init| {
      assert c in front by {
        assert init[k] == ms[k];
        ParsedRowKept(year, init, conv, k);
      }
      InFront(front, back, c);
    } else {
      assert c in back;
    }
  }

  lemma InFront<T>(front: seq<T>, back: seq<T>, x: T)
    requires x in front
    ensures x in front + back
  {
  }

  /**
   * What `pd.to_numeric` does whatever its number grammar: a missing cell
   * (NaN) stays missing, and a cell that already holds a number keeps it.
   */
  ghost predicate PandasParse(conv: Conversions) {
    conv.toNumeric(Empty) == None && forall v: real :: conv.toNumeric(Num(v)) == Some(v)
  }

  /** Under pandas' parse, a missing count never becomes a row: every row comes from a present cell. */
  lemma MissingCountsDropped(year: int, ms: seq<LongRow>, conv: Conversions)
    requires MonthsMapped(ms) && PandasParse(conv)
    ensures forall rec | rec in CleanRows(year, ms, conv) ::
      exists k :: 0 <= k < |ms| && ms[k].value != Empty && Yields(year, ms[k], rec, conv)
  {
    CleanRowsComeFromParsed(year, ms, conv);
  }

  /** Under pandas' parse, a numeric count always becomes a row carrying that number. */
  lemma NumericCountsKept(year: int, ms: seq<LongRow>, conv: Conversions)
    requires MonthsMapped(ms) && PandasParse(conv)
    ensures forall k | 0 <= k < |ms| && ms[k].value.Num? ::
      Canonicalize(year, ms[k], ms[k].value.n, conv) in CleanRows(year, ms, conv)
  {
    ParsedRowsAreKept(year, ms, conv);
    forall k | 0 <= k < |ms| && ms[k].value.Num?
      ensures Canonicalize(year, ms[k], ms[k].value.n, conv) in CleanRows(year, ms, conv)
    {
      assert conv.toNumeric(ms[k].value) == Some(ms[k].value.n);
    }
  }

  /** How many long rows hold a number in their count cell. */
  function NumCount(ms: seq<LongRow>): nat {
    if ms == [] then 0 else NumCount(ms[..|ms| - 1]) + (if ms[|ms| - 1].value.Num? then 1 else 0)
  }

  /**
   * Under pandas' parse and with no text counts, coercion keeps one row per
   * numeric cell and none for a missing one.
   */
  lemma {:induction false} CleanRowsOfNumbers(year: int, ms: seq<LongRow>, conv: Conversions)
    requires MonthsMapped(ms) && PandasParse(conv)
    requires forall k | 0 <= k < |ms| :: !ms[k].value.Text?
    ensures |CleanRows(year, ms, conv)| == NumCount(ms)
  {
    if ms != [] {
      var init := ms[..|ms| - 1];
      var x := ms[|ms| - 1];
      assert forall k | 0 <= k < |init| :: init[k] == ms[k];
      CleanRowsOfNumbers(year, init, conv);
      match x.value
      case Num(v) => assert conv.toNumeric(x.value) == Some(v);
      case Empty =>
    }
  }

  /** The rows of one year, in order. */
  function RowsOfYear(rs: seq<Record>, y: int): seq<Record> {
    if rs == [] then []
    else RowsOfYear(rs[..|rs| - 1], y) + (if rs[|rs| - 1].year == y then [rs[|rs| - 1]] else [])
  }

  lemma {:induction false} RowsOfYearAppend(a: seq<Record>, b: seq<Record>, y: int)
    ensures RowsOfYear(a + b, y) == RowsOfYear(a, y) + RowsOfYear(b, y)
  {
    if b != [] {
      assert (a + b)[..|a + b| - 1] == a + b[..|b| - 1];
      RowsOfYearAppend(a, b[..|b| - 1], y);
    } else {
      assert a + b == a;
    }
  }

  lemma {:induction false} RowsOfYearKeeps(rs: seq<Record>, r: Record)
    requires r in rs
    ensures r in RowsOfYear(rs, r.year)
  {
    if rs[|rs| - 1] != r {
      assert rs == rs[..|rs| - 1] + [rs[|rs| - 1]];
      RowsOfYearKeeps(rs[..|rs| - 1], r);
    }
  }

  /** Filtering by year keeps everything when all rows are of that year, and nothing when none is. */
  lemma {:induction false} RowsOfYearUniform(rs: seq<Record>, y: int)
    ensures (forall r | r in rs :: r.year == y) ==> RowsOfYear(rs, y) == rs
    ensures (forall r | r in rs :: r.year != y) ==> RowsOfYear(rs, y) == []
  {
    if rs != [] {
      RowsOfYearUniform(rs[..|rs| - 1], y);
      assert rs == rs[..|rs| - 1] + [rs[|rs| - 1]];
    }
  }

  /** Sum of the Registrations column. */
  function Total(rs: seq<Record>): real {
    if rs == [] then 0.0 else Total(rs[..|rs| - 1]) + rs[|rs| - 1].registrations
  }

  lemma {:induction false} TotalAppend(a: seq<Record>, b: seq<Record>)
    ensures Total(a + b) == Total(a) + Total(b)
  {
    if b != [] {
      assert (a + b)[..|a + b| - 1] == a + b[..|b| - 1];
      TotalAppend(a, b[..|b| - 1]);
    } else {
      assert a + b == a;
    }
  }

  /** Sum of the counts of long rows that parse; the others add nothing. */
  function ParsedSum(ms: seq<LongRow>, conv: Conversions): real {
    if ms == [] then 0.0
    else ParsedSum(ms[..|ms| - 1], conv) + ValueOrZero(conv.toNumeric(ms[|ms| - 1].value))
  }

  lemma {:induction false} ParsedSumAppend(a: seq<LongRow>, b: seq<LongRow>, conv: Conversions)
    ensures ParsedSum(a + b, conv) == ParsedSum(a, conv) + ParsedSum(b, conv)
  {
    if b != [] {
      assert (a + b)[..|a + b| - 1] == a + b[..|b| - 1];
      ParsedSumAppend(a, b[..|b| - 1], conv);
    } else {
      assert a + b == a;
    }
  }

  /** Dropping unparseable rows changes no sum: the cleaned total is the sum of the parsed counts. */
  lemma {:induction false} TotalOfCleanRows(year: int, ms: seq<LongRow>, conv: Conversions)
    requires MonthsMapped(ms)
    ensures Total(CleanRows(year, ms, conv)) == ParsedSum(ms, conv)
  {
    if ms != [] {
      var init := ms[..|ms| - 1];
      TotalOfCleanRows(year, init, conv);
      TotalAppend(CleanRows(year, init, conv), CleanOne(year, ms[|ms| - 1], conv));
    }
  }

  /** The parsed value of cell j of a raw row, 0 where it does not parse. */
  function CellValue(row: seq<Cell>, j: nat, conv: Conversions): real {
    ValueOrZero(conv.toNumeric(CellAt(row, j)))
  }

  /** Sum of the parsed cells of column j over all raw rows. */
  function ColumnSum(rows: seq<seq<Cell>>, j: nat, conv: Conversions): real {
    if rows == [] then 0.0 else ColumnSum(rows[..|rows| - 1], j, conv) + CellValue(rows[|rows| - 1], j, conv)
  }

  /** Sum of the parsed month cells of one raw row, over its first c month columns (positions 2 .. c + 1). */
  function RowMonthSum(row: seq<Cell>, c: nat, conv: Conversions): real {
    if c == 0 then 0.0 else RowMonthSum(row, c - 1, conv) + CellValue(row, c + 1, conv)
  }

  /** Row by row, the sum of the parsed month cells of the first c month columns. */
  function RowsMonthSum(rows: seq<seq<Cell>>, c: nat, conv: Conversions): real {
    if rows == [] then 0.0 else RowsMonthSum(rows[..|rows| - 1], c, conv) + RowMonthSum(rows[|rows| - 1], c, conv)
  }

  /** Column by column, the same sum. */
  function ColumnsMonthSum(rows: seq<seq<Cell>>, c: nat, conv: Conversions): real {
    if c == 0 then 0.0 else ColumnsMonthSum(rows, c - 1, conv) + ColumnSum(rows, c + 1, conv)
  }

  /** The sum of a raw year table's numeric month cells, read by position. */
  function NumericCellSum(t: RawTable, conv: Conversions): real {
    RowsMonthSum(t.rows, MonthCount(|t.header|), conv)
  }

  lemma {:induction false} RowsMonthSumStep(rows: seq<seq<Cell>>, c: nat, conv: Conversions)
    requires c > 0
    ensures RowsMonthSum(rows, c, conv) == RowsMonthSum(rows, c - 1, conv) + ColumnSum(rows, c + 1, conv)
  {
    if rows != [] {
      RowsMonthSumStep(rows[..|rows| - 1], c, conv);
    }
  }

  /** Summing the month cells column by column or row by row gives the same total. */
  lemma {:induction false} MonthSumSwap(rows: seq<seq<Cell>>, c: nat, conv: Conversions)
    ensures ColumnsMonthSum(rows, c, conv) == RowsMonthSum(rows, c, conv)
  {
    if c == 0 {
      assert RowsMonthSum(rows, 0, conv) == 0.0 by { RowsMonthSumZero(rows, conv); }
    } else {
      MonthSumSwap(rows, c - 1, conv);
      RowsMonthSumStep(rows, c, conv);
    }
  }

  lemma {:induction false} RowsMonthSumZero(rows: seq<seq<Cell>>, conv: Conversions)
    ensures RowsMonthSum(rows, 0, conv) == 0.0
  {
    if rows != [] {
      RowsMonthSumZero(rows[..|rows| - 1], conv);
    }
  }

  lemma {:induction false} ParsedSumOfMonthBlock(cols: seq<string>, rows: seq<seq<Cell>>, m: string, conv: Conversions)
    requires HasIdColumns(cols) && m in cols
    ensures ParsedSum(MeltMonth(cols, rows, m), conv) == ColumnSum(rows, ColumnIndex(cols, m), conv)
  {
    if rows != [] {
      var init := rows[..|rows| - 1];
      ParsedSumOfMonthBlock(cols, init, m, conv);
      assert MeltMonth(cols, rows, m)[..|rows| - 1] == MeltMonth(cols, init, m);
    }
  }

  /** The first c months are labels of cols, each found at position k + 2 for month k. */
  predicate MonthsAtPositions(cols: seq<string>, c: nat) {
    c <= |Months| && forall k | 0 <= k < c :: Months[k] in cols && ColumnIndex(cols, Months[k]) == k + 2
  }

  lemma MonthsAtPositionsListed(cols: seq<string>, c: nat)
    requires MonthsAtPositions(cols, c)
    ensures forall m | m in Months[..c] :: m in cols
  {
    forall m | m in Months[..c] ensures m in cols {
      var k :| 0 <= k < c && Months[..c][k] == m;
      assert Months[k] == m;
    }
  }

  /** Adding month c to the melted prefix adds the sum of its column, c + 1. */
  lemma ParsedSumOfMonthsStep(cols: seq<string>, rows: seq<seq<Cell>>, c: nat, conv: Conversions)
    requires HasIdColumns(cols) && 0 < c <= |Months|
    requires forall m | m in Months[..c] :: m in cols
    requires forall m | m in Months[..c - 1] :: m in cols
    requires ColumnIndex(cols, Months[c - 1]) == c + 1
    ensures ParsedSum(MeltMonths(Months[..c], cols, rows), conv)
         == ParsedSum(MeltMonths(Months[..c - 1], cols, rows), conv) + ColumnSum(rows, c + 1, conv)
  {
    var front := MeltMonths(Months[..c - 1], cols, rows);
    var block := MeltMonth(cols, rows, Months[c - 1]);
    assert MeltMonths(Months[..c], cols, rows) == front + block by {
      assert Months[..c][..c - 1] == Months[..c - 1];
    }
    ParsedSumAppend(front, block, conv);
    ParsedSumOfMonthBlock(cols, rows, Months[c - 1], conv);
  }

  /** Melting the first c months and summing the parsed counts is summing columns 2 .. c + 1. */
  lemma {:induction false} ParsedSumOfMonths(cols: seq<string>, rows: seq<seq<Cell>>, c: nat, conv: Conversions)
    requires HasIdColumns(cols) && MonthsAtPositions(cols, c)
    ensures forall m | m in Months[..c] :: m in cols
    ensures ParsedSum(MeltMonths(Months[..c], cols, rows), conv) == ColumnsMonthSum(rows, c, conv)
  {
    MonthsAtPositionsListed(cols, c);
    if c > 0 {
      assert MonthsAtPositions(cols, c - 1);
      ParsedSumOfMonths(cols, rows, c - 1, conv);
      assert ColumnIndex(cols, Months[c - 1]) == c + 1;
      ParsedSumOfMonthsStep(cols, rows, c, conv);
    }
  }

  /**
   * Melting and summing the parsed counts gives the sum of the table's
   * numeric month cells: the reshape neither loses nor duplicates a cell.
   */
  lemma MeltPreservesMonthSum(t: RawTable, conv: Conversions)
    requires |t.header| >= 2
    ensures HasIdColumns(Reconciled(t.header))
    ensures ParsedSum(Melt(Reconciled(t.header), t.rows), conv) == NumericCellSum(t, conv)
  {
    var c := MonthCount(|t.header|);
    var cols := Reconciled(t.header);
    IdColumnsIffTwoColumns(t.header);
    forall k | 0 <= k < c ensures Months[k] in cols && ColumnIndex(cols, Months[k]) == k + 2 {
      MonthColumnOfReconciled(t.header, k);
    }
    ParsedSumOfMonths(cols, t.rows, c, conv);
    AvailableMonthsOfReconciled(t.header);
    MonthSumSwap(t.rows, c, conv);
  }
}
