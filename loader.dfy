/**
 * `load_clean_data`: the loop over the four years, each year read and
 * normalised on its own, and the concatenation of the years that succeed.
 */
module Loader {
  import opened Columns
  import opened Reshape
  import opened Strings

  /** The years the loader asks for, in order. */
  const Years: seq<int> := [2021, 2022, 2023, 2024]

  /** What an existing year file gives the reader: a read failure, or a table. */
  datatype FileState = Unreadable(cause: string) | Readable(table: RawTable)

  /** Why a year contributes no rows. */
  datatype Skip =
    | FileNotFound        // the file does not exist
    | ReadError(cause: string)  // the reader raised
    | ValueNameTaken      // melt raised ValueError: an extra column is already labelled Registrations
    | MissingIdColumns    // melt raised KeyError: fewer than two columns

  datatype YearOutcome = Skipped(why: Skip) | Loaded(rows: seq<Record>)

  function OutcomeRows(o: YearOutcome): seq<Record> {
    match o
    case Skipped(_) => []
    case Loaded(rs) => rs
  }

  /** melt accepts the renamed table: both identifier columns exist and no column is already named Registrations. */
  predicate Meltable(t: RawTable) {
    |t.header| >= 2 && !ValueNameAmongExtras(t.header)
  }

  /**
   * Lines 46-83 for a table that was read: rename, melt, clean. melt first
   * refuses a table that already has a Registrations column (ValueError), then
   * one without both identifier columns, that is, below two columns (KeyError);
   * otherwise every row is a well-formed row of this year.
   */
  function ProcessTable(year: int, t: RawTable, conv: Conversions): (r: YearOutcome)
    ensures r.Skipped? <==> !Meltable(t)
    ensures r.Skipped? ==> r.why == if ValueNameAmongExtras(t.header) then ValueNameTaken else MissingIdColumns
    ensures forall rec | rec in OutcomeRows(r) :: WellFormed(rec, year)
  {
    var cols := Reconciled(t.header);
    IdColumnsIffTwoColumns(t.header);
    ValueNameAfterRenaming(t.header);
    if ValueName in cols then Skipped(ValueNameTaken)
    else if !HasIdColumns(cols) then Skipped(MissingIdColumns)
    else
      MeltMonthsMapped(cols, t.rows);
      Loaded(CleanRows(year, Melt(cols, t.rows), conv))
  }

  /**
   * A worked file: five columns (so JAN, FEB and MAR after renaming) and one
   * manufacturer row. It melts into that row's three month cells, in calendar order.
   */
  lemma ThreeMonthFileMelts(t: RawTable)
    requires |t.header| == 5 && |t.rows| == 1
    ensures |MeltOf(t)| == 3
    ensures forall i | 0 <= i < 3 :: MeltOf(t)[i] == LongRow(CellAt(t.rows[0], 0), CellAt(t.rows[0], 1), Months[i], CellAt(t.rows[0], i + 2))
  {
    assert MonthCount(|t.header|) == 3;
    MeltOfReconciled(t, 0, 0);
    forall i | 0 <= i < 3
      ensures MeltOf(t)[i] == LongRow(CellAt(t.rows[0], 0), CellAt(t.rows[0], 1), Months[i], CellAt(t.rows[0], i + 2))
    {
      MeltOfReconciled(t, i, 0);
    }
  }

  /** Coercing three long rows keeps the first and the third when only they parse. */
  lemma CleanThree(year: int, m: seq<LongRow>, conv: Conversions)
    requires |m| == 3 && MonthsMapped(m)
    requires conv.toNumeric(m[0].value).Some? && conv.toNumeric(m[1].value).None? && conv.toNumeric(m[2].value).Some?
    ensures CleanRows(year, m, conv) == CleanOne(year, m[0], conv) + CleanOne(year, m[2], conv)
  {
    assert CleanRows(year, m[..1], conv) == CleanOne(year, m[0], conv) by {
      assert m[..1][..0] == [];
    }
    assert CleanRows(year, m[..2], conv) == CleanOne(year, m[0], conv) by {
      assert m[..2][..1] == m[..1];
    }
    assert m[..3] == m;
  }

  /** A table melt accepts loads as the cleaned rows of its melted form. */
  lemma ProcessTableLoads(year: int, t: RawTable, conv: Conversions)
    requires Meltable(t)
    ensures MonthsMapped(MeltOf(t))
    ensures ProcessTable(year, t, conv) == Loaded(CleanRows(year, MeltOf(t), conv))
  {
    IdColumnsIffTwoColumns(t.header);
    MeltMonthsMapped(Reconciled(t.header), t.rows);
  }

  /**
   * Under pandas' parse, long rows for JAN = jan, a missing FEB and MAR = mar
   * clean into exactly January's and March's canonical rows.
   */
  lemma CleanJanMar(year: int, m: seq<LongRow>, jan: real, mar: real, conv: Conversions)
    requires PandasParse(conv)
    requires |m| == 3 && MonthsMapped(m)
    requires m[0].month == Months[0] && m[2].month == Months[2]
    requires m[0].value == Num(jan) && m[1].value == Empty && m[2].value == Num(mar)
    ensures var rs := CleanRows(year, m, conv);
      && |rs| == 2
      && rs[0].month == "JAN" && rs[0].monthNum == 1 && rs[0].registrations == jan
      && rs[1].month == "MAR" && rs[1].monthNum == 3 && rs[1].registrations == mar
      && rs[0].date == Date(year, 1, 1) && rs[1].date == Date(year, 3, 1)
      && rs[0].manufacturer == Strip(AsText(m[0].maker, conv))
      && rs[1].manufacturer == Strip(AsText(m[2].maker, conv))
  {
    CleanThree(year, m, conv);
    var a, c := CleanOne(year, m[0], conv), CleanOne(year, m[2], conv);
    assert |a| == 1 && |c| == 1;
    MonthNumberOf(0);
    MonthNumberOf(2);
    assert a[0].monthNum == 1 && c[0].monthNum == 3;
  }

  /**
   * The worked file with JAN = jan, FEB missing (read as NaN) and MAR = mar:
   * under pandas' parse it yields exactly two canonical rows, January's and
   * March's, with their counts; the missing February is dropped.
   */
  lemma MissingMonthExample(year: int, t: RawTable, jan: real, mar: real, conv: Conversions)
    requires PandasParse(conv)
    requires |t.header| == 5 && |t.rows| == 1 && |t.rows[0]| == 5
    requires t.rows[0][2] == Num(jan) && t.rows[0][3] == Empty && t.rows[0][4] == Num(mar)
    ensures var rs := OutcomeRows(ProcessTable(year, t, conv));
      && |rs| == 2
      && rs[0].month == "JAN" && rs[0].monthNum == 1 && rs[0].registrations == jan
      && rs[1].month == "MAR" && rs[1].monthNum == 3 && rs[1].registrations == mar
      && rs[0].date == Date(year, 1, 1) && rs[1].date == Date(year, 3, 1)
      && rs[0].manufacturer == Strip(AsText(CellAt(t.rows[0], 1), conv))
      && rs[1].manufacturer == rs[0].manufacturer
  {
    assert Meltable(t) by {
      assert NamedCount(|t.header|) == 5;
      assert t.header[NamedCount(|t.header|)..] == [];
    }
    ProcessTableLoads(year, t, conv);
    var m := MeltOf(t);
    assert |m| == 3 && m[0].month == Months[0] && m[2].month == Months[2]
        && m[0].value == Num(jan) && m[1].value == Empty && m[2].value == Num(mar)
        && m[0].maker == CellAt(t.rows[0], 1) && m[2].maker == CellAt(t.rows[0], 1) by {
      ThreeMonthFileMelts(t);
    }
    CleanJanMar(year, m, jan, mar, conv);
  }

  /** One iteration of the year loop: a missing file, a read failure, or the processed table. */
  function LoadYear(year: int, files: map<int, FileState>, conv: Conversions): (r: YearOutcome)
    ensures r == Skipped(FileNotFound) <==> year !in files
    ensures (r.Skipped? && r.why.ReadError?) <==> year in files && files[year].Unreadable?
    ensures r.Loaded? <==> year in files && files[year].Readable? && Meltable(files[year].table)
  {
    if year !in files then Skipped(FileNotFound)
    else
      match files[year]
      case Unreadable(cause) => Skipped(ReadError(cause))
      case Readable(t) => ProcessTable(year, t, conv)
  }

  /** The list `all_data` after the loop has visited years: the frames of the years that loaded. */
  function LoadedFrames(years: seq<int>, files: map<int, FileState>, conv: Conversions): seq<seq<Record>> {
    if years == [] then []
    else
      var y := years[|years| - 1];
      LoadedFrames(years[..|years| - 1], files, conv)
        + (match LoadYear(y, files, conv) case Loaded(rs) => [rs] case Skipped(_) => [])
  }

  /** `pd.concat(all_data, ignore_index=True)`, or the empty frame when the list is empty. */
  function Flatten(frames: seq<seq<Record>>): (r: seq<Record>)
    ensures forall x :: x in r <==> exists k :: 0 <= k < |frames| && x in frames[k]
  {
    if frames == [] then [] else Flatten(frames[..|frames| - 1]) + frames[|frames| - 1]
  }

  /** The canonical table for the given years. */
  function CleanData(years: seq<int>, files: map<int, FileState>, conv: Conversions): seq<Record> {
    Flatten(LoadedFrames(years, files, conv))
  }

  /** Adding a year to the loop appends exactly that year's rows. */
  lemma CleanDataStep(years: seq<int>, files: map<int, FileState>, conv: Conversions)
    requires years != []
    ensures CleanData(years, files, conv)
         == CleanData(years[..|years| - 1], files, conv) + OutcomeRows(LoadYear(years[|years| - 1], files, conv))
  {
    var init := LoadedFrames(years[..|years| - 1], files, conv);
    match LoadYear(years[|years| - 1], files, conv)
    case Loaded(rs) =>
      assert (init + [rs])[..|init|] == init;
    case Skipped(_) =>
      assert init + [] == init;
  }

  /** `load_clean_data` itself: the year loop appending each successful frame, then the concatenation. */
  method LoadCleanData(files: map<int, FileState>, conv: Conversions) returns (df: seq<Record>)
    ensures df == CleanData(Years, files, conv)
  {
    var allData: seq<seq<Record>> := [];
    for k := 0 to |Years|
      invariant allData == LoadedFrames(Years[..k], files, conv)
    {
      var year := Years[k];
      assert Years[..k + 1][..k] == Years[..k];
      if year in files {
        match files[year]
        case Unreadable(_) =>
        case Readable(t) =>
          var columns := RenameColumns(t.header);
          IdColumnsIffTwoColumns(t.header);
          if ValueName in columns {
            // melt raises ValueError, and the except clause skips the year
          } else if HasIdColumns(columns) {
            var melted := Melt(columns, t.rows);
            MeltMonthsMapped(columns, t.rows);
            var rows := CleanLong(year, melted, conv);
            allData := allData + [rows];
          }
      }
    }
    assert Years[..|Years|] == Years;
    df := Flatten(allData);
  }

  predicate Distinct(years: seq<int>) {
    forall i, j :: 0 <= i < j < |years| ==> years[i] != years[j]
  }

  /** Every row's Year is one of the requested years, set by the loop, and every row is well formed for it. */
  lemma {:induction false} CleanDataRowsWellFormed(years: seq<int>, files: map<int, FileState>, conv: Conversions)
    ensures forall r | r in CleanData(years, files, conv) :: r.year in years && WellFormed(r, r.year)
  {
    if years != [] {
      var init := years[..|years| - 1];
      var y := years[|years| - 1];
      CleanDataRowsWellFormed(init, files, conv);
      CleanDataStep(years, files, conv);
      forall r | r in CleanData(years, files, conv) ensures r.year in years && WellFormed(r, r.year) {
        if r in CleanData(init, files, conv) {
          assert r.year in init;
        } else {
          assert r in OutcomeRows(LoadYear(y, files, conv));
        }
      }
    }
  }

  /** A requested year is either the last one or among the earlier ones, not both. */
  lemma DistinctSplit(years: seq<int>, y: int)
    requires Distinct(years) && y in years
    ensures Distinct(years[..|years| - 1])
    ensures y in years[..|years| - 1] <==> y != years[|years| - 1]
  {
    var init := years[..|years| - 1];
    if y == years[|years| - 1] {
      forall i | 0 <= i < |init| ensures init[i] != y {
        assert init[i] == years[i];
      }
    } else {
      var i :| 0 <= i < |years| && years[i] == y;
      assert i < |init| && init[i] == y;
    }
  }

  /** A year's own frame holds rows of that year only. */
  lemma OwnYearOnly(z: int, files: map<int, FileState>, conv: Conversions, y: int)
    ensures RowsOfYear(OutcomeRows(LoadYear(z, files, conv)), y)
         == if y == z then OutcomeRows(LoadYear(z, files, conv)) else []
  {
    var own := OutcomeRows(LoadYear(z, files, conv));
    assert forall r | r in own :: r.year == z;
    RowsOfYearUniform(own, y);
  }

  /**
   * Per-year isolation: the canonical rows of a requested year are exactly
   * the rows that year's own file produced, and none if it was skipped.
   */
  lemma {:induction false} YearIsolation(years: seq<int>, files: map<int, FileState>, conv: Conversions, y: int)
    requires Distinct(years) && y in years
    ensures RowsOfYear(CleanData(years, files, conv), y) == OutcomeRows(LoadYear(y, files, conv))
  {
    var init := years[..|years| - 1];
    var z := years[|years| - 1];
    var front := CleanData(init, files, conv);
    var own := OutcomeRows(LoadYear(z, files, conv));
    CleanDataStep(years, files, conv);
    RowsOfYearAppend(front, own, y);
    OwnYearOnly(z, files, conv, y);
    if z == y {
      assert RowsOfYear(front, y) == [] by {
        DistinctSplit(years, y);
        CleanDataRowsWellFormed(init, files, conv);
        RowsOfYearUniform(front, y);
      }
    } else {
      DistinctSplit(years, y);
      YearIsolation(init, files, conv, y);
    }
  }

  /** A year's rows do not depend on any other year's file: missing or failing files elsewhere change nothing. */
  lemma YearUnaffectedByOtherFiles(years: seq<int>, files: map<int, FileState>, files': map<int, FileState>,
                                   conv: Conversions, y: int)
    requires Distinct(years) && y in years
    requires y in files <==> y in files'
    requires y in files ==> files[y] == files'[y]
    ensures RowsOfYear(CleanData(years, files, conv), y) == RowsOfYear(CleanData(years, files', conv), y)
  {
    YearIsolation(years, files, conv, y);
    YearIsolation(years, files', conv, y);
  }

  /** The year contributed no row (it was skipped, or its table had no parseable count). */
  predicate ContributesNothing(y: int, files: map<int, FileState>, conv: Conversions) {
    OutcomeRows(LoadYear(y, files, conv)) == []
  }

  /** The canonical table is empty exactly when no requested year produced a row. */
  lemma CleanDataEmptyIff(years: seq<int>, files: map<int, FileState>, conv: Conversions)
    requires Distinct(years)
    ensures CleanData(years, files, conv) == [] <==> forall y | y in years :: ContributesNothing(y, files, conv)
  {
    var rows := CleanData(years, files, conv);
    forall y | y in years ensures RowsOfYear(rows, y) == OutcomeRows(LoadYear(y, files, conv)) {
      YearIsolation(years, files, conv, y);
    }
    if rows != [] {
      CleanDataRowsWellFormed(years, files, conv);
      var r := rows[0];
      RowsOfYearKeeps(rows, r);
      assert !ContributesNothing(r.year, files, conv);
    }
  }

  /**
   * For a requested year, the sum of the canonical Registrations equals the
   * sum of that year's numeric month cells, or 0 when the year was skipped.
   */
  lemma YearTotalIsNumericCellSum(years: seq<int>, files: map<int, FileState>, conv: Conversions, y: int)
    requires Distinct(years) && y in years
    ensures Total(RowsOfYear(CleanData(years, files, conv), y))
         == if y in files && files[y].Readable? && Meltable(files[y].table)
            then NumericCellSum(files[y].table, conv) else 0.0
  {
    YearIsolation(years, files, conv, y);
    if y in files && files[y].Readable? && Meltable(files[y].table) {
      var t := files[y].table;
      var cols := Reconciled(t.header);
      IdColumnsIffTwoColumns(t.header);
      MeltMonthsMapped(cols, t.rows);
      TotalOfCleanRows(y, Melt(cols, t.rows), conv);
      MeltPreservesMonthSum(t, conv);
    }
  }
}
