/**
 * The aggregations the dashboard computes from the canonical table: yearly and
 * quarterly sums with their percent change, per-manufacturer yearly growth,
 * per-manufacturer totals, the top-N manufacturers and their market shares.
 */
module Aggregates {
  import opened Floats
  import opened Reshape
  import opened Loader

  // ---------------------------------------------------------------- percent change

  /**
   * `Series.pct_change()` as pandas computes it, `x[i] / x[i-1] - 1`, then
   * scaled by 100: NaN at the first entry, IEEE results where the previous
   * entry is zero.
   */
  function PctChange(t: seq<real>): (g: seq<Float>)
    ensures |g| == |t|
  {
    seq(|t|, i requires 0 <= i < |t| =>
      if i == 0 then NaN else Times(Minus(Divide(t[i], t[i - 1]), 1.0), 100.0))
  }

  /** The relative change from prev to cur, in percent. */
  function RelativeChange(prev: real, cur: real): real
    requires prev != 0.0
  {
    (cur - prev) / prev * 100.0
  }

  /**
   * Percent change entry by entry: undefined at the first entry; the
   * relative change (t[i] - t[i-1]) / t[i-1] * 100 when the previous entry is
   * non-zero; after a zero, +inf, -inf or NaN by the sign of the current entry.
   */
  lemma PctChangeAt(t: seq<real>, i: nat)
    requires i < |t|
    ensures i == 0 ==> PctChange(t)[i] == NaN
    ensures i > 0 && t[i - 1] != 0.0 ==> PctChange(t)[i] == Finite(RelativeChange(t[i - 1], t[i]))
    ensures i > 0 && t[i - 1] == 0.0 ==>
      PctChange(t)[i] == (if t[i] > 0.0 then PosInf else if t[i] < 0.0 then NegInf else NaN)
  {
    if i > 0 && t[i - 1] != 0.0 {
      var p, c := t[i - 1], t[i];
      assert c / p - 1.0 == (c - p) / p by {
        assert (c - p) / p == c / p - p / p;
        assert p / p == 1.0;
      }
    }
  }

  // ---------------------------------------------------------------- yearly totals

  datatype YearTotal = YearTotal(year: int, total: real)

  predicate StrictlyIncreasing(years: seq<int>) {
    forall i, j :: 0 <= i < j < |years| ==> years[i] < years[j]
  }

  /**
   * `df.groupby('Year')['Registrations'].sum()`: one entry per requested year
   * that has rows, in the order of years, with the sum of that year's rows.
   */
  function YearlyTotals(rows: seq<Record>, years: seq<int>): (out: seq<YearTotal>)
    ensures forall k | 0 <= k < |out| ::
      out[k].year in years && RowsOfYear(rows, out[k].year) != [] && out[k].total == Total(RowsOfYear(rows, out[k].year))
  {
    if years == [] then []
    else
      var y := years[|years| - 1];
      var own := RowsOfYear(rows, y);
      YearlyTotals(rows, years[..|years| - 1]) + (if own != [] then [YearTotal(y, Total(own))] else [])
  }

  function TotalsOf(ys: seq<YearTotal>): seq<real> {
    seq(|ys|, i requires 0 <= i < |ys| => ys[i].total)
  }

  function SumYearTotals(ys: seq<YearTotal>): real {
    if ys == [] then 0.0 else SumYearTotals(ys[..|ys| - 1]) + ys[|ys| - 1].total
  }

  /** The rows whose year is among ys. */
  function RowsInYears(rows: seq<Record>, ys: seq<int>): seq<Record> {
    if rows == [] then []
    else RowsInYears(rows[..|rows| - 1], ys) + (if rows[|rows| - 1].year in ys then [rows[|rows| - 1]] else [])
  }

  lemma {:induction false} TotalSplitYear(rows: seq<Record>, ys: seq<int>, y: int)
    requires y !in ys
    ensures Total(RowsInYears(rows, ys + [y])) == Total(RowsInYears(rows, ys)) + Total(RowsOfYear(rows, y))
  {
    if rows != [] {
      var init := rows[..|rows| - 1];
      var r := rows[|rows| - 1];
      TotalSplitYear(init, ys, y);
      TotalAppend(RowsInYears(init, ys + [y]), if r.year in ys + [y] then [r] else []);
      TotalAppend(RowsInYears(init, ys), if r.year in ys then [r] else []);
      TotalAppend(RowsOfYear(init, y), if r.year == y then [r] else []);
    }
  }

  lemma {:induction false} RowsInYearsAll(rows: seq<Record>, ys: seq<int>)
    requires forall r | r in rows :: r.year in ys
    ensures RowsInYears(rows, ys) == rows
  {
    if rows != [] {
      var init := rows[..|rows| - 1];
      var last := rows[|rows| - 1];
      assert rows == init + [last];
      assert forall r | r in init :: r in rows;
      RowsInYearsAll(init, ys);
      assert last.year in ys by {
        assert last in rows;
      }
    }
  }

  lemma {:induction false} YearlyTotalsSum(rows: seq<Record>, years: seq<int>)
    requires forall i, j :: 0 <= i < j < |years| ==> years[i] != years[j]
    ensures SumYearTotals(YearlyTotals(rows, years)) == Total(RowsInYears(rows, years))
  {
    if years == [] {
      RowsInYearsNone(rows);
    } else {
      var init := years[..|years| - 1];
      var y := years[|years| - 1];
      YearlyTotalsSum(rows, init);
      assert years == init + [y];
      TotalSplitYear(rows, init, y);
      var own := RowsOfYear(rows, y);
      var tail := if own != [] then [YearTotal(y, Total(own))] else [];
      assert YearlyTotals(rows, years) == YearlyTotals(rows, init) + tail;
      SumYearTotalsAppend(YearlyTotals(rows, init), tail);
    }
  }

  lemma {:induction false} RowsInYearsNone(rows: seq<Record>)
    ensures RowsInYears(rows, []) == []
  {
    if rows != [] {
      RowsInYearsNone(rows[..|rows| - 1]);
    }
  }

  lemma {:induction false} SumYearTotalsAppend(a: seq<YearTotal>, b: seq<YearTotal>)
    ensures SumYearTotals(a + b) == SumYearTotals(a) + SumYearTotals(b)
  {
    if b != [] {
      assert (a + b)[..|a + b| - 1] == a + b[..|b| - 1];
      SumYearTotalsAppend(a, b[..|b| - 1]);
    } else {
      assert a + b == a;
    }
  }

  lemma {:induction false} YearlyTotalsIncreasing(rows: seq<Record>, years: seq<int>)
    requires StrictlyIncreasing(years)
    ensures forall i, j :: 0 <= i < j < |YearlyTotals(rows, years)| ==>
      YearlyTotals(rows, years)[i].year < YearlyTotals(rows, years)[j].year
  {
    if years != [] {
      var init := years[..|years| - 1];
      var y := years[|years| - 1];
      YearlyTotalsIncreasing(rows, init);
      var front := YearlyTotals(rows, init);
      forall k | 0 <= k < |front| ensures front[k].year < y {
        var p :| 0 <= p < |init| && init[p] == front[k].year;
        assert years[p] == init[p];
      }
    }
  }

  lemma {:induction false} YearlyTotalsCoversRows(rows: seq<Record>, years: seq<int>, r: Record)
    requires r in rows && r.year in years
    ensures exists k :: 0 <= k < |YearlyTotals(rows, years)| && YearlyTotals(rows, years)[k].year == r.year
  {
    var init := years[..|years| - 1];
    var y := years[|years| - 1];
    if r.year == y {
      RowsOfYearKeeps(rows, r);
      var out := YearlyTotals(rows, years);
      assert out[|out| - 1].year == y;
    } else {
      assert r.year in init by {
        var p :| 0 <= p < |years| && years[p] == r.year;
        assert p < |init| && init[p] == r.year;
      }
      YearlyTotalsCoversRows(rows, init, r);
      var k :| 0 <= k < |YearlyTotals(rows, init)| && YearlyTotals(rows, init)[k].year == r.year;
      assert YearlyTotals(rows, years)[k] == YearlyTotals(rows, init)[k];
    }
  }

  /**
   * The yearly totals are a group-by: keys strictly increasing, every row's
   * year is a key, each key's total is the sum of its rows, and together they
   * add up to the whole table.
   */
  lemma YearlyTotalsIsGroupBy(rows: seq<Record>, years: seq<int>)
    requires StrictlyIncreasing(years)
    requires forall r | r in rows :: r.year in years
    ensures forall i, j :: 0 <= i < j < |YearlyTotals(rows, years)| ==>
      YearlyTotals(rows, years)[i].year < YearlyTotals(rows, years)[j].year
    ensures forall r | r in rows :: exists k :: 0 <= k < |YearlyTotals(rows, years)| && YearlyTotals(rows, years)[k].year == r.year
    ensures SumYearTotals(YearlyTotals(rows, years)) == Total(rows)
  {
    YearlyTotalsIncreasing(rows, years);
    forall r | r in rows
      ensures exists k :: 0 <= k < |YearlyTotals(rows, years)| && YearlyTotals(rows, years)[k].year == r.year
    {
      YearlyTotalsCoversRows(rows, years, r);
    }
    YearlyTotalsSum(rows, years);
    RowsInYearsAll(rows, years);
  }

  /** Percent change along a series of yearly totals, entry by entry. */
  lemma SeriesGrowthAt(ys: seq<YearTotal>, i: nat)
    requires i < |ys|
    ensures i == 0 ==> PctChange(TotalsOf(ys))[i] == NaN
    ensures i > 0 && ys[i - 1].total != 0.0 ==>
      PctChange(TotalsOf(ys))[i] == Finite(RelativeChange(ys[i - 1].total, ys[i].total))
  {
    var t := TotalsOf(ys);
    assert t[i] == ys[i].total;
    if i > 0 {
      assert t[i - 1] == ys[i - 1].total;
    }
    PctChangeAt(t, i);
  }

  /** `yearly_data['Registrations'].pct_change() * 100`. */
  function YoYGrowth(rows: seq<Record>, years: seq<int>): (g: seq<Float>)
    ensures |g| == |YearlyTotals(rows, years)|
    ensures |g| > 0 ==> g[0] == NaN
  {
    PctChange(TotalsOf(YearlyTotals(rows, years)))
  }

  /**
   * Year-over-year growth at entry i compares the i-th year that has rows with
   * the previous year that has rows, as a relative change in percent.
   */
  lemma YoYGrowthAt(rows: seq<Record>, years: seq<int>, i: nat)
    requires StrictlyIncreasing(years)
    requires 0 < i < |YearlyTotals(rows, years)|
    ensures var ys := YearlyTotals(rows, years);
      && ys[i - 1].year < ys[i].year
      && (ys[i - 1].total != 0.0 ==>
            YoYGrowth(rows, years)[i] == Finite(RelativeChange(ys[i - 1].total, ys[i].total)))
  {
    YearlyTotalsIncreasing(rows, years);
    SeriesGrowthAt(YearlyTotals(rows, years), i);
  }

  /**
   * On the loaded table the yearly series runs over the loaded years in
   * order and its totals add up to `total_registrations`.
   */
  lemma LoadedYearlyPartition(files: map<int, FileState>, conv: Conversions)
    ensures var ys := YearlyTotals(CleanData(Years, files, conv), Years);
      && (forall i, j :: 0 <= i < j < |ys| ==> ys[i].year < ys[j].year)
      && SumYearTotals(ys) == Total(CleanData(Years, files, conv))
  {
    CleanDataRowsWellFormed(Years, files, conv);
    YearlyTotalsIsGroupBy(CleanData(Years, files, conv), Years);
  }

  /**
   * On the loaded table, a year is in the yearly series only when its file was
   * read and melt accepted it, and its total is the sum of the
   * numeric month cells of that file.
   */
  lemma LoadedYearlyTotals(files: map<int, FileState>, conv: Conversions, k: nat)
    requires k < |YearlyTotals(CleanData(Years, files, conv), Years)|
    ensures var e := YearlyTotals(CleanData(Years, files, conv), Years)[k];
      && e.year in files && files[e.year].Readable? && Meltable(files[e.year].table)
      && e.total == NumericCellSum(files[e.year].table, conv)
  {
    var df := CleanData(Years, files, conv);
    var e := YearlyTotals(df, Years)[k];
    assert Distinct(Years);
    YearIsolation(Years, files, conv, e.year);
    YearTotalIsNumericCellSum(Years, files, conv, e.year);
  }

  // ---------------------------------------------------------------- quarterly totals

  /** Calendar quarter of a month number. */
  function QuarterOf(month: int): (q: int)
    ensures 1 <= month <= 12 ==> 1 <= q <= 4 && 3 * (q - 1) < month <= 3 * q
  {
    (month - 1) / 3 + 1
  }

  datatype QuarterTotal = QuarterTotal(year: int, quarter: int, total: real)

  /** The rows of one (Year, Quarter) group; the quarter is read from the row's Date. */
  function RowsOfQuarter(rows: seq<Record>, y: int, q: int): seq<Record> {
    if rows == [] then []
    else
      var r := rows[|rows| - 1];
      RowsOfQuarter(rows[..|rows| - 1], y, q) + (if r.year == y && QuarterOf(r.date.month) == q then [r] else [])
  }

  lemma {:induction false} RowsOfQuarterKeeps(rows: seq<Record>, r: Record)
    requires r in rows
    ensures r in RowsOfQuarter(rows, r.year, QuarterOf(r.date.month))
  {
    if rows[|rows| - 1] != r {
      assert rows == rows[..|rows| - 1] + [rows[|rows| - 1]];
      RowsOfQuarterKeeps(rows[..|rows| - 1], r);
    }
  }

  /** The key (y, q) with the sum of its rows, when that quarter has rows. */
  function QuarterEntry(rows: seq<Record>, y: int, q: int): seq<QuarterTotal> {
    var own := RowsOfQuarter(rows, y, q);
    if own != [] then [QuarterTotal(y, q, Total(own))] else []
  }

  /** The quarters 1..q of year y that have rows, in order. */
  function QuartersOfYear(rows: seq<Record>, y: int, q: nat): (out: seq<QuarterTotal>)
    ensures forall k | 0 <= k < |out| :: out[k].year == y && 1 <= out[k].quarter <= q
  {
    if q == 0 then [] else QuartersOfYear(rows, y, q - 1) + QuarterEntry(rows, y, q)
  }

  /** A year's quarter keys come out in strictly increasing order. */
  lemma {:induction false} QuartersOfYearOrdered(rows: seq<Record>, y: int, q: nat)
    ensures forall i, j :: 0 <= i < j < |QuartersOfYear(rows, y, q)| ==>
      QuartersOfYear(rows, y, q)[i].quarter < QuartersOfYear(rows, y, q)[j].quarter
  {
    if q > 0 {
      QuartersOfYearOrdered(rows, y, q - 1);
      var front := QuartersOfYear(rows, y, q - 1);
      var entry := QuarterEntry(rows, y, q);
      var out: seq<QuarterTotal> := front + entry;
      forall i, j | 0 <= i < j < |out| ensures out[i].quarter < out[j].quarter {
        if j < |front| {
          assert out[i] == front[i] && out[j] == front[j];
        } else {
          assert out[i] == front[i] && out[j] == entry[0];
        }
      }
    }
  }

  /** e's key has rows, and e carries their sum. */
  predicate IsQuarterSum(rows: seq<Record>, e: QuarterTotal) {
    RowsOfQuarter(rows, e.year, e.quarter) != [] && e.total == Total(RowsOfQuarter(rows, e.year, e.quarter))
  }

  lemma {:induction false} QuartersOfYearSums(rows: seq<Record>, y: int, q: nat)
    ensures forall k | 0 <= k < |QuartersOfYear(rows, y, q)| :: IsQuarterSum(rows, QuartersOfYear(rows, y, q)[k])
  {
    if q > 0 {
      QuartersOfYearSums(rows, y, q - 1);
      var front := QuartersOfYear(rows, y, q - 1);
      var out := QuartersOfYear(rows, y, q);
      forall k | 0 <= k < |out| ensures IsQuarterSum(rows, out[k]) {
        if k < |front| {
          assert out[k] == front[k];
        } else {
          assert out[k] == QuarterEntry(rows, y, q)[0];
        }
      }
    }
  }

  lemma QuarterEntryHasKey(rows: seq<Record>, y: int, q: int)
    requires RowsOfQuarter(rows, y, q) != []
    ensures HasQuarter(QuarterEntry(rows, y, q), y, q)
  {
    assert QuarterEntry(rows, y, q)[0].quarter == q;
  }

  /** The quarters up to p are the first entries of the quarters up to q. */
  lemma {:induction false} QuartersOfYearPrefix(rows: seq<Record>, y: int, p: nat, q: nat)
    requires p <= q
    ensures QuartersOfYear(rows, y, p) <= QuartersOfYear(rows, y, q)
  {
    if p < q {
      QuartersOfYearPrefix(rows, y, p, q - 1);
      PrefixOfAppend(QuartersOfYear(rows, y, p), QuartersOfYear(rows, y, q - 1), QuarterEntry(rows, y, q));
    }
  }

  lemma PrefixOfAppend(a: seq<QuarterTotal>, b: seq<QuarterTotal>, c: seq<QuarterTotal>)
    requires a <= b
    ensures a <= b + c
  {
    assert forall i | 0 <= i < |a| :: (b + c)[i] == b[i];
  }

  /** Every quarter 1..q of year y that has rows is a key of QuartersOfYear. */
  lemma QuartersOfYearCovers(rows: seq<Record>, y: int, q: nat, p: int)
    requires 1 <= p <= q && RowsOfQuarter(rows, y, p) != []
    ensures HasQuarter(QuartersOfYear(rows, y, q), y, p)
  {
    var upTo := QuartersOfYear(rows, y, p);
    assert HasQuarter(upTo, y, p) by {
      QuarterEntryHasKey(rows, y, p);
      HasQuarterAppend(QuartersOfYear(rows, y, p - 1), QuarterEntry(rows, y, p), y, p);
    }
    QuartersOfYearPrefix(rows, y, p, q);
    HasQuarterPrefix(upTo, QuartersOfYear(rows, y, q), y, p);
  }

  /** `df.groupby(['Year', 'Quarter'])['Registrations'].sum()`, year by year. */
  function QuarterlyTotals(rows: seq<Record>, years: seq<int>): (out: seq<QuarterTotal>)
    ensures forall k | 0 <= k < |out| :: out[k].year in years && 1 <= out[k].quarter <= 4
  {
    if years == [] then []
    else QuarterlyTotals(rows, years[..|years| - 1]) + QuartersOfYear(rows, years[|years| - 1], 4)
  }

  lemma {:induction false} QuarterlyTotalsSums(rows: seq<Record>, years: seq<int>)
    ensures forall k | 0 <= k < |QuarterlyTotals(rows, years)| :: IsQuarterSum(rows, QuarterlyTotals(rows, years)[k])
  {
    if years != [] {
      var front := QuarterlyTotals(rows, years[..|years| - 1]);
      var back := QuartersOfYear(rows, years[|years| - 1], 4);
      QuarterlyTotalsSums(rows, years[..|years| - 1]);
      QuartersOfYearSums(rows, years[|years| - 1], 4);
      forall k | 0 <= k < |front + back| ensures IsQuarterSum(rows, (front + back)[k]) {
        if k < |front| {
          assert (front + back)[k] == front[k];
        } else {
          assert (front + back)[k] == back[k - |front|];
        }
      }
    }
  }

  /** Some entry of qs has the key (y, q). */
  predicate HasQuarter(qs: seq<QuarterTotal>, y: int, q: int) {
    exists k :: 0 <= k < |qs| && qs[k].year == y && qs[k].quarter == q
  }

  /** A key of either part is a key of the concatenation. */
  lemma HasQuarterAppend(a: seq<QuarterTotal>, b: seq<QuarterTotal>, y: int, q: int)
    requires HasQuarter(a, y, q) || HasQuarter(b, y, q)
    ensures HasQuarter(a + b, y, q)
  {
    if HasQuarter(a, y, q) {
      var k :| 0 <= k < |a| && a[k].year == y && a[k].quarter == q;
      assert (a + b)[k] == a[k];
    } else {
      var k :| 0 <= k < |b| && b[k].year == y && b[k].quarter == q;
      assert (a + b)[|a| + k] == b[k];
    }
  }

  /** A key of a prefix is a key of the whole. */
  lemma HasQuarterPrefix(a: seq<QuarterTotal>, b: seq<QuarterTotal>, y: int, q: int)
    requires a <= b && HasQuarter(a, y, q)
    ensures HasQuarter(b, y, q)
  {
    var k :| 0 <= k < |a| && a[k].year == y && a[k].quarter == q;
    assert b[k] == a[k];
  }

  /** Chronological order of (year, quarter) keys. */
  predicate Earlier(a: QuarterTotal, b: QuarterTotal) {
    a.year < b.year || (a.year == b.year && a.quarter < b.quarter)
  }

  /** Keys strictly in (year, quarter) order. */
  predicate Chronological(qs: seq<QuarterTotal>) {
    forall i, j :: 0 <= i < j < |qs| ==> Earlier(qs[i], qs[j])
  }

  /** Appending one later year's increasing quarters keeps the keys in order. */
  lemma ChronologicalAppend(front: seq<QuarterTotal>, back: seq<QuarterTotal>, y: int)
    requires Chronological(front) && forall k | 0 <= k < |front| :: front[k].year < y
    requires forall k | 0 <= k < |back| :: back[k].year == y
    requires forall i, j :: 0 <= i < j < |back| ==> back[i].quarter < back[j].quarter
    ensures Chronological(front + back)
  {
    var out := front + back;
    forall i, j | 0 <= i < j < |out| ensures Earlier(out[i], out[j]) {
      if j < |front| {
        assert out[i] == front[i] && out[j] == front[j];
      } else if i >= |front| {
        assert out[i] == back[i - |front|] && out[j] == back[j - |front|];
      } else {
        assert out[i] == front[i] && out[j] == back[j - |front|];
      }
    }
  }

  lemma {:induction false} QuarterlyTotalsChronological(rows: seq<Record>, years: seq<int>)
    requires StrictlyIncreasing(years)
    ensures Chronological(QuarterlyTotals(rows, years))
  {
    if years != [] {
      var init := years[..|years| - 1];
      var y := years[|years| - 1];
      var front := QuarterlyTotals(rows, init);
      var back := QuartersOfYear(rows, y, 4);
      assert Chronological(front) by {
        QuarterlyTotalsChronological(rows, init);
      }
      assert forall k | 0 <= k < |front| :: front[k].year < y by {
        forall k | 0 <= k < |front| ensures front[k].year < y {
          var p :| 0 <= p < |init| && init[p] == front[k].year;
          assert years[p] == init[p];
        }
      }
      QuartersOfYearOrdered(rows, y, 4);
      ChronologicalAppend(front, back, y);
    }
  }

  lemma {:induction false} QuarterlyTotalsCoversRows(rows: seq<Record>, years: seq<int>, r: Record)
    requires r in rows && r.year in years && 1 <= QuarterOf(r.date.month) <= 4
    ensures HasQuarter(QuarterlyTotals(rows, years), r.year, QuarterOf(r.date.month))
  {
    var init := years[..|years| - 1];
    var y := years[|years| - 1];
    var front := QuarterlyTotals(rows, init);
    var back := QuartersOfYear(rows, y, 4);
    var q := QuarterOf(r.date.month);
    assert QuarterlyTotals(rows, years) == front + back;
    if r.year == y {
      RowsOfQuarterKeeps(rows, r);
      QuartersOfYearCovers(rows, y, 4, q);
    } else {
      assert r.year in init by {
        var p :| 0 <= p < |years| && years[p] == r.year;
        assert p < |init| && init[p] == r.year;
      }
      QuarterlyTotalsCoversRows(rows, init, r);
    }
    HasQuarterAppend(front, back, r.year, q);
  }

  /**
   * The quarterly totals are a chronological group-by over the canonical rows:
   * keys strictly in (year, quarter) order, every row's quarter is a key, and
   * each key's total is the sum of its rows.
   */
  lemma QuarterlyTotalsIsGroupBy(rows: seq<Record>, years: seq<int>)
    requires StrictlyIncreasing(years)
    requires forall r | r in rows :: r.year in years && WellFormed(r, r.year)
    ensures forall i, j :: 0 <= i < j < |QuarterlyTotals(rows, years)| ==>
      Earlier(QuarterlyTotals(rows, years)[i], QuarterlyTotals(rows, years)[j])
    ensures forall r | r in rows :: HasQuarter(QuarterlyTotals(rows, years), r.year, QuarterOf(r.date.month))
    ensures forall k | 0 <= k < |QuarterlyTotals(rows, years)| :: IsQuarterSum(rows, QuarterlyTotals(rows, years)[k])
  {
    QuarterlyTotalsChronological(rows, years);
    QuarterlyTotalsSums(rows, years);
    forall r | r in rows
      ensures HasQuarter(QuarterlyTotals(rows, years), r.year, QuarterOf(r.date.month))
    {
      QuarterlyTotalsCoversRows(rows, years, r);
    }
  }

  function QuarterTotalsOf(qs: seq<QuarterTotal>): seq<real> {
    seq(|qs|, i requires 0 <= i < |qs| => qs[i].total)
  }

  /** `quarterly_data['Registrations'].pct_change() * 100`, over the whole chronological series. */
  function QoQGrowth(rows: seq<Record>, years: seq<int>): (g: seq<Float>)
    ensures |g| == |QuarterlyTotals(rows, years)|
    ensures |g| > 0 ==> g[0] == NaN
  {
    PctChange(QuarterTotalsOf(QuarterlyTotals(rows, years)))
  }

  /** Percent change along a series of quarterly totals, entry by entry. */
  lemma QuarterSeriesGrowthAt(qs: seq<QuarterTotal>, i: nat)
    requires 0 < i < |qs|
    ensures qs[i - 1].total != 0.0 ==>
      PctChange(QuarterTotalsOf(qs))[i] == Finite(RelativeChange(qs[i - 1].total, qs[i].total))
  {
    var t := QuarterTotalsOf(qs);
    assert t[i] == qs[i].total && t[i - 1] == qs[i - 1].total;
    PctChangeAt(t, i);
  }

  /**
   * Quarter-over-quarter growth at entry i compares with the chronologically
   * previous quarter that has rows, also across a year boundary.
   */
  lemma QoQGrowthAt(rows: seq<Record>, years: seq<int>, i: nat)
    requires StrictlyIncreasing(years)
    requires 0 < i < |QuarterlyTotals(rows, years)|
    ensures var qs := QuarterlyTotals(rows, years);
      && Earlier(qs[i - 1], qs[i])
      && (qs[i - 1].total != 0.0 ==>
            QoQGrowth(rows, years)[i] == Finite(RelativeChange(qs[i - 1].total, qs[i].total)))
  {
    QuarterlyTotalsChronological(rows, years);
    QuarterSeriesGrowthAt(QuarterlyTotals(rows, years), i);
  }

  // ---------------------------------------------------------------- per manufacturer

  /** The rows of one manufacturer, in order. */
  function RowsOfMaker(rows: seq<Record>, m: string): seq<Record> {
    if rows == [] then []
    else
      var r := rows[|rows| - 1];
      RowsOfMaker(rows[..|rows| - 1], m) + (if r.manufacturer == m then [r] else [])
  }

  /**
   * `groupby(['Year', 'Manufacturer']).sum()` followed by a per-manufacturer
   * `pct_change() * 100`: one manufacturer's growth series over the years in
   * which it has rows.
   */
  function MakerGrowth(rows: seq<Record>, years: seq<int>, m: string): (g: seq<Float>)
    ensures |g| == |YearlyTotals(RowsOfMaker(rows, m), years)|
    ensures |g| > 0 ==> g[0] == NaN
  {
    PctChange(TotalsOf(YearlyTotals(RowsOfMaker(rows, m), years)))
  }

  /**
   * A manufacturer's growth at entry i compares its totals in the i-th and the
   * previous year in which it has rows; its first year has no growth.
   */
  lemma MakerGrowthAt(rows: seq<Record>, years: seq<int>, m: string, i: nat)
    requires StrictlyIncreasing(years)
    requires i < |YearlyTotals(RowsOfMaker(rows, m), years)|
    ensures var ys := YearlyTotals(RowsOfMaker(rows, m), years);
      && ys[i].total == Total(RowsOfYear(RowsOfMaker(rows, m), ys[i].year))
      && (i == 0 ==> MakerGrowth(rows, years, m)[i] == NaN)
      && (i > 0 ==> ys[i - 1].year < ys[i].year)
      && (i > 0 && ys[i - 1].total != 0.0 ==>
            MakerGrowth(rows, years, m)[i] == Finite(RelativeChange(ys[i - 1].total, ys[i].total)))
  {
    YearlyTotalsIncreasing(RowsOfMaker(rows, m), years);
    SeriesGrowthAt(YearlyTotals(RowsOfMaker(rows, m), years), i);
  }

  // ---------------------------------------------------------------- manufacturer totals

  /** Python's ordering of str: lexicographic by code point. */
  predicate StrLt(a: string, b: string) {
    if |a| == 0 then |b| > 0
    else if |b| == 0 then false
    else if a[0] != b[0] then a[0] < b[0]
    else StrLt(a[1..], b[1..])
  }

  lemma {:induction false} StrLtIrreflexive(a: string)
    ensures !StrLt(a, a)
  {
    if |a| > 0 { StrLtIrreflexive(a[1..]); }
  }

  lemma {:induction false} StrLtTransitive(a: string, b: string, c: string)
    requires StrLt(a, b) && StrLt(b, c)
    ensures StrLt(a, c)
  {
    if |a| > 0 && a[0] == b[0] && b[0] == c[0] {
      StrLtTransitive(a[1..], b[1..], c[1..]);
    }
  }

  lemma {:induction false} StrLtTotal(a: string, b: string)
    requires a != b
    ensures StrLt(a, b) || StrLt(b, a)
  {
    if |a| > 0 && |b| > 0 && a[0] == b[0] {
      assert a == [a[0]] + a[1..] && b == [b[0]] + b[1..];
      StrLtTotal(a[1..], b[1..]);
    }
  }

  predicate StrictlySorted(ns: seq<string>) {
    forall i, j :: 0 <= i < j < |ns| ==> StrLt(ns[i], ns[j])
  }

  /** Insert a name into a strictly sorted list of names, keeping it strictly sorted. */
  function InsertName(ns: seq<string>, n: string): (r: seq<string>)
    requires StrictlySorted(ns)
    ensures forall x :: x in r <==> x in ns || x == n
    ensures StrictlySorted(r)
  {
    if ns == [] then [n]
    else if n == ns[0] then ns
    else if StrLt(n, ns[0]) then
      assert StrictlySorted([n] + ns) by {
        forall j | 0 <= j < |ns| ensures StrLt(n, ns[j]) {
          if j > 0 { StrLtTransitive(n, ns[0], ns[j]); }
        }
        var r := [n] + ns;
        forall a, b | 0 <= a < b < |r| ensures StrLt(r[a], r[b]) {
          assert r[b] == ns[b - 1];
          if a > 0 { assert r[a] == ns[a - 1]; }
        }
      }
      [n] + ns
    else
      StrLtTotal(n, ns[0]);
      var rest := InsertName(ns[1..], n);
      assert forall x | x in rest :: StrLt(ns[0], x);
      [ns[0]] + rest
  }

  /** The distinct manufacturer names in Python's string order: the keys of `groupby('Manufacturer')`. */
  function Names(rows: seq<Record>): (ns: seq<string>)
    ensures StrictlySorted(ns)
    ensures forall r | r in rows :: r.manufacturer in ns
    ensures forall n | n in ns :: RowsOfMaker(rows, n) != []
  {
    if rows == [] then []
    else
      var init := rows[..|rows| - 1];
      var r := rows[|rows| - 1];
      assert forall x | x in rows :: x in init || x == r;
      InsertName(Names(init), r.manufacturer)
  }

  datatype MakerTotal = MakerTotal(name: string, total: real)

  /** For each name in order, its total over rows. */
  function GroupTotals(ns: seq<string>, rows: seq<Record>): (gs: seq<MakerTotal>)
    ensures |gs| == |ns|
    ensures forall k | 0 <= k < |gs| :: gs[k].name == ns[k] && gs[k].total == Total(RowsOfMaker(rows, ns[k]))
  {
    if ns == [] then [] else [MakerTotal(ns[0], Total(RowsOfMaker(rows, ns[0])))] + GroupTotals(ns[1..], rows)
  }

  /** `df.groupby('Manufacturer')['Registrations'].sum()`. */
  function MakerTotals(rows: seq<Record>): seq<MakerTotal> {
    GroupTotals(Names(rows), rows)
  }

  function SumTotals(gs: seq<MakerTotal>): real {
    if gs == [] then 0.0 else gs[0].total + SumTotals(gs[1..])
  }

  lemma {:induction false} SumTotalsAppend(a: seq<MakerTotal>, b: seq<MakerTotal>)
    ensures SumTotals(a + b) == SumTotals(a) + SumTotals(b)
  {
    if a != [] {
      assert (a + b)[1..] == a[1..] + b;
      SumTotalsAppend(a[1..], b);
    } else {
      assert a + b == b;
    }
  }

  /** Adding a row to the table adds its registrations to its manufacturer's total, if listed. */
  lemma {:induction false} GroupTotalsAddRow(ns: seq<string>, rows: seq<Record>, x: Record)
    requires StrictlySorted(ns)
    ensures SumTotals(GroupTotals(ns, rows + [x]))
         == SumTotals(GroupTotals(ns, rows)) + (if x.manufacturer in ns then x.registrations else 0.0)
  {
    if ns != [] {
      var n := ns[0];
      var rest := ns[1..];
      assert ns == [n] + rest;
      assert StrictlySorted(rest);
      GroupTotalsAddRow(rest, rows, x);
      var rx := rows + [x];
      assert rx[..|rx| - 1] == rows;
      var mine := RowsOfMaker(rows, n);
      var extra := if x.manufacturer == n then [x] else [];
      assert RowsOfMaker(rx, n) == mine + extra;
      TotalAppend(mine, extra);
      if n == x.manufacturer {
        assert x.manufacturer !in rest by {
          if x.manufacturer in rest {
            var j :| 0 <= j < |rest| && rest[j] == x.manufacturer;
            assert StrLt(ns[0], ns[j + 1]);
            StrLtIrreflexive(n);
          }
        }
      }
    }
  }

  /** A name below the head of a strictly sorted list is not in it. */
  lemma NotInAboveHead(ns: seq<string>, a: string)
    requires StrictlySorted(ns) && ns != [] && StrLt(a, ns[0])
    ensures a !in ns
  {
    if a in ns {
      var j :| 0 <= j < |ns| && ns[j] == a;
      StrLtIrreflexive(a);
      if j > 0 {
        StrLtTransitive(a, ns[0], ns[j]);
      }
    }
  }

  /** Inserting a new name adds that manufacturer's total; inserting a listed one changes nothing. */
  lemma {:induction false} GroupTotalsInsert(ns: seq<string>, rows: seq<Record>, a: string)
    requires StrictlySorted(ns)
    ensures SumTotals(GroupTotals(InsertName(ns, a), rows))
         == SumTotals(GroupTotals(ns, rows)) + (if a in ns then 0.0 else Total(RowsOfMaker(rows, a)))
  {
    if ns == [] {
    } else if a == ns[0] {
    } else if StrLt(a, ns[0]) {
      NotInAboveHead(ns, a);
      assert InsertName(ns, a) == [a] + ns;
      assert ([a] + ns)[1..] == ns;
    } else {
      var rest := ns[1..];
      assert ns == [ns[0]] + rest;
      assert StrictlySorted(rest);
      GroupTotalsInsert(rest, rows, a);
      var ins := InsertName(ns, a);
      assert ins == [ns[0]] + InsertName(rest, a);
      assert ins[1..] == InsertName(rest, a);
    }
  }

  lemma {:induction false} RowsOfAbsentMaker(rows: seq<Record>, m: string)
    requires forall r | r in rows :: r.manufacturer != m
    ensures RowsOfMaker(rows, m) == []
  {
    if rows != [] {
      assert rows[|rows| - 1] in rows;
      assert forall r | r in rows[..|rows| - 1] :: r in rows;
      RowsOfAbsentMaker(rows[..|rows| - 1], m);
    }
  }

  /** The per-manufacturer totals partition the table: they add up to the total of all registrations. */
  lemma {:induction false} MakerTotalsPartition(rows: seq<Record>)
    ensures SumTotals(MakerTotals(rows)) == Total(rows)
  {
    if rows != [] {
      var init := rows[..|rows| - 1];
      var x := rows[|rows| - 1];
      assert rows == init + [x];
      var a := x.manufacturer;
      var n := Names(init);
      assert Names(rows) == InsertName(n, a);
      MakerTotalsPartition(init);
      GroupTotalsAddRow(InsertName(n, a), init, x);
      GroupTotalsInsert(n, init, a);
      if a !in n {
        RowsOfAbsentMaker(init, a);
      }
    }
  }

  // ---------------------------------------------------------------- top N

  predicate NonIncreasing(s: seq<MakerTotal>) {
    forall i, j :: 0 <= i < j < |s| ==> s[i].total >= s[j].total
  }

  /** Insert g before the first entry that is not larger, so g goes ahead of its ties. */
  function InsertDesc(g: MakerTotal, s: seq<MakerTotal>): (r: seq<MakerTotal>)
    ensures multiset(r) == multiset(s) + multiset{g}
  {
    if s == [] || s[0].total <= g.total then
      [g] + s
    else
      assert s == [s[0]] + s[1..];
      [s[0]] + InsertDesc(g, s[1..])
  }

  /** An entry no smaller than anything after it can head a non-increasing sequence. */
  lemma ConsNonIncreasing(h: MakerTotal, rest: seq<MakerTotal>)
    requires NonIncreasing(rest) && forall x | x in rest :: x.total <= h.total
    ensures NonIncreasing([h] + rest)
  {
    var r := [h] + rest;
    forall i, j | 0 <= i < j < |r| ensures r[i].total >= r[j].total {
      assert r[j] == rest[j - 1];
      if i > 0 {
        assert r[i] == rest[i - 1];
      } else {
        assert rest[j - 1] in rest;
      }
    }
  }

  lemma {:induction false} InsertDescNonIncreasing(g: MakerTotal, s: seq<MakerTotal>)
    requires NonIncreasing(s)
    ensures NonIncreasing(InsertDesc(g, s))
  {
    if s == [] || s[0].total <= g.total {
      forall x | x in s ensures x.total <= g.total {
        var k :| 0 <= k < |s| && s[k] == x;
        assert s[0].total >= s[k].total;
      }
      ConsNonIncreasing(g, s);
    } else {
      var rest := InsertDesc(g, s[1..]);
      assert NonIncreasing(s[1..]) by {
        forall i, j | 0 <= i < j < |s[1..]| ensures s[1..][i].total >= s[1..][j].total {
          assert s[1..][i] == s[i + 1] && s[1..][j] == s[j + 1];
        }
      }
      InsertDescNonIncreasing(g, s[1..]);
      forall x | x in s[1..] ensures x.total <= s[0].total {
        var k :| 0 <= k < |s[1..]| && s[1..][k] == x;
        assert s[k + 1] == x;
      }
      InsertDescBounded(g, s[1..], s[0].total);
      ConsNonIncreasing(s[0], rest);
    }
  }

  lemma {:induction false} InsertDescBounded(g: MakerTotal, s: seq<MakerTotal>, t: real)
    requires g.total <= t
    requires forall x | x in s :: x.total <= t
    ensures forall x | x in InsertDesc(g, s) :: x.total <= t
  {
    if !(s == [] || s[0].total <= g.total) {
      assert forall x | x in s[1..] :: x in s;
      InsertDescBounded(g, s[1..], t);
      assert InsertDesc(g, s) == [s[0]] + InsertDesc(g, s[1..]);
    }
  }

  /** A stable sort by decreasing total. */
  function SortDesc(gs: seq<MakerTotal>): (r: seq<MakerTotal>)
    ensures multiset(r) == multiset(gs)
    ensures NonIncreasing(r)
  {
    if gs == [] then []
    else
      assert gs == [gs[0]] + gs[1..];
      InsertDescNonIncreasing(gs[0], SortDesc(gs[1..]));
      InsertDesc(gs[0], SortDesc(gs[1..]))
  }

  /** `Series.nlargest(n)` with the default keep='first'. */
  function NLargest(gs: seq<MakerTotal>, n: nat): seq<MakerTotal> {
    var s := SortDesc(gs);
    s[..if n < |s| then n else |s|]
  }

  /** In a non-increasing sequence, nothing after a cut is larger than anything before it. */
  lemma BelowCut(s: seq<MakerTotal>, k: nat)
    requires NonIncreasing(s) && k <= |s|
    ensures forall x, y | x in s[k..] && y in s[..k] :: x.total <= y.total
  {
    forall x, y | x in s[k..] && y in s[..k] ensures x.total <= y.total {
      var i :| 0 <= i < k && s[..k][i] == y;
      var j :| 0 <= j < |s| - k && s[k..][j] == x;
      assert s[i] == y && s[k + j] == x;
    }
  }

  /** A cut at k of a sorted arrangement s of gs: its head, and what it leaves out of gs. */
  lemma CutOfSorted(gs: seq<MakerTotal>, s: seq<MakerTotal>, k: nat)
    requires multiset(s) == multiset(gs) && NonIncreasing(s) && k <= |s|
    ensures |s| == |gs|
    ensures NonIncreasing(s[..k])
    ensures multiset(gs) - multiset(s[..k]) == multiset(s[k..])
    ensures multiset(s[..k]) <= multiset(gs)
    ensures forall x, y | x in multiset(gs) - multiset(s[..k]) && y in s[..k] :: x.total <= y.total
  {
    assert |s| == |gs| by {
      assert |multiset(s)| == |multiset(gs)|;
    }
    var top := s[..k];
    assert s == top + s[k..];
    assert NonIncreasing(top) by {
      forall i, j | 0 <= i < j < |top| ensures top[i].total >= top[j].total {
        assert top[i] == s[i] && top[j] == s[j];
      }
    }
    BelowCut(s, k);
    forall x, y | x in multiset(gs) - multiset(top) && y in top ensures x.total <= y.total {
      assert x in s[k..];
    }
  }

  /** What nlargest leaves out of gs is the tail of the sorted sequence. */
  lemma NLargestLeftOut(gs: seq<MakerTotal>, n: nat)
    ensures var s := SortDesc(gs);
      multiset(gs) - multiset(NLargest(gs, n)) == multiset(s[|NLargest(gs, n)|..])
  {
    var s := SortDesc(gs);
    CutOfSorted(gs, s, if n < |s| then n else |s|);
  }

  /**
   * nlargest returns min(n, |gs|) entries of gs in non-increasing order of
   * total, and no entry left out is larger than an entry returned.
   */
  lemma NLargestSelects(gs: seq<MakerTotal>, n: nat)
    ensures |NLargest(gs, n)| == if n < |gs| then n else |gs|
    ensures NonIncreasing(NLargest(gs, n))
    ensures multiset(NLargest(gs, n)) <= multiset(gs)
    ensures forall x, y | x in multiset(gs) - multiset(NLargest(gs, n)) && y in NLargest(gs, n) :: x.total <= y.total
  {
    var s := SortDesc(gs);
    CutOfSorted(gs, s, if n < |s| then n else |s|);
  }

  lemma {:induction false} SumTotalsInsertDesc(g: MakerTotal, s: seq<MakerTotal>)
    ensures SumTotals(InsertDesc(g, s)) == g.total + SumTotals(s)
  {
    if !(s == [] || s[0].total <= g.total) {
      SumTotalsInsertDesc(g, s[1..]);
    }
  }

  lemma {:induction false} SumTotalsSortDesc(gs: seq<MakerTotal>)
    ensures SumTotals(SortDesc(gs)) == SumTotals(gs)
  {
    if gs != [] {
      SumTotalsSortDesc(gs[1..]);
      SumTotalsInsertDesc(gs[0], SortDesc(gs[1..]));
    }
  }

  lemma {:induction false} SumTotalsNonNegative(s: seq<MakerTotal>)
    requires forall g | g in s :: g.total >= 0.0
    ensures SumTotals(s) >= 0.0
  {
    if s != [] {
      assert forall g | g in s[1..] :: g in s;
      SumTotalsNonNegative(s[1..]);
    }
  }

  lemma {:induction false} TotalNonNegative(rows: seq<Record>)
    requires forall r | r in rows :: r.registrations >= 0.0
    ensures Total(rows) >= 0.0
  {
    if rows != [] {
      assert forall r | r in rows[..|rows| - 1] :: r in rows;
      TotalNonNegative(rows[..|rows| - 1]);
    }
  }

  lemma {:induction false} RowsOfMakerSubset(rows: seq<Record>, m: string)
    ensures forall r | r in RowsOfMaker(rows, m) :: r in rows
  {
    if rows != [] {
      RowsOfMakerSubset(rows[..|rows| - 1], m);
      assert forall r | r in rows[..|rows| - 1] :: r in rows;
    }
  }

  lemma MakerTotalsNonNegative(rows: seq<Record>)
    requires forall r | r in rows :: r.registrations >= 0.0
    ensures forall g | g in MakerTotals(rows) :: g.total >= 0.0
  {
    var gs := MakerTotals(rows);
    forall g | g in gs ensures g.total >= 0.0 {
      var k :| 0 <= k < |gs| && gs[k] == g;
      RowsOfMakerSubset(rows, g.name);
      TotalNonNegative(RowsOfMaker(rows, g.name));
    }
  }

  lemma {:induction false} MemberBelowSum(s: seq<MakerTotal>, g: MakerTotal)
    requires forall x | x in s :: x.total >= 0.0
    requires g in s
    ensures g.total <= SumTotals(s)
  {
    assert forall x | x in s[1..] :: x in s;
    SumTotalsNonNegative(s[1..]);
    if s[0] != g {
      MemberBelowSum(s[1..], g);
    }
  }

  lemma PrefixSumBounded(s: seq<MakerTotal>, k: nat)
    requires forall x | x in s :: x.total >= 0.0
    requires k <= |s|
    ensures 0.0 <= SumTotals(s[..k]) <= SumTotals(s)
  {
    assert s == s[..k] + s[k..];
    assert forall x | x in s[..k] :: x in s;
    assert forall x | x in s[k..] :: x in s;
    SumTotalsAppend(s[..k], s[k..]);
    SumTotalsNonNegative(s[..k]);
    SumTotalsNonNegative(s[k..]);
  }

  lemma SortDescNonNegative(gs: seq<MakerTotal>)
    requires forall x | x in gs :: x.total >= 0.0
    ensures forall x | x in SortDesc(gs) :: x.total >= 0.0
  {
    forall x | x in SortDesc(gs) ensures x.total >= 0.0 {
      assert x in multiset(SortDesc(gs));
    }
  }

  /**
   * With non-negative registrations the top n together hold between nothing
   * and everything, and each of them at most what they hold together.
   */
  lemma TopSumBounded(rows: seq<Record>, n: nat)
    requires forall r | r in rows :: r.registrations >= 0.0
    ensures 0.0 <= SumTotals(NLargest(MakerTotals(rows), n)) <= Total(rows)
    ensures forall g | g in NLargest(MakerTotals(rows), n) :: 0.0 <= g.total <= SumTotals(NLargest(MakerTotals(rows), n))
  {
    var gs := MakerTotals(rows);
    var s := SortDesc(gs);
    var k := if n < |s| then n else |s|;
    var top := s[..k];
    MakerTotalsNonNegative(rows);
    SortDescNonNegative(gs);
    PrefixSumBounded(s, k);
    SumTotalsSortDesc(gs);
    MakerTotalsPartition(rows);
    assert forall g | g in top :: g in s;
    forall g | g in top ensures g.total <= SumTotals(top) {
      MemberBelowSum(top, g);
    }
  }

  // ---------------------------------------------------------------- market share

  /** part as a percentage of whole. */
  function PercentOf(part: real, whole: real): real
    requires whole != 0.0
  {
    part / whole * 100.0
  }

  /** total / grand * 100 in float64. */
  function SharePercent(total: real, grand: real): Float {
    Times(Divide(total, grand), 100.0)
  }

  datatype MakerShare = MakerShare(name: string, total: real, share: Float)

  /** The top n manufacturers by total with their `Market_Share` column. */
  function TopManufacturers(rows: seq<Record>, n: nat): seq<MakerShare> {
    var top := NLargest(MakerTotals(rows), n);
    seq(|top|, i requires 0 <= i < |top| => MakerShare(top[i].name, top[i].total, SharePercent(top[i].total, Total(rows))))
  }

  /** `nlargest(n).sum() / total_registrations * 100`. */
  function TopShare(rows: seq<Record>, n: nat): Float {
    SharePercent(SumTotals(NLargest(MakerTotals(rows), n)), Total(rows))
  }

  /** A part of a positive whole is a finite share between 0 and 100 percent. */
  lemma SharePercentBounded(part: real, whole: real)
    requires 0.0 <= part <= whole && whole > 0.0
    ensures SharePercent(part, whole) == Finite(PercentOf(part, whole))
    ensures 0.0 <= PercentOf(part, whole) <= 100.0
  {
    assert part / whole <= 1.0;
  }

  /**
   * Every listed manufacturer's total is the sum of its rows, and its share is
   * that total over the grand total in percent; when nothing was registered in
   * total, the share is +inf, -inf or NaN by the sign of the manufacturer's total.
   */
  lemma MarketShareAt(rows: seq<Record>, n: nat, i: nat)
    requires i < |TopManufacturers(rows, n)|
    ensures var e := TopManufacturers(rows, n)[i];
      && e.total == Total(RowsOfMaker(rows, e.name))
      && (Total(rows) != 0.0 ==> e.share == Finite(PercentOf(e.total, Total(rows))))
      && (Total(rows) == 0.0 ==>
            e.share == (if e.total > 0.0 then PosInf else if e.total < 0.0 then NegInf else NaN))
  {
    var g := NLargest(MakerTotals(rows), n)[i];
    TopManufacturerEntry(rows, n, i);
    NLargestEntryTotal(rows, n, i);
    SharePercentOf(g.total, Total(rows));
  }

  /** Entry i of the top-n table is entry i of nlargest with its share. */
  lemma TopManufacturerEntry(rows: seq<Record>, n: nat, i: nat)
    requires i < |TopManufacturers(rows, n)|
    ensures var g := NLargest(MakerTotals(rows), n)[i];
      TopManufacturers(rows, n)[i] == MakerShare(g.name, g.total, SharePercent(g.total, Total(rows)))
  {
  }

  /** Every entry nlargest selects from the manufacturer totals carries that manufacturer's row sum. */
  lemma NLargestEntryTotal(rows: seq<Record>, n: nat, i: nat)
    requires i < |NLargest(MakerTotals(rows), n)|
    ensures var g := NLargest(MakerTotals(rows), n)[i];
      g.total == Total(RowsOfMaker(rows, g.name))
  {
    var gs := MakerTotals(rows);
    var top := NLargest(gs, n);
    var g := top[i];
    assert g in gs by {
      assert multiset(top) <= multiset(gs) by {
        NLargestSelects(gs, n);
      }
      InSubMultiset(top, gs, g);
    }
    var k :| 0 <= k < |gs| && gs[k] == g;
  }

  /** A share in float64: the percentage over a non-zero whole, and inf, -inf or NaN over zero. */
  lemma SharePercentOf(part: real, whole: real)
    ensures whole != 0.0 ==> SharePercent(part, whole) == Finite(PercentOf(part, whole))
    ensures whole == 0.0 ==>
      SharePercent(part, whole) == (if part > 0.0 then PosInf else if part < 0.0 then NegInf else NaN)
  {
  }

  /** An element of a sequence whose multiset is contained in another's is an element of that one. */
  lemma InSubMultiset<T>(a: seq<T>, b: seq<T>, x: T)
    requires multiset(a) <= multiset(b) && x in a
    ensures x in b
  {
    assert x in multiset(a);
  }

  /**
   * With non-negative registrations and something registered, every listed
   * manufacturer's share is a finite percentage between 0 and 100.
   */
  lemma MarketShareBounded(rows: seq<Record>, n: nat, i: nat)
    requires forall r | r in rows :: r.registrations >= 0.0
    requires Total(rows) > 0.0
    requires i < |TopManufacturers(rows, n)|
    ensures var e := TopManufacturers(rows, n)[i];
      && e.share == Finite(PercentOf(e.total, Total(rows)))
      && 0.0 <= PercentOf(e.total, Total(rows)) <= 100.0
  {
    var top := NLargest(MakerTotals(rows), n);
    MarketShareAt(rows, n, i);
    TopSumBounded(rows, n);
    assert top[i] in top;
    SharePercentBounded(top[i].total, Total(rows));
  }

  /**
   * With non-negative registrations the share held by the top n is between 0
   * and 100 percent; when nothing was registered it is NaN (0 / 0).
   */
  lemma TopShareBounded(rows: seq<Record>, n: nat)
    requires forall r | r in rows :: r.registrations >= 0.0
    ensures Total(rows) == 0.0 ==> TopShare(rows, n) == NaN
    ensures Total(rows) > 0.0 ==> TopShare(rows, n).Finite? && 0.0 <= TopShare(rows, n).value <= 100.0
  {
    TopSumBounded(rows, n);
    if Total(rows) > 0.0 {
      SharePercentBounded(SumTotals(NLargest(MakerTotals(rows), n)), Total(rows));
    }
  }
}
