/**
 * Column reconciliation of one raw year table: the positional renaming to the
 * fixed template, the month columns that survive it, and the month-name map.
 */
module Columns {

  /** A cell as the CSV reader delivers it: a number, some text, or a missing value (NaN). */
  datatype Cell = Num(n: real) | Text(s: string) | Empty

  /** Cell j of a row. A row shorter than the header reads as missing at its end, as the reader pads it. */
  function CellAt(row: seq<Cell>, j: nat): Cell {
    if j < |row| then row[j] else Empty
  }

  /** The twelve month abbreviations in calendar order. */
  const Months: seq<string> :=
    ["JAN", "FEB", "MAR", "APR", "MAY", "JUN", "JUL", "AUG", "SEP", "OCT", "NOV", "DEC"]

  /** The fifteen names given to the leading columns, by position. */
  const Template: seq<string> := ["SNo", "Manufacturer"] + Months + ["TOTAL"]

  /** Month abbreviation to month number. */
  const MonthMap: map<string, int> :=
    map["JAN" := 1, "FEB" := 2, "MAR" := 3, "APR" := 4, "MAY" := 5, "JUN" := 6,
        "JUL" := 7, "AUG" := 8, "SEP" := 9, "OCT" := 10, "NOV" := 11, "DEC" := 12]

  /** The month map sends the k-th month (from 0) to k + 1. */
  lemma MonthNumberOf(k: nat)
    requires k < 12
    ensures |Months| == 12 && Months[k] in MonthMap && MonthMap[Months[k]] == k + 1
  {
    if k == 0 {} else if k == 1 {} else if k == 2 {} else if k == 3 {}
    else if k == 4 {} else if k == 5 {} else if k == 6 {} else if k == 7 {}
    else if k == 8 {} else if k == 9 {} else if k == 10 {} else {}
  }

  /** Every month name is a key of the month map, and every key is a month name with its calendar number. */
  lemma MonthMapMatchesMonths(m: string)
    ensures m in Months ==> m in MonthMap
    ensures m in MonthMap ==> 1 <= MonthMap[m] <= 12 && Months[MonthMap[m] - 1] == m
  {
    if m in Months {
      var k :| 0 <= k < |Months| && Months[k] == m;
      MonthNumberOf(k);
    }
    if m in MonthMap {
      var k := MonthMap[m] - 1;
      assert 0 <= k < 12 && Months[k] == m by {
        if m == "JAN" {} else if m == "FEB" {} else if m == "MAR" {} else if m == "APR" {}
        else if m == "MAY" {} else if m == "JUN" {} else if m == "JUL" {} else if m == "AUG" {}
        else if m == "SEP" {} else if m == "OCT" {} else if m == "NOV" {} else if m == "DEC" {}
        else { assert false; }
      }
    }
  }

  /** Month names are pairwise distinct, and none of them names another template column. */
  lemma MonthsDistinct(i: nat, k: nat)
    requires i < 12 && k < 12 && Months[i] == Months[k]
    ensures i == k
  {
    MonthNumberOf(i);
    MonthNumberOf(k);
  }

  lemma NotAMonth(k: nat)
    requires k < 12
    ensures Months[k] != "SNo" && Months[k] != "Manufacturer" && Months[k] != "TOTAL"
  {
    MonthNumberOf(k);
    assert "SNo" !in MonthMap && "Manufacturer" !in MonthMap && "TOTAL" !in MonthMap;
  }

  /** How many leading columns receive a template name. */
  function NamedCount(ncols: nat): nat {
    if ncols < |Template| then ncols else |Template|
  }

  /** How many month columns a table with ncols columns has after renaming. */
  function MonthCount(ncols: nat): nat {
    if ncols <= 2 then 0 else if ncols - 2 < 12 then ncols - 2 else 12
  }

  /**
   * The column labels after renaming: the first min(ncols, 15) positions take
   * the template names in order, any further columns keep their own labels.
   */
  function Reconciled(header: seq<string>): (cols: seq<string>)
    ensures |cols| == |header|
    ensures forall i :: 0 <= i < |cols| && i < |Template| ==> cols[i] == Template[i]
    ensures forall i :: |Template| <= i < |cols| ==> cols[i] == header[i]
  {
    Template[..NamedCount(|header|)] + header[NamedCount(|header|)..]
  }

  /** The list of template names the renaming loop builds, stopping with `break` at the column count. */
  method ActualColumns(ncols: nat) returns (actual: seq<string>)
    ensures actual == Template[..NamedCount(ncols)]
  {
    actual := [];
    for i := 0 to |Template|
      invariant i <= ncols
      invariant actual == Template[..i]
    {
      if i < ncols {
        actual := actual + [Template[i]];
      } else {
        break;
      }
    }
  }

  /** Assign the new labels: the template names built above, then the remaining original labels. */
  method RenameColumns(header: seq<string>) returns (columns: seq<string>)
    ensures columns == Reconciled(header)
  {
    var actual := ActualColumns(|header|);
    columns := actual + header[|actual|..];
  }

  /** The names of ms that are labels of cols, in the order of ms. */
  function MonthsIn(ms: seq<string>, cols: seq<string>): (r: seq<string>)
    ensures forall m | m in r :: m in ms && m in cols
  {
    if ms == [] then []
    else (if ms[0] in cols then [ms[0]] else []) + MonthsIn(ms[1..], cols)
  }

  /** The month columns present, in calendar order: these are the columns unpivoted. */
  function AvailableMonths(cols: seq<string>): (r: seq<string>)
    ensures forall m | m in r :: m in Months && m in cols
  {
    MonthsIn(Months, cols)
  }

  /** Position of the first column carrying a label. */
  function ColumnIndex(cols: seq<string>, name: string): (j: nat)
    requires name in cols
    ensures j < |cols| && cols[j] == name && name !in cols[..j]
  {
    if cols[0] == name then 0
    else
      assert cols == [cols[0]] + cols[1..];
      var j := ColumnIndex(cols[1..], name);
      assert cols[..j + 1] == [cols[0]] + cols[1..][..j];
      j + 1
  }

  lemma {:induction false} MonthsInPrefix(ms: seq<string>, cols: seq<string>, c: nat)
    requires c <= |ms|
    requires forall i :: 0 <= i < c ==> ms[i] in cols
    requires forall i :: c <= i < |ms| ==> ms[i] !in cols
    ensures MonthsIn(ms, cols) == ms[..c]
  {
    if ms != [] {
      if c == 0 {
        MonthsInPrefix(ms[1..], cols, 0);
      } else {
        MonthsInPrefix(ms[1..], cols, c - 1);
        assert ms[..c] == [ms[0]] + ms[1..][..c - 1];
      }
    }
  }

  /** After renaming, month k sits at position k + 2 when the table is wide enough, and nowhere otherwise. */
  lemma MonthInReconciled(header: seq<string>, k: nat)
    requires k < 12
    ensures Months[k] in Reconciled(header) <==> k < MonthCount(|header|)
    ensures k < MonthCount(|header|) ==> Reconciled(header)[k + 2] == Months[k]
  {
    var cols := Reconciled(header);
    var n := |header|;
    if k < MonthCount(n) {
      assert cols[k + 2] == Template[k + 2] == Months[k];
    } else {
      forall p | 0 <= p < |cols| ensures cols[p] != Months[k] {
        assert cols[p] == Template[p];
        NotAMonth(k);
        if p >= 2 {
          assert Template[p] == Months[p - 2];
          MonthNumberOf(p - 2);
          MonthNumberOf(k);
        }
      }
    }
  }

  /**
   * The months unpivoted from a renamed table are the first MonthCount
   * month names, each once, in calendar order; TOTAL is never among them.
   */
  lemma AvailableMonthsOfReconciled(header: seq<string>)
    ensures AvailableMonths(Reconciled(header)) == Months[..MonthCount(|header|)]
    ensures "TOTAL" !in AvailableMonths(Reconciled(header))
  {
    var cols := Reconciled(header);
    var c := MonthCount(|header|);
    forall i | 0 <= i < 12 ensures Months[i] in cols <==> i < c {
      MonthInReconciled(header, i);
    }
    MonthsInPrefix(Months, cols, c);
    forall i | 0 <= i < c ensures Months[..c][i] != "TOTAL" {
      NotAMonth(i);
    }
  }

  /** The label lookup for month k of a renamed table finds column k + 2. */
  lemma MonthColumnOfReconciled(header: seq<string>, k: nat)
    requires k < MonthCount(|header|)
    ensures Months[k] in Reconciled(header) && ColumnIndex(Reconciled(header), Months[k]) == k + 2
  {
    var cols := Reconciled(header);
    MonthInReconciled(header, k);
    var j := ColumnIndex(cols, Months[k]);
    assert j >= k + 2 by {
      if j < k + 2 {
        assert cols[j] == Template[j];
        NotAMonth(k);
        if j >= 2 {
          assert Template[j] == Months[j - 2];
          MonthsDistinct(j - 2, k);
        }
      }
    }
  }

  /** The label melt gives its value column; melt raises ValueError when a column already carries it (pandas 2). */
  const ValueName: string := "Registrations"

  /** A column past the template keeps its own label, and one of those labels is the value column's name. */
  predicate ValueNameAmongExtras(header: seq<string>) {
    ValueName in header[NamedCount(|header|)..]
  }

  /** After renaming, the value column's name is a label exactly when an extra column already carried it. */
  lemma ValueNameAfterRenaming(header: seq<string>)
    ensures ValueName in Reconciled(header) <==> ValueNameAmongExtras(header)
  {
    var n := NamedCount(|header|);
    var cols := Reconciled(header);
    assert cols == Template[..n] + header[n..];
    assert ValueName !in Template[..n] by {
      forall i | 0 <= i < n ensures Template[..n][i] != ValueName {
        assert Template[..n][i] == Template[i];
        if 2 <= i < 14 {
          NotAValueName(i - 2);
        }
      }
    }
  }

  lemma NotAValueName(k: nat)
    requires k < 12
    ensures Months[k] != ValueName
  {
    MonthNumberOf(k);
    assert ValueName !in MonthMap;
  }

  /** Both identifier labels survive the renaming exactly when the table has at least two columns. */
  lemma IdColumnsIffTwoColumns(header: seq<string>)
    ensures ("SNo" in Reconciled(header) && "Manufacturer" in Reconciled(header)) <==> |header| >= 2
  {
    var cols := Reconciled(header);
    if |header| >= 2 {
      assert cols[0] == "SNo" && cols[1] == "Manufacturer";
    } else if |header| == 1 {
      assert cols == ["SNo"];
    } else {
      assert cols == [];
    }
  }

  /** The identifier columns are present whenever the table has at least two columns. */
  lemma IdColumnsOfReconciled(header: seq<string>)
    requires |header| >= 2
    ensures "SNo" in Reconciled(header) && ColumnIndex(Reconciled(header), "SNo") == 0
    ensures "Manufacturer" in Reconciled(header) && ColumnIndex(Reconciled(header), "Manufacturer") == 1
  {
    var cols := Reconciled(header);
    assert cols[0] == "SNo" && cols[1] == "Manufacturer";
    assert cols[..1] == ["SNo"];
  }
}
