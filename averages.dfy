/**
 * Averaging the per-period metric tables (program_10.py, GetAnnualAverages
 * and GetMonthlyAverages). A table has one row per period and one column per
 * metric; None is NaN, and every mean skips it.
 */
module Averages {
  import opened Options
  import opened Series

  predicate Rectangular(table: seq<seq<Option<real>>>, width: nat)
  {
    forall i :: 0 <= i < |table| ==> |table[i]| == width
  }

  /** Column c of the table, one entry per row. */
  function Column(table: seq<seq<Option<real>>>, c: nat): (col: seq<Option<real>>)
    requires forall i :: 0 <= i < |table| ==> c < |table[i]|
    ensures |col| == |table|
  {
    seq(|table|, i requires 0 <= i < |table| => table[i][c])
  }

  /**
   * Column means skipping missing entries (`WYDataDF.mean(axis=0)`): an
   * all-missing column averages to None, any other to a value between the
   * column's smallest and largest present value.
   */
  function GetAnnualAverages(table: seq<seq<Option<real>>>, width: nat): (r: seq<Option<real>>)
    requires Rectangular(table, width)
    ensures |r| == width
    ensures forall c :: 0 <= c < width ==> r[c] == MeanOfValid(Column(table, c))
    ensures forall c :: 0 <= c < width ==> (r[c].None? <==> MissingCount(Column(table, c)) == |table|)
    ensures forall c :: 0 <= c < width && r[c].Some? ==>
              SeqMin(Valid(Column(table, c))) <= r[c].value <= SeqMax(Valid(Column(table, c)))
  {
    seq(width, c requires 0 <= c < width => MeanOfValid(Column(table, c)))
  }

  /** Averaging a one-row table gives back that row. */
  lemma AverageOfOneRow(row: seq<Option<real>>)
    ensures GetAnnualAverages([row], |row|) == row
  {
    var r := GetAnnualAverages([row], |row|);
    forall c | 0 <= c < |row| ensures r[c] == row[c] {
      var col := Column([row], c);
      assert col == [row[c]];
      assert col[1..] == [];
      if row[c].Some? {
        assert Valid(col) == [row[c].value];
        MeanOfConstant(Valid(col), row[c].value);
      }
    }
  }

  /** A non-empty column whose entries are all x averages to x. */
  lemma AverageOfConstantColumn(table: seq<seq<Option<real>>>, width: nat, c: nat, x: real)
    requires Rectangular(table, width) && c < width
    requires forall i :: 0 <= i < |table| ==> table[i][c] == Some(x)
    requires |table| > 0
    ensures GetAnnualAverages(table, width)[c] == Some(x)
  {
    var col := Column(table, c);
    var v := Valid(col);
    assert col[0].Some?;
    forall k | 0 <= k < |v| ensures v[k] == x {
      var i :| 0 <= i < |col| && col[i] == Some(v[k]);
    }
    MeanOfConstant(v, x);
  }

  /** Calendar month of a row's index (`index.month`). */
  type Month = m: int | 1 <= m <= 12 witness 1

  /** One row of a monthly metric table: the month it covers and its metric values. */
  datatype MonthRow = MonthRow(year: int, month: Month, values: seq<Option<real>>)

  /** One row of the monthly averages: a calendar month and its column means. */
  datatype MonthAverage = MonthAverage(month: Month, means: seq<Option<real>>)

  predicate AllWidth(rows: seq<MonthRow>, width: nat)
  {
    forall i :: 0 <= i < |rows| ==> |rows[i].values| == width
  }

  predicate Present(rows: seq<MonthRow>, m: int)
  {
    exists i :: 0 <= i < |rows| && rows[i].month == m
  }

  /** The metric rows of calendar month m, across all years, in their original order. */
  function RowsOfMonth(rows: seq<MonthRow>, m: Month, width: nat): (r: seq<seq<Option<real>>>)
    requires AllWidth(rows, width)
    ensures |r| <= |rows|
    ensures Rectangular(r, width)
    ensures |r| > 0 <==> Present(rows, m)
    ensures forall k :: 0 <= k < |r| ==>
              exists i :: 0 <= i < |rows| && rows[i].month == m && rows[i].values == r[k]
    ensures forall i :: 0 <= i < |rows| && rows[i].month == m ==> rows[i].values in r
  {
    if |rows| == 0 then []
    else
      var rest := RowsOfMonth(rows[1..], m, width);
      assert Present(rows, m) <==> rows[0].month == m || Present(rows[1..], m) by {
        if Present(rows[1..], m) {
          var i :| 0 <= i < |rows[1..]| && rows[1..][i].month == m;
          assert rows[i + 1].month == m;
        }
        if Present(rows, m) && rows[0].month != m {
          var i :| 0 <= i < |rows| && rows[i].month == m;
          assert rows[1..][i - 1].month == m;
        }
      }
      assert forall i :: 1 <= i < |rows| ==> rows[i] == rows[1..][i - 1];
      (if rows[0].month == m then [rows[0].values] else []) + rest
  }

  /** Grouping a concatenation groups each part and concatenates the groups, keeping every row's multiplicity. */
  lemma {:induction false} RowsOfMonthAppend(a: seq<MonthRow>, b: seq<MonthRow>, m: Month, width: nat)
    requires AllWidth(a, width) && AllWidth(b, width)
    ensures AllWidth(a + b, width)
    ensures RowsOfMonth(a + b, m, width) == RowsOfMonth(a, m, width) + RowsOfMonth(b, m, width)
  {
    if |a| > 0 {
      assert (a + b)[1..] == a[1..] + b;
      RowsOfMonthAppend(a[1..], b, m, width);
    } else {
      assert a + b == b;
    }
  }

  /** The calendar months from m to December that occur in the rows, in order (the group keys). */
  function MonthsFrom(rows: seq<MonthRow>, m: int): (r: seq<Month>)
    requires 1 <= m <= 13
    ensures |r| <= 13 - m
    ensures forall k :: 0 <= k < |r| ==> m <= r[k] && Present(rows, r[k])
    ensures forall k, l :: 0 <= k < l < |r| ==> r[k] < r[l]
    decreases 13 - m
  {
    if m == 13 then []
    else (if Present(rows, m) then [m] else []) + MonthsFrom(rows, m + 1)
  }

  /** Every month from m to December that occurs in the rows is a key. */
  lemma {:induction false} MonthsFromCovers(rows: seq<MonthRow>, m: int)
    requires 1 <= m <= 13
    ensures forall x: Month :: m <= x && Present(rows, x) ==> x in MonthsFrom(rows, m)
    decreases 13 - m
  {
    if m < 13 {
      MonthsFromCovers(rows, m + 1);
    }
  }

  /** When every month from m to December occurs, there is one key for each. */
  lemma {:induction false} MonthsFromComplete(rows: seq<MonthRow>, m: int)
    requires 1 <= m <= 13
    requires forall x: Month :: m <= x ==> Present(rows, x)
    ensures |MonthsFrom(rows, m)| == 13 - m
    decreases 13 - m
  {
    if m < 13 {
      MonthsFromComplete(rows, m + 1);
      var mm: Month := m;
      assert Present(rows, mm);
    }
  }

  /** One MonthAverage per listed month, in the order of the list. */
  function AveragesOfMonths(rows: seq<MonthRow>, months: seq<Month>, width: nat): (r: seq<MonthAverage>)
    requires AllWidth(rows, width)
    ensures |r| == |months|
    ensures forall k :: 0 <= k < |r| ==> r[k].month == months[k]
    ensures forall k :: 0 <= k < |r| ==>
              r[k].means == GetAnnualAverages(RowsOfMonth(rows, months[k], width), width)
  {
    seq(|months|, k requires 0 <= k < |months| =>
      MonthAverage(months[k], GetAnnualAverages(RowsOfMonth(rows, months[k], width), width)))
  }

  /**
   * GetMonthlyAverages: group the monthly rows by calendar month and average
   * each group's columns. One row per calendar month that occurs, in month
   * order, so at most twelve; each row holds the column means of its group.
   */
  function GetMonthlyAverages(rows: seq<MonthRow>, width: nat): (r: seq<MonthAverage>)
    requires AllWidth(rows, width)
    ensures |r| <= 12
    ensures forall k, l :: 0 <= k < l < |r| ==> r[k].month < r[l].month
    ensures forall k :: 0 <= k < |r| ==>
              r[k].means == GetAnnualAverages(RowsOfMonth(rows, r[k].month, width), width)
  {
    AveragesOfMonths(rows, MonthsFrom(rows, 1), width)
  }

  /** The group keys are exactly the calendar months that occur in the rows. */
  lemma MonthlyAveragesKeys(rows: seq<MonthRow>, width: nat, x: Month)
    requires AllWidth(rows, width)
    ensures Present(rows, x) <==>
              exists k :: 0 <= k < |GetMonthlyAverages(rows, width)| && GetMonthlyAverages(rows, width)[k].month == x
  {
    var months := MonthsFrom(rows, 1);
    var r := GetMonthlyAverages(rows, width);
    assert r == AveragesOfMonths(rows, months, width);
    if Present(rows, x) {
      MonthsFromCovers(rows, 1);
      var k :| 0 <= k < |months| && months[k] == x;
      assert r[k].month == x;
    }
  }

  /** When every calendar month occurs, there are exactly twelve groups. */
  lemma MonthlyAveragesTwelve(rows: seq<MonthRow>, width: nat)
    requires AllWidth(rows, width)
    requires forall x: Month :: Present(rows, x)
    ensures |GetMonthlyAverages(rows, width)| == 12
  {
    MonthsFromComplete(rows, 1);
  }
}
