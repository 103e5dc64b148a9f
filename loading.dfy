/**
 * Loading and clipping a station's daily-values table (program_10.py,
 * ReadData and ClipData). Parsing the text file is not modelled: the loader
 * starts from the rows the parser produced.
 */
module Loading {
  import opened Options
  import opened Series

  /** A calendar date; the table is indexed by it. */
  datatype Date = Date(year: int, month: int, day: int)

  /** Chronological order on dates. */
  predicate DateLeq(a: Date, b: Date)
  {
    a.year < b.year
    || (a.year == b.year && (a.month < b.month || (a.month == b.month && a.day <= b.day)))
  }

  /** One row: agency code, site number, discharge and quality flag on one date; None is NaN. */
  datatype Observation = Observation(
    date: Date,
    agency: Option<string>,
    site: Option<nat>,
    discharge: Option<real>,
    quality: Option<string>)

  /** A table with the count of its missing discharge values, as both functions return them. */
  datatype Table = Table(rows: seq<Observation>, missing: nat)

  function DischargeColumn(rows: seq<Observation>): seq<Option<real>>
  {
    seq(|rows|, i requires 0 <= i < |rows| => rows[i].discharge)
  }

  predicate Ascending(rows: seq<Observation>)
  {
    forall i, j :: 0 <= i <= j < |rows| ==> DateLeq(rows[i].date, rows[j].date)
  }

  predicate IsNegative(o: Observation)
  {
    o.discharge.Some? && o.discharge.value < 0.0
  }

  /** A row with negative discharge becomes NaN in every column; its date index stays. */
  function BlankRow(o: Observation): Observation
  {
    if IsNegative(o) then Observation(o.date, None, None, None, None) else o
  }

  /** The gross-error check: `DataDF.loc[DataDF['Discharge'] < 0] = np.nan`. */
  function BlankNegative(rows: seq<Observation>): (r: seq<Observation>)
    ensures |r| == |rows|
    ensures forall i :: 0 <= i < |rows| ==> r[i].date == rows[i].date
    ensures forall i :: 0 <= i < |rows| && !IsNegative(rows[i]) ==> r[i] == rows[i]
    ensures forall i :: 0 <= i < |rows| && IsNegative(rows[i]) ==>
              r[i].agency.None? && r[i].site.None? && r[i].discharge.None? && r[i].quality.None?
    ensures NonNegative(DischargeColumn(r))
  {
    seq(|rows|, i requires 0 <= i < |rows| => BlankRow(rows[i]))
  }

  /** Number of rows with negative discharge. */
  function NegativeCount(rows: seq<Observation>): (n: nat)
    ensures n <= |rows|
  {
    if |rows| == 0 then 0 else (if IsNegative(rows[0]) then 1 else 0) + NegativeCount(rows[1..])
  }

  /** Blanking turns exactly the negative rows into additional missing values. */
  lemma {:induction false} BlankNegativeMissing(rows: seq<Observation>)
    ensures MissingCount(DischargeColumn(BlankNegative(rows)))
            == MissingCount(DischargeColumn(rows)) + NegativeCount(rows)
  {
    if |rows| > 0 {
      BlankNegativeMissing(rows[1..]);
      assert DischargeColumn(BlankNegative(rows))[1..] == DischargeColumn(BlankNegative(rows[1..]));
      assert DischargeColumn(rows)[1..] == DischargeColumn(rows[1..]);
    }
  }

  /** Blanking a second time changes nothing. */
  lemma BlankNegativeIdempotent(rows: seq<Observation>)
    ensures BlankNegative(BlankNegative(rows)) == BlankNegative(rows)
  {
    var once := BlankNegative(rows);
    assert forall i :: 0 <= i < |once| ==> !IsNegative(once[i]);
  }

  /**
   * ReadData after parsing: negative discharge becomes missing (the whole
   * row is blanked), then the missing discharge values are counted.
   */
  function ReadData(parsed: seq<Observation>): (t: Table)
    ensures t.rows == BlankNegative(parsed)
    ensures |t.rows| == |parsed|
    ensures NonNegative(DischargeColumn(t.rows))
    ensures t.missing == MissingCount(DischargeColumn(t.rows))
    ensures t.missing == MissingCount(DischargeColumn(parsed)) + NegativeCount(parsed)
    ensures Ascending(parsed) ==> Ascending(t.rows)
  {
    var rows := BlankNegative(parsed);
    BlankNegativeMissing(parsed);
    Table(rows, MissingCount(DischargeColumn(rows)))
  }

  predicate InPeriod(o: Observation, start: Date, end: Date)
  {
    DateLeq(start, o.date) && DateLeq(o.date, end)
  }

  /** The rows dated from start to end inclusive, in their original order. */
  function ClipRows(rows: seq<Observation>, start: Date, end: Date): (r: seq<Observation>)
    ensures |r| <= |rows|
    ensures forall k :: 0 <= k < |r| ==> r[k] in rows && InPeriod(r[k], start, end)
    ensures forall i :: 0 <= i < |rows| && InPeriod(rows[i], start, end) ==> rows[i] in r
    ensures Ascending(rows) ==> Ascending(r)
  {
    if |rows| == 0 then []
    else
      var rest := ClipRows(rows[1..], start, end);
      assert forall i :: 1 <= i < |rows| ==> rows[i] == rows[1..][i - 1];
      var r := (if InPeriod(rows[0], start, end) then [rows[0]] else []) + rest;
      assert Ascending(rows) ==> Ascending(r) by {
        if Ascending(rows) {
          assert Ascending(rows[1..]);
          forall k | 0 <= k < |rest| ensures DateLeq(rows[0].date, rest[k].date) {
            var i :| 0 <= i < |rows[1..]| && rows[1..][i] == rest[k];
            assert rows[i + 1] == rest[k];
          }
        }
      }
      r
  }

  /** Each row dated in the period is kept as many times as it occurs; every other row is dropped. */
  lemma {:induction false} ClipRowsCounts(rows: seq<Observation>, start: Date, end: Date)
    ensures forall o :: multiset(ClipRows(rows, start, end))[o]
                        == (if InPeriod(o, start, end) then multiset(rows)[o] else 0)
  {
    if |rows| > 0 {
      ClipRowsCounts(rows[1..], start, end);
      assert rows == [rows[0]] + rows[1..];
    }
  }

  /** Clipping a concatenation clips each part and concatenates the results. */
  lemma {:induction false} ClipRowsAppend(a: seq<Observation>, b: seq<Observation>, start: Date, end: Date)
    ensures ClipRows(a + b, start, end) == ClipRows(a, start, end) + ClipRows(b, start, end)
  {
    if |a| > 0 {
      assert (a + b)[1..] == a[1..] + b;
      ClipRowsAppend(a[1..], b, start, end);
    } else {
      assert a + b == b;
    }
  }

  /** Clipping keeps every row when every row lies in the period. */
  lemma {:induction false} ClipKeepsAll(rows: seq<Observation>, start: Date, end: Date)
    requires forall i :: 0 <= i < |rows| ==> InPeriod(rows[i], start, end)
    ensures ClipRows(rows, start, end) == rows
  {
    if |rows| > 0 {
      ClipKeepsAll(rows[1..], start, end);
    }
  }

  /** Rows drawn from a table without negative discharge have none either. */
  lemma SubsetNonNegative(rows: seq<Observation>, sub: seq<Observation>)
    requires forall k :: 0 <= k < |sub| ==> sub[k] in rows
    ensures NonNegative(DischargeColumn(rows)) ==> NonNegative(DischargeColumn(sub))
  {
    if NonNegative(DischargeColumn(rows)) {
      forall k | 0 <= k < |sub| && sub[k].discharge.Some?
        ensures sub[k].discharge.value >= 0.0
      {
        var i :| 0 <= i < |rows| && rows[i] == sub[k];
        assert DischargeColumn(rows)[i] == sub[k].discharge;
      }
    }
  }

  /**
   * ClipData: the rows from start to end inclusive (label slicing on a
   * date-ordered index) and the missing count recomputed on them.
   */
  function ClipData(rows: seq<Observation>, start: Date, end: Date): (t: Table)
    requires Ascending(rows)
    ensures |t.rows| <= |rows|
    ensures forall k :: 0 <= k < |t.rows| ==> t.rows[k] in rows && InPeriod(t.rows[k], start, end)
    ensures forall i :: 0 <= i < |rows| && InPeriod(rows[i], start, end) ==> rows[i] in t.rows
    ensures Ascending(t.rows)
    ensures t.rows == ClipRows(rows, start, end)
    ensures t.missing == MissingCount(DischargeColumn(t.rows))
    ensures NonNegative(DischargeColumn(rows)) ==> NonNegative(DischargeColumn(t.rows))
  {
    var clipped := ClipRows(rows, start, end);
    SubsetNonNegative(rows, clipped);
    Table(clipped, MissingCount(DischargeColumn(clipped)))
  }

  /** Clipping a date-ordered table to its own first and last date returns it unchanged. */
  lemma ClipToOwnRange(rows: seq<Observation>)
    requires Ascending(rows) && |rows| > 0
    ensures ClipData(rows, rows[0].date, rows[|rows| - 1].date)
            == Table(rows, MissingCount(DischargeColumn(rows)))
  {
    ClipKeepsAll(rows, rows[0].date, rows[|rows| - 1].date);
  }

  /** For a loaded table, clipping to its own range keeps both the rows and the missing count. */
  lemma ClipLoadedToOwnRange(parsed: seq<Observation>)
    requires Ascending(parsed) && |parsed| > 0
    ensures ClipData(ReadData(parsed).rows, parsed[0].date, parsed[|parsed| - 1].date)
            == ReadData(parsed)
  {
    var t := ReadData(parsed);
    ClipToOwnRange(t.rows);
  }

  /** Clipping twice to the same period is clipping once. */
  lemma ClipIdempotent(rows: seq<Observation>, start: Date, end: Date)
    requires Ascending(rows)
    ensures ClipData(ClipData(rows, start, end).rows, start, end) == ClipData(rows, start, end)
  {
    ClipKeepsAll(ClipData(rows, start, end).rows, start, end);
  }

  /** Discharges -1, 2 and 3: the negative day is counted missing, and the mean skips it (2.5). */
  lemma NegativeDayExample(d: Date)
    ensures var t := ReadData([Observation(d, None, None, Some(-1.0), None),
                               Observation(d, None, None, Some(2.0), None),
                               Observation(d, None, None, Some(3.0), None)]);
            t.missing == 1 && MeanOfValid(DischargeColumn(t.rows)) == Some(2.5)
  {
    var parsed := [Observation(d, None, None, Some(-1.0), None),
                   Observation(d, None, None, Some(2.0), None),
                   Observation(d, None, None, Some(3.0), None)];
    var col := DischargeColumn(ReadData(parsed).rows);
    assert col == [None, Some(2.0), Some(3.0)];
    assert Valid(col) == [2.0, 3.0] by {
      assert col[1..] == [Some(2.0), Some(3.0)];
      assert col[1..][1..] == [Some(3.0)];
      assert col[1..][1..][1..] == [];
    }
    var v := [2.0, 3.0];
    assert v[1..] == [3.0] && v[1..][1..] == [];
    assert Sum(v) == 5.0;
    assert Mean(v) == 2.5;
  }
}
