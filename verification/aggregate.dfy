/**
 The aggregation step: a copy of the frame gains a TREND column and a Total
 row whose TREND is the sum of all instrument trends, and the aggregated series
 gains one record holding that sum and the time it was computed.
 */
module Aggregator {
  import opened Optional
  import opened PriceWindow
  import Trend

  /** One record of the aggregated series: `(Timestamp, Aggregated Trend)`. */
  datatype Record = Record(timestamp: string, trend: Option<int>)

  /** The frame written out each cycle: the window, the TREND of each row in
      row order, and the TREND of the Total row (whose other cells are blank
      and whose `1m` cell holds the text `Aggregated Trend`). */
  datatype Snapshot = Snapshot(frame: Frame, trends: seq<Option<int>>, total: Option<int>)

  /** Every cell holds a price: no NaN in the row. */
  predicate Complete(cells: seq<Cell>) {
    forall j :: 0 <= j < |cells| ==> cells[j].Some?
  }

  /** The prices of a complete row, in column order. */
  function Values(cells: seq<Cell>): (v: seq<int>)
    requires Complete(cells)
    ensures |v| == |cells|
    ensures forall j :: 0 <= j < |cells| ==> cells[j] == Some(v[j])
  {
    seq(|cells|, j requires 0 <= j < |cells| => cells[j].value)
  }

  /** TREND of one row, computed over the cells after Component and ISIN.
      `None` marks a row holding a NaN, on which the result is left unspecified. */
  function RowTrend(row: Row): (t: Option<int>)
    requires |row.cells| > 0
    ensures t.Some? <==> Complete(row.cells)
    ensures t.Some? ==> -1 <= t.value <= 1
    ensures t.Some? ==> (t.value == 1 <==> Trend.HigherHigh(Values(row.cells)))
    ensures t.Some? ==> (t.value == -1 <==> !Trend.HigherHigh(Values(row.cells)) && Trend.LowerLow(Values(row.cells)))
    ensures t.Some? ==> (t.value == 0 <==> !Trend.HigherHigh(Values(row.cells)) && !Trend.LowerLow(Values(row.cells)))
  {
    if Complete(row.cells) then
      var v := Values(row.cells);
      Trend.ClassifyMeaning(v);
      Some(Trend.Classify(v))
    else None
  }

  /** Sum of a column of known trends. */
  function Sum(ts: seq<int>): int
    decreases |ts|
  {
    if |ts| == 0 then 0 else Sum(ts[..|ts| - 1]) + ts[|ts| - 1]
  }

  /** Sum of a TREND column, unspecified (`None`) when any entry is. */
  function ColumnSum(col: seq<Option<int>>): (r: Option<int>)
    ensures r.Some? <==> forall i :: 0 <= i < |col| ==> col[i].Some?
    decreases |col|
  {
    if |col| == 0 then Some(0)
    else
      var init := ColumnSum(col[..|col| - 1]);
      if init.Some? && col[|col| - 1].Some? then Some(init.value + col[|col| - 1].value) else None
  }

  /** A column sum is the sum of the known entries. */
  lemma {:induction false} ColumnSumOfKnown(ts: seq<int>)
    ensures ColumnSum(seq(|ts|, i requires 0 <= i < |ts| => Some(ts[i]))) == Some(Sum(ts))
    decreases |ts|
  {
    var col := seq(|ts|, i requires 0 <= i < |ts| => Some(ts[i]));
    if |ts| > 0 {
      var init := ts[..|ts| - 1];
      ColumnSumOfKnown(init);
      assert col[..|col| - 1] == seq(|init|, i requires 0 <= i < |init| => Some(init[i]));
    }
  }

  /** The Total cell is set to 0 before the column is summed, so the Total
      row's own entry adds nothing. */
  lemma ZeroCellAddsNothing(col: seq<Option<int>>)
    ensures ColumnSum(col + [Some(0)]) == ColumnSum(col)
  {
    assert (col + [Some(0)])[..|col|] == col;
  }

  /** A sum of trends in {-1, 0, 1} lies between minus and plus the row count. */
  lemma {:induction false} SumBounded(ts: seq<int>)
    requires forall i :: 0 <= i < |ts| ==> -1 <= ts[i] <= 1
    ensures -|ts| <= Sum(ts) <= |ts|
    decreases |ts|
  {
    if |ts| > 0 {
      SumBounded(ts[..|ts| - 1]);
    }
  }

  /** `aggregated_trend`: classify every row of a copy of the frame, total the
      TREND column with the Total cell at 0, and append one record to the series. */
  function AggregatedTrend(f: Frame, series: seq<Record>, now: string): (r: (Snapshot, seq<Record>))
    requires forall i :: 0 <= i < |f.rows| ==> |f.rows[i].cells| > 0
    ensures r.0.frame == f
    ensures |r.0.trends| == |f.rows|
    ensures forall i :: 0 <= i < |f.rows| ==> r.0.trends[i] == RowTrend(f.rows[i])
    ensures r.0.total == ColumnSum(r.0.trends)
    ensures |r.1| == |series| + 1
    ensures r.1[..|series|] == series
    ensures r.1[|series|] == Record(now, r.0.total)
  {
    var trends := seq(|f.rows|, i requires 0 <= i < |f.rows| => RowTrend(f.rows[i]));
    ZeroCellAddsNothing(trends);
    var total := ColumnSum(trends + [Some(0)]);
    (Snapshot(f, trends, total), series + [Record(now, total)])
  }

  /** When no row holds a NaN, the Total is the exact sum of the instrument
      trends and is bounded by the number of instruments. */
  lemma TotalOfCompleteFrame(f: Frame, series: seq<Record>, now: string)
    requires forall i :: 0 <= i < |f.rows| ==> |f.rows[i].cells| > 0 && Complete(f.rows[i].cells)
    ensures var snap := AggregatedTrend(f, series, now).0;
            var ts := seq(|f.rows|, i requires 0 <= i < |f.rows| => Trend.Classify(Values(f.rows[i].cells)));
            && snap.total == Some(Sum(ts))
            && -|f.rows| <= Sum(ts) <= |f.rows|
  {
    var snap := AggregatedTrend(f, series, now).0;
    var ts := seq(|f.rows|, i requires 0 <= i < |f.rows| => Trend.Classify(Values(f.rows[i].cells)));
    ColumnSumOfKnown(ts);
    assert snap.trends == seq(|ts|, i requires 0 <= i < |ts| => Some(ts[i]));
    SumBounded(ts);
  }
}
