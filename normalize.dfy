/**
  The normalisers of the raw series (`interpolate_quartely_data`, `resample_daily_to_monthly`,
  `process_exchange_rate_data`, `process_inflation`). Each relabels and converts columns of the
  caller's frame in place, as pandas does with `columns.values[1] = ...` and `inplace=True`, and
  all but the last return a new monthly frame.
*/
module Normalize {
  import opened Common
  import opened Calendar
  import opened Frames
  import opened Series
  import opened Resample

  const BcbColumn := "bcb_expected_inflation"
  const SelicColumn := "selic_target"
  const ExchangeColumn := "exchange_rate"
  const ExchangeVarColumn := "exchange_rate_var"
  const InflationColumn := "inflation_12m"

  /** `df[column] = pd.to_numeric(df[column], errors='coerce')`. */
  function NumericColumn(t: Table, column: string): (r: Table)
    requires WellFormed(t) && HasColumn(t, column)
    ensures WellFormed(r) && r.columns == t.columns && Keys(r) == Keys(t)
    ensures forall i :: 0 <= i < |r.rows| ==> !Column(r, column)[i].Text?
  {
    MapColumnAt(t, IndexOf(t.columns, column).value, ToNumeric)
  }

  /** The first value column relabelled `name` and parsed as comma-decimal numbers. */
  function RelabelAndParse(t: Table, name: string): (r: Table)
    requires WellFormed(t) && |t.columns| >= 1
    ensures WellFormed(r) && r.columns == t.columns[0 := name] && Keys(r) == Keys(t)
    ensures forall i :: 0 <= i < |t.rows| ==> r.rows[i].cells[0] == ParseCommaDecimal(t.rows[i].cells[0])
  {
    MapColumnAt(Renamed(t, 0, name), 0, ParseCommaDecimal)
  }

  /** Keys are preserved, so a dated table with unique keys stays so. */
  lemma SameKeys(t: Table, r: Table)
    requires Keys(r) == Keys(t)
    ensures Dated(t.rows) ==> Dated(r.rows)
    ensures UniqueKeys(t.rows) ==> UniqueKeys(r.rows)
  {
    assert forall i :: 0 <= i < |r.rows| ==> r.rows[i].key == Keys(r)[i] == t.rows[i].key;
  }

  // ---------------------------------------------------------------- quarterly -> monthly

  /**
    Lines 44-47 on the numeric table: month-start bins, `column` interpolated linearly by position,
    first value column relabelled `bcb_expected_inflation`.
  */
  function QuarterlyToMonthly(t: Table, column: string): (r: Table)
    requires WellFormed(t) && Dated(t.rows) && UniqueKeys(t.rows) && HasColumn(t, column)
    ensures WellFormed(r) && r.columns == t.columns[0 := BcbColumn]
    ensures Keys(r) == Keys(AsFreq(t))
    ensures ColumnAt(r, IndexOf(t.columns, column).value) == Interpolate(ColumnAt(AsFreq(t), IndexOf(t.columns, column).value))
  {
    var g := AsFreq(t);
    var j := IndexOf(t.columns, column).value;
    var filled := WithColumnAt(g, j, Interpolate(ColumnAt(g, j)));
    var r := Renamed(filled, 0, BcbColumn);
    assert ColumnAt(r, j) == ColumnAt(filled, j);
    r
  }

  /**
    A quarter's value dated on the first of its month is kept at that month (when it parses as a
    number; text that does not parse becomes missing).
  */
  lemma QuarterlyKeepsKnown(t: Table, column: string, k: nat)
    requires WellFormed(t) && Dated(t.rows) && UniqueKeys(t.rows) && HasColumn(t, column)
    requires k < |t.rows| && t.rows[k].key.date.day == 1
    ensures var j := IndexOf(t.columns, column).value;
      var i := MonthOfKey(t.rows[k].key) - FirstMonth(t.rows);
      0 <= i < |QuarterlyToMonthly(t, column).rows|
      && (t.rows[k].cells[j].Num? ==> QuarterlyToMonthly(t, column).rows[i].cells[j] == t.rows[k].cells[j])
  {
    var j := IndexOf(t.columns, column).value;
    var i := MonthOfKey(t.rows[k].key) - FirstMonth(t.rows);
    AsFreqKeepsMonthStart(t, k);
    var v := ColumnAt(AsFreq(t), j);
    assert v[i] == t.rows[k].cells[j];
    if v[i].Num? {
      InterpolateKeepsKnown(v, i);
      assert ColumnAt(QuarterlyToMonthly(t, column), j)[i] == v[i];
    }
  }

  /**
    A month strictly between two months with values, with none in between, lies on the straight
    line through them, positions counted in months.
  */
  lemma QuarterlyBetween(t: Table, column: string, a: nat, b: nat, i: nat)
    requires WellFormed(t) && Dated(t.rows) && UniqueKeys(t.rows) && HasColumn(t, column)
    requires var v := ColumnAt(AsFreq(t), IndexOf(t.columns, column).value);
      a < i < b < |v| && v[a].Num? && v[b].Num? && forall k :: a < k < b ==> !v[k].Num?
    ensures var j := IndexOf(t.columns, column).value;
      var v := ColumnAt(AsFreq(t), j);
      QuarterlyToMonthly(t, column).rows[i].cells[j] == Num(Linear(a, v[a].x, b, v[b].x, i))
  {
    var j := IndexOf(t.columns, column).value;
    var v := ColumnAt(AsFreq(t), j);
    InterpolateBetween(v, a, b, i);
    assert ColumnAt(QuarterlyToMonthly(t, column), j)[i] == Interpolate(v)[i];
  }

  /**
    `interpolate_quartely_data`: converts `column` of the caller's frame to numbers in place, then
    returns a new frame with one row per month from the first to the last quarter.
  */
  method InterpolateQuarterlyData(df: Frame, column: string) returns (out: Frame)
    requires WellFormed(df.Snapshot()) && Dated(df.rows) && UniqueKeys(df.rows) && column in df.columns
    modifies df
    ensures df.Snapshot() == NumericColumn(old(df.Snapshot()), column)
    ensures fresh(out) && out.Snapshot() == QuarterlyToMonthly(df.Snapshot(), column)
  {
    var t := NumericColumn(df.Snapshot(), column);
    SameKeys(df.Snapshot(), t);
    df.rows := t.rows;
    assert df.Snapshot() == t;
    out := new Frame(AsFreq(df.Snapshot()));
    var j := IndexOf(df.columns, column).value;
    out.rows := WithColumnAt(out.Snapshot(), j, Interpolate(ColumnAt(out.Snapshot(), j))).rows;
    out.columns := out.columns[0 := BcbColumn];
  }

  // ---------------------------------------------------------------- daily -> monthly

  /**
    `resample_daily_to_monthly`: relabels the first value column `selic_target` and parses it in
    place, then returns a new frame holding, per month, the last value present (`resample('ME').last()`).
    The `column` argument is not used.
  */
  method ResampleDailyToMonthly(df: Frame, column: string) returns (out: Frame)
    requires WellFormed(df.Snapshot()) && |df.columns| >= 1
    modifies df
    ensures df.Snapshot() == RelabelAndParse(old(df.Snapshot()), SelicColumn)
    ensures fresh(out) && out.Snapshot() == LastPerMonth(df.Snapshot())
  {
    df.columns := df.columns[0 := SelicColumn];
    var t := MapColumnAt(df.Snapshot(), 0, ParseCommaDecimal);
    df.rows := t.rows;
    out := new Frame(LastPerMonth(df.Snapshot()));
  }

  /**
    With the days of each month in date order, a month's rate is the parsed rate of its latest day
    whose text is a number; it is missing when no day of the month has one.
  */
  lemma DailyMonthEnd(t: Table, i: nat, b: nat)
    requires WellFormed(t) && |t.columns| >= 1 && i < |Months(t.rows)|
    requires forall p, q :: 0 <= p < q < |t.rows| && MonthOfKey(t.rows[p].key) == MonthOfKey(t.rows[q].key) ==>
      DayOfKey(t.rows[p].key) <= DayOfKey(t.rows[q].key)
    requires b < |t.rows| && MonthOfKey(t.rows[b].key) == Months(t.rows)[i]
    requires ParseCommaDecimal(t.rows[b].cells[0]).Num?
    requires forall k :: b < k < |t.rows| && MonthOfKey(t.rows[k].key) == Months(t.rows)[i] ==>
      ParseCommaDecimal(t.rows[k].cells[0]).Missing?
    ensures i < |LastPerMonth(RelabelAndParse(t, SelicColumn)).rows|
      && LastPerMonth(RelabelAndParse(t, SelicColumn)).rows[i].cells[0] == ParseCommaDecimal(t.rows[b].cells[0])
  {
    var p := RelabelAndParse(t, SelicColumn);
    SameMonths(t, p);
    var m := Months(t.rows)[i];
    assert Candidate(p.rows, m, 0, b);
    forall k | b < k < |p.rows|
      ensures !Candidate(p.rows, m, 0, k)
    {
      assert p.rows[k].cells[0] == ParseCommaDecimal(t.rows[k].cells[0]);
    }
    LastPerMonthSorted(p, i, 0, b);
  }

  /** A month none of whose days parses to a number has a missing rate. */
  lemma DailyMonthMissing(t: Table, i: nat)
    requires WellFormed(t) && |t.columns| >= 1 && i < |Months(t.rows)|
    requires forall k :: 0 <= k < |t.rows| && MonthOfKey(t.rows[k].key) == Months(t.rows)[i] ==>
      ParseCommaDecimal(t.rows[k].cells[0]).Missing?
    ensures i < |LastPerMonth(RelabelAndParse(t, SelicColumn)).rows|
      && LastPerMonth(RelabelAndParse(t, SelicColumn)).rows[i].cells[0] == Missing
  {
    var p := RelabelAndParse(t, SelicColumn);
    SameMonths(t, p);
    LastPerMonthSpec(p, i, 0);
  }

  /** Tables with the same keys have the same month bins and the same key months and days. */
  lemma SameMonths(t: Table, r: Table)
    requires Keys(r) == Keys(t)
    ensures Months(r.rows) == Months(t.rows)
    ensures forall k :: 0 <= k < |t.rows| ==> r.rows[k].key == t.rows[k].key
  {
    assert forall k :: 0 <= k < |t.rows| ==> r.rows[k].key == Keys(r)[k] == t.rows[k].key;
    if |t.rows| > 0 {
      assert FirstMonth(r.rows) == FirstMonth(t.rows) by {
        var a :| 0 <= a < |r.rows| && MonthOfKey(r.rows[a].key) == FirstMonth(r.rows);
        var b :| 0 <= b < |t.rows| && MonthOfKey(t.rows[b].key) == FirstMonth(t.rows);
        assert FirstMonth(t.rows) <= MonthOfKey(t.rows[a].key);
        assert FirstMonth(r.rows) <= MonthOfKey(r.rows[b].key);
      }
      assert LastMonth(r.rows) == LastMonth(t.rows) by {
        var a :| 0 <= a < |r.rows| && MonthOfKey(r.rows[a].key) == LastMonth(r.rows);
        var b :| 0 <= b < |t.rows| && MonthOfKey(t.rows[b].key) == LastMonth(t.rows);
        assert MonthOfKey(t.rows[a].key) <= LastMonth(t.rows);
        assert MonthOfKey(r.rows[b].key) <= LastMonth(r.rows);
      }
    }
  }

  // ---------------------------------------------------------------- exchange rate

  /** Lines 83-84 on the parsed, sorted table: monthly means, then their month-on-month change in percent. */
  function ExchangeMonthly(t: Table): (r: Table)
    requires WellFormed(t) && |t.columns| >= 1
    ensures WellFormed(r) && |r.rows| == |Months(t.rows)|
    ensures HasColumn(r, ExchangeVarColumn)
  {
    var m := MeanPerMonth(t);
    WithColumn(m, ExchangeVarColumn, PctChange(ColumnAt(m, 0)))
  }

  /** The monthly frame holds the monthly means under `exchange_rate` and their change under `exchange_rate_var`. */
  lemma ExchangeColumns(t: Table)
    requires WellFormed(t) && |t.columns| >= 1 && t.columns[0] == ExchangeColumn
    ensures var m := ColumnAt(MeanPerMonth(t), 0);
      Column(ExchangeMonthly(t), ExchangeColumn) == m
      && Column(ExchangeMonthly(t), ExchangeVarColumn) == PctChange(m)
  {
    var mt := MeanPerMonth(t);
    MeansKept(mt, PctChange(ColumnAt(mt, 0)));
  }

  /**
    The variation of month i is (m[i] / m[i-1] - 1) * 100 for the monthly means m; it is missing
    for the first month and where a mean is missing or the previous one is 0.
  */
  lemma VariationAt(m: seq<Cell>, i: nat)
    requires i < |m|
    ensures var v := PctChange(m);
      (v[i].Missing? <==> i == 0 || !m[i - 1].Num? || !m[i].Num? || m[i - 1].x == 0.0)
      && (v[i].Num? ==> v[i] == Num((m[i].x / m[i - 1].x - 1.0) * 100.0))
  {
    PctChangeMissing(m, i);
  }

  /** Adding the variation column leaves the `exchange_rate` column as it was. */
  lemma MeansKept(mt: Table, v: seq<Cell>)
    requires WellFormed(mt) && |mt.columns| >= 1 && mt.columns[0] == ExchangeColumn && |v| == |mt.rows|
    ensures var r := WithColumn(mt, ExchangeVarColumn, v);
      HasColumn(r, ExchangeColumn) && Column(r, ExchangeColumn) == ColumnAt(mt, 0)
  {
    assert ExchangeColumn != ExchangeVarColumn by {
      assert |ExchangeColumn| != |ExchangeVarColumn|;
    }
    assert IndexOf(mt.columns, ExchangeColumn) == Some(0);
  }

  /**
    `process_exchange_rate_data`: relabels the first value column `exchange_rate`, parses it and
    sorts the rows by date, all in the caller's frame, then returns a new frame of monthly means
    with their percentage change.
  */
  method ProcessExchangeRateData(df: Frame) returns (out: Frame)
    requires WellFormed(df.Snapshot()) && |df.columns| >= 1
    modifies df
    ensures df.columns == old(df.columns)[0 := ExchangeColumn]
    ensures multiset(df.rows) == multiset(RelabelAndParse(old(df.Snapshot()), ExchangeColumn).rows)
    ensures SortedByKey(df.rows) && WellFormed(df.Snapshot())
    ensures fresh(out) && out.Snapshot() == ExchangeMonthly(df.Snapshot())
  {
    df.columns := df.columns[0 := ExchangeColumn];
    var t := MapColumnAt(df.Snapshot(), 0, ParseCommaDecimal);
    df.rows := t.rows;
    var sorted := SortByKey(df.rows);
    forall i | 0 <= i < |sorted|
      ensures |sorted[i].cells| == |df.columns|
    {
      assert sorted[i] in multiset(df.rows);
      assert sorted[i] in df.rows;
    }
    df.rows := sorted;
    out := new Frame(ExchangeMonthly(df.Snapshot()));
  }

  // ---------------------------------------------------------------- 12-month inflation

  /**
    `process_inflation`: relabels the first value column `inflation_12m` and parses it as
    comma-decimal numbers, in place; the frame returned is the caller's own frame.
  */
  method ProcessInflation(df: Frame) returns (out: Frame)
    requires WellFormed(df.Snapshot()) && |df.columns| >= 1
    modifies df
    ensures out == df
    ensures df.Snapshot() == RelabelAndParse(old(df.Snapshot()), InflationColumn)
  {
    df.columns := df.columns[0 := InflationColumn];
    var t := MapColumnAt(df.Snapshot(), 0, ParseCommaDecimal);
    df.rows := t.rows;
    out := df;
  }
}
