/**
  `resample_annualy_to_monthly`: the yearly inflation target and its tolerance interval, one row
  per year dated 1 January, spread over month-start rows. The target is carried forward to the
  following months; the interval is not, so the tolerance band exists only on rows that came from
  a yearly row, and the series ends at January of the last year.
*/
module AnnualTarget {
  import opened Common
  import opened Calendar
  import opened Frames
  import opened Series
  import opened Resample

  const TargetColumn := "inflation_target"
  const IntervalColumn := "interval_size"
  const UpperColumn := "upper_limit"
  const LowerColumn := "lower_limit"

  /** The four column names are pairwise different. */
  lemma NamesDistinct()
    ensures TargetColumn != IntervalColumn && TargetColumn != UpperColumn && TargetColumn != LowerColumn
    ensures IntervalColumn != UpperColumn && IntervalColumn != LowerColumn && UpperColumn != LowerColumn
  {
    assert |TargetColumn| == 16 && |IntervalColumn| == 13 && |UpperColumn| == 11 && |LowerColumn| == 11;
    assert UpperColumn[0] != LowerColumn[0];
  }

  /** `df.rename(columns=m)`: every column whose name is a key of `m` takes the mapped name. */
  function RenameColumns(cols: seq<string>, m: map<string, string>): (r: seq<string>)
    ensures |r| == |cols|
    ensures forall i :: 0 <= i < |cols| ==> r[i] == if cols[i] in m then m[cols[i]] else cols[i]
  {
    seq(|cols|, i requires 0 <= i < |cols| => if cols[i] in m then m[cols[i]] else cols[i])
  }

  /**
    Line 121: the first two value columns are renamed `inflation_target` and `interval_size`
    (by name, so any other column of the same name is renamed too; the later key wins, as in a
    dict literal).
  */
  function RenameTargetColumns(cols: seq<string>): (r: seq<string>)
    requires |cols| >= 2
    ensures |r| == |cols|
    ensures cols[0] != cols[1] ==> r[0] == TargetColumn && r[1] == IntervalColumn
  {
    RenameColumns(cols, map[cols[0] := TargetColumn][cols[1] := IntervalColumn])
  }

  /** `pd.to_numeric(errors='coerce')` on a column. */
  function NumericCells(v: seq<Cell>): (r: seq<Cell>)
    ensures |r| == |v| && forall i :: 0 <= i < |v| ==> r[i] == ToNumeric(v[i])
  {
    seq(|v|, i requires 0 <= i < |v| => ToNumeric(v[i]))
  }

  /** Elementwise `a + sign * b`; missing unless both are numbers. */
  function Combine(a: seq<Cell>, b: seq<Cell>, sign: real): (r: seq<Cell>)
    requires |a| == |b|
    ensures |r| == |a|
  {
    seq(|a|, i requires 0 <= i < |a| => if a[i].Num? && b[i].Num? then Num(a[i].x + sign * b[i].x) else Missing)
  }

  /** Lines 124-127: month-start bins, then both columns converted to numbers. */
  function AnnualGrid(t: Table): (r: Table)
    requires WellFormed(t) && Dated(t.rows) && UniqueKeys(t.rows)
    requires HasColumn(t, TargetColumn) && HasColumn(t, IntervalColumn)
    ensures WellFormed(r) && Keys(r) == Keys(AsFreq(t)) && r.columns == t.columns
    ensures HasColumn(r, TargetColumn) && Column(r, TargetColumn) == NumericCells(Column(AsFreq(t), TargetColumn))
    ensures HasColumn(r, IntervalColumn) && Column(r, IntervalColumn) == NumericCells(Column(AsFreq(t), IntervalColumn))
  {
    NamesDistinct();
    var g := AsFreq(t);
    var g1 := WithColumn(g, TargetColumn, NumericCells(Column(g, TargetColumn)));
    WithColumn(g1, IntervalColumn, NumericCells(Column(g1, IntervalColumn)))
  }

  /** Lines 130-132: the target carried forward, then the band as target plus and minus the interval. */
  function WithBand(g: Table): (r: Table)
    requires WellFormed(g) && HasColumn(g, TargetColumn) && HasColumn(g, IntervalColumn)
    ensures WellFormed(r) && Keys(r) == Keys(g)
    ensures HasColumn(r, TargetColumn) && Column(r, TargetColumn) == ForwardFill(Column(g, TargetColumn))
    ensures HasColumn(r, IntervalColumn) && Column(r, IntervalColumn) == Column(g, IntervalColumn)
    ensures HasColumn(r, UpperColumn)
      && Column(r, UpperColumn) == Combine(ForwardFill(Column(g, TargetColumn)), Column(g, IntervalColumn), 1.0)
    ensures HasColumn(r, LowerColumn)
      && Column(r, LowerColumn) == Combine(ForwardFill(Column(g, TargetColumn)), Column(g, IntervalColumn), -1.0)
  {
    NamesDistinct();
    var g3 := WithColumn(g, TargetColumn, ForwardFill(Column(g, TargetColumn)));
    var g4 := WithColumn(g3, UpperColumn, Combine(Column(g3, TargetColumn), Column(g3, IntervalColumn), 1.0));
    WithColumn(g4, LowerColumn, Combine(Column(g4, TargetColumn), Column(g4, IntervalColumn), -1.0))
  }

  /** The monthly target frame built from the renamed yearly frame. */
  function AnnualToMonthly(t: Table): (r: Table)
    requires WellFormed(t) && Dated(t.rows) && UniqueKeys(t.rows)
    requires HasColumn(t, TargetColumn) && HasColumn(t, IntervalColumn)
    ensures WellFormed(r) && Keys(r) == Keys(AsFreq(t))
  {
    WithBand(AnnualGrid(t))
  }

  /**
    `resample_annualy_to_monthly`: renames the caller's first two value columns in place, then
    returns a new frame of month-start rows with the target carried forward and the band added.
  */
  method ResampleAnnualyToMonthly(df: Frame) returns (out: Frame)
    requires WellFormed(df.Snapshot()) && Dated(df.rows) && UniqueKeys(df.rows)
    requires |df.columns| >= 2 && df.columns[0] != df.columns[1]
    modifies df
    ensures df.columns == RenameTargetColumns(old(df.columns)) && df.rows == old(df.rows)
    ensures fresh(out) && out.Snapshot() == AnnualToMonthly(df.Snapshot())
  {
    df.columns := RenameTargetColumns(df.columns);
    NamesDistinct();
    out := new Frame(AsFreq(df.Snapshot()));
    var s := WithColumn(out.Snapshot(), TargetColumn, NumericCells(Column(out.Snapshot(), TargetColumn)));
    out.columns, out.rows := s.columns, s.rows;
    s := WithColumn(out.Snapshot(), IntervalColumn, NumericCells(Column(out.Snapshot(), IntervalColumn)));
    out.columns, out.rows := s.columns, s.rows;
    s := WithColumn(out.Snapshot(), TargetColumn, ForwardFill(Column(out.Snapshot(), TargetColumn)));
    out.columns, out.rows := s.columns, s.rows;
    s := WithColumn(out.Snapshot(), UpperColumn,
      Combine(Column(out.Snapshot(), TargetColumn), Column(out.Snapshot(), IntervalColumn), 1.0));
    out.columns, out.rows := s.columns, s.rows;
    s := WithColumn(out.Snapshot(), LowerColumn,
      Combine(Column(out.Snapshot(), TargetColumn), Column(out.Snapshot(), IntervalColumn), -1.0));
    out.columns, out.rows := s.columns, s.rows;
  }

  /** Every yearly row is dated 1 January (dates parsed with format `%Y`). */
  predicate YearStarts(rows: seq<Row>) {
    forall k :: 0 <= k < |rows| ==> rows[k].key.Stamp? && rows[k].key.date.month == 1 && rows[k].key.date.day == 1
  }

  /** The band is target plus and minus the interval, present exactly where both are numbers. */
  lemma AnnualBand(t: Table, i: nat)
    requires WellFormed(t) && Dated(t.rows) && UniqueKeys(t.rows)
    requires HasColumn(t, TargetColumn) && HasColumn(t, IntervalColumn)
    requires i < |AnnualToMonthly(t).rows|
    ensures var r := AnnualToMonthly(t);
      var target := Column(r, TargetColumn)[i];
      var interval := Column(r, IntervalColumn)[i];
      var upper := Column(r, UpperColumn)[i];
      var lower := Column(r, LowerColumn)[i];
      (upper.Num? <==> target.Num? && interval.Num?) && (lower.Num? <==> target.Num? && interval.Num?)
      && (upper.Num? ==> upper.x == target.x + interval.x && lower.x == target.x - interval.x)
      && (!upper.Num? ==> upper == Missing && lower == Missing)
  {
  }

  /** A month-start row that is not a 1 January has no yearly row behind it: all its cells are missing. */
  lemma NonJanuaryGap(t: Table, p: nat)
    requires WellFormed(t) && Dated(t.rows) && UniqueKeys(t.rows) && YearStarts(t.rows)
    requires p < |AsFreq(t).rows| && AsFreq(t).rows[p].key.date.month != 1
    ensures forall j :: 0 <= j < |t.columns| ==> AsFreq(t).rows[p].cells[j] == Missing
  {
    AsFreqGap(t, p);
  }

  /**
    With every yearly row dated 1 January, months other than January carry no interval and hence
    no band: `interval_size` is not carried forward.
  */
  lemma AnnualBandOnlyJanuary(t: Table, i: nat)
    requires WellFormed(t) && Dated(t.rows) && UniqueKeys(t.rows) && YearStarts(t.rows)
    requires HasColumn(t, TargetColumn) && HasColumn(t, IntervalColumn)
    requires i < |AnnualToMonthly(t).rows| && AnnualToMonthly(t).rows[i].key.date.month != 1
    ensures var r := AnnualToMonthly(t);
      Column(r, IntervalColumn)[i] == Missing && Column(r, UpperColumn)[i] == Missing
      && Column(r, LowerColumn)[i] == Missing
  {
    var g := AsFreq(t);
    var r := AnnualToMonthly(t);
    assert r.rows[i].key == Keys(r)[i] == Keys(g)[i] == g.rows[i].key;
    NonJanuaryGap(t, i);
    assert Column(g, IntervalColumn)[i] == Missing;
  }

  /** The earliest and the latest year of the yearly rows. */
  function FirstYear(rows: seq<Row>): int
    requires |rows| > 0
  {
    YearOf(FirstMonth(rows))
  }

  function LastYear(rows: seq<Row>): int
    requires |rows| > 0
  {
    YearOf(LastMonth(rows))
  }

  /** The period of 1 January of year `y` is 12 * y. */
  lemma JanuaryIndex(d: Date)
    requires d.month == 1
    ensures MonthIndex(d) == 12 * d.year && YearOf(MonthIndex(d)) == d.year
  {
  }

  /**
    With every yearly row dated 1 January, the monthly frame has 12 rows per year from the
    earliest to the latest year plus one: it starts at 1 January of the earliest year and its
    last row is 1 January of the latest year.
  */
  lemma AnnualSpan(t: Table)
    requires WellFormed(t) && Dated(t.rows) && UniqueKeys(t.rows) && YearStarts(t.rows) && |t.rows| > 0
    requires HasColumn(t, TargetColumn) && HasColumn(t, IntervalColumn)
    ensures FirstYear(t.rows) <= LastYear(t.rows)
    ensures |AnnualToMonthly(t).rows| == 12 * (LastYear(t.rows) - FirstYear(t.rows)) + 1
    ensures AnnualToMonthly(t).rows[0].key == Stamp(NewYear(FirstYear(t.rows)))
    ensures AnnualToMonthly(t).rows[12 * (LastYear(t.rows) - FirstYear(t.rows))].key == Stamp(NewYear(LastYear(t.rows)))
  {
    GridSpan(t, AnnualToMonthly(t));
  }

  /** The span of the month-start bins of yearly rows, read on any table with the same keys. */
  lemma GridSpan(t: Table, r: Table)
    requires WellFormed(t) && Dated(t.rows) && UniqueKeys(t.rows) && YearStarts(t.rows) && |t.rows| > 0
    requires Keys(r) == Keys(AsFreq(t))
    ensures FirstYear(t.rows) <= LastYear(t.rows)
    ensures |r.rows| == 12 * (LastYear(t.rows) - FirstYear(t.rows)) + 1
    ensures r.rows[0].key == Stamp(NewYear(FirstYear(t.rows)))
    ensures r.rows[12 * (LastYear(t.rows) - FirstYear(t.rows))].key == Stamp(NewYear(LastYear(t.rows)))
  {
    var g := AsFreq(t);
    AsFreqEnds(t);
    YearEnds(t.rows);
    var ya, yb := FirstYear(t.rows), LastYear(t.rows);
    assert FirstMonth(t.rows) == 12 * ya && LastMonth(t.rows) == 12 * yb;
    assert |r.rows| == |g.rows| == 12 * (yb - ya) + 1;
    JanuaryStart(ya);
    JanuaryStart(yb);
    var last := 12 * (yb - ya);
    assert last == |g.rows| - 1;
    assert r.rows[0].key == Keys(r)[0] == Keys(g)[0] == g.rows[0].key == Stamp(MonthStart(12 * ya));
    assert r.rows[last].key == Keys(r)[last] == Keys(g)[last] == g.rows[last].key == Stamp(MonthStart(12 * yb));
  }

  /** The first and last month of yearly rows are the Januaries of the earliest and latest year. */
  lemma YearEnds(rows: seq<Row>)
    requires YearStarts(rows) && |rows| > 0
    ensures FirstMonth(rows) == 12 * FirstYear(rows) && LastMonth(rows) == 12 * LastYear(rows)
  {
    var a :| 0 <= a < |rows| && MonthOfKey(rows[a].key) == FirstMonth(rows);
    var b :| 0 <= b < |rows| && MonthOfKey(rows[b].key) == LastMonth(rows);
    JanuaryIndex(rows[a].key.date);
    JanuaryIndex(rows[b].key.date);
  }

  /** Every yearly row lies between the earliest and the latest year. */
  lemma YearBounds(rows: seq<Row>)
    requires YearStarts(rows) && |rows| > 0
    ensures forall k :: 0 <= k < |rows| ==> FirstYear(rows) <= rows[k].key.date.year <= LastYear(rows)
  {
    YearEnds(rows);
    forall k | 0 <= k < |rows|
      ensures FirstYear(rows) <= rows[k].key.date.year <= LastYear(rows)
    {
      JanuaryIndex(rows[k].key.date);
    }
  }

  /** 1 January of year y. */
  function NewYear(y: int): (d: Day)
    ensures d.year == y && d.month == 1 && d.day == 1
  {
    Date(y, 1, 1)
  }

  /** The month-start timestamp of period 12 * y is 1 January of year y. */
  lemma JanuaryStart(y: int)
    ensures MonthStart(12 * y) == NewYear(y)
  {
    PeriodFields(y, 1);
  }

  /**
    With every yearly row dated 1 January, each month of a year holds that year's target (when it
    reads as a number): the January value is carried to February through December.
  */
  lemma AnnualTargetCarried(t: Table, i: nat, k: nat)
    requires WellFormed(t) && Dated(t.rows) && UniqueKeys(t.rows) && YearStarts(t.rows)
    requires HasColumn(t, TargetColumn) && HasColumn(t, IntervalColumn)
    requires i < |AnnualToMonthly(t).rows| && k < |t.rows|
    requires t.rows[k].key.date.year == AnnualToMonthly(t).rows[i].key.date.year
    requires ToNumeric(t.rows[k].cells[IndexOf(t.columns, TargetColumn).value]).Num?
    ensures Column(AnnualToMonthly(t), TargetColumn)[i] == ToNumeric(t.rows[k].cells[IndexOf(t.columns, TargetColumn).value])
  {
    var g := AsFreq(t);
    var r := AnnualToMonthly(t);
    assert r.rows[i].key == Keys(r)[i] == Keys(g)[i] == g.rows[i].key;
    GridTargetCarried(t, i, k);
  }

  /** The carried target on the month-start bins, before the band is added. */
  lemma GridTargetCarried(t: Table, i: nat, k: nat)
    requires WellFormed(t) && Dated(t.rows) && UniqueKeys(t.rows) && YearStarts(t.rows)
    requires HasColumn(t, TargetColumn)
    requires i < |AsFreq(t).rows| && k < |t.rows|
    requires t.rows[k].key.date.year == AsFreq(t).rows[i].key.date.year
    requires ToNumeric(t.rows[k].cells[IndexOf(t.columns, TargetColumn).value]).Num?
    ensures ForwardFill(NumericCells(Column(AsFreq(t), TargetColumn)))[i] == ToNumeric(t.rows[k].cells[IndexOf(t.columns, TargetColumn).value])
  {
    var v := Column(AsFreq(t), TargetColumn);
    GridJanuaryCell(t, i, k);
    GridGaps(t, i);
    CarriedNumber(v, 12 * (i / 12), i);
  }

  /** The bin at the January of row k's year holds row k's target cell. */
  lemma GridJanuaryCell(t: Table, i: nat, k: nat)
    requires WellFormed(t) && Dated(t.rows) && UniqueKeys(t.rows) && YearStarts(t.rows)
    requires HasColumn(t, TargetColumn)
    requires i < |AsFreq(t).rows| && k < |t.rows|
    requires t.rows[k].key.date.year == AsFreq(t).rows[i].key.date.year
    ensures Column(AsFreq(t), TargetColumn)[12 * (i / 12)] == t.rows[k].cells[IndexOf(t.columns, TargetColumn).value]
  {
    var g := AsFreq(t);
    var jt := IndexOf(t.columns, TargetColumn).value;
    GridDate(t, i);
    YearEnds(t.rows);
    var y0 := FirstYear(t.rows);
    assert t.rows[k].key.date.year == y0 + i / 12;
    JanuaryIndex(t.rows[k].key.date);
    var j := 12 * (i / 12);
    assert MonthOfKey(t.rows[k].key) - FirstMonth(t.rows) == j;
    AsFreqKeepsMonthStart(t, k);
    assert g.rows[j] == t.rows[k];
    assert Column(g, TargetColumn) == ColumnAt(g, jt);
    assert ColumnAt(g, jt)[j] == g.rows[j].cells[jt];
  }

  /** The bins after a January and up to bin i, all in the same year, are empty. */
  lemma GridGaps(t: Table, i: nat)
    requires WellFormed(t) && Dated(t.rows) && UniqueKeys(t.rows) && YearStarts(t.rows)
    requires HasColumn(t, TargetColumn)
    requires i < |AsFreq(t).rows|
    ensures forall p :: 12 * (i / 12) < p <= i ==> Column(AsFreq(t), TargetColumn)[p] == Missing
  {
    var g := AsFreq(t);
    var jt := IndexOf(t.columns, TargetColumn).value;
    assert Column(g, TargetColumn) == ColumnAt(g, jt);
    forall p | 12 * (i / 12) < p <= i
      ensures Column(g, TargetColumn)[p] == Missing
    {
      GridDate(t, p);
      SameYearOffset(i, p);
      assert g.rows[p].key.date.month != 1;
      NonJanuaryGap(t, p);
    }
  }

  /** Bin p of yearly rows is the first of month p % 12 + 1, p / 12 years after the earliest year. */
  lemma GridDate(t: Table, p: nat)
    requires WellFormed(t) && Dated(t.rows) && UniqueKeys(t.rows) && YearStarts(t.rows)
    requires p < |AsFreq(t).rows|
    ensures |t.rows| > 0 && AsFreq(t).rows[p].key == Stamp(Date(FirstYear(t.rows) + p / 12, p % 12 + 1, 1))
  {
    BinDate(t.rows, p);
  }

  /** The month start of bin p, from the bins of the yearly rows alone. */
  lemma BinDate(rows: seq<Row>, p: nat)
    requires YearStarts(rows) && p < |Months(rows)|
    ensures |rows| > 0 && MonthStart(Months(rows)[p]) == Date(FirstYear(rows) + p / 12, p % 12 + 1, 1)
  {
    assert |rows| > 0;
    YearEnds(rows);
    var y0 := FirstYear(rows);
    assert Months(rows)[p] == 12 * y0 + p;
    GridMonth(y0, p);
  }

  /** A position after the January of position i's year and up to i is not itself a January. */
  lemma SameYearOffset(i: nat, p: nat)
    requires 12 * (i / 12) < p <= i
    ensures p % 12 != 0
  {
  }

  /** After conversion to numbers, forward fill carries a number across a run of missing cells. */
  lemma CarriedNumber(v: seq<Cell>, a: nat, i: nat)
    requires a <= i < |v| && ToNumeric(v[a]).Num?
    requires forall p :: a < p <= i ==> v[p] == Missing
    ensures ForwardFill(NumericCells(v))[i] == ToNumeric(v[a])
  {
    var n := NumericCells(v);
    forall p | a < p <= i
      ensures !n[p].Num?
    {
      assert n[p] == ToNumeric(Missing);
    }
    ForwardFillCarries(n, a, i);
  }

  /** The month-start timestamp `i` months after January of year y. */
  lemma GridMonth(y: int, i: nat)
    ensures MonthStart(12 * y + i) == Date(y + i / 12, i % 12 + 1, 1)
  {
    PeriodFields(y + i / 12, i % 12 + 1);
    assert MonthIndex(Date(y + i / 12, i % 12 + 1, 1)) == 12 * y + i;
  }
}
