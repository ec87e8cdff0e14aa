/**
  The sample construction of `TaylorRuleEstimator`. The estimator holds a copy of the panel and
  changes it in place on every estimation: it copies the chosen inflation deviation into
  `inf_dev`, lags three regressors by `lag` rows and drops every row where a lagged regressor or
  `inf_dev` is missing. The year-range and dummy variants then select rows of that sample. The
  regressions themselves are represented only by their regressor lists.
*/
module Estimation {
  import opened Common
  import opened Frames
  import opened Series
  import opened Normalize
  import opened Deviation

  const InfDevColumn := "inf_dev"
  const OutputGapColumn := "output_gap"
  const OutputGapLagColumn := "output_gap_lag"
  const ExchangeVarLagColumn := "exchange_rate_var_lag"
  const SelicLagColumn := "selic_target_lag"
  const DummyColumn := "dummy_var"

  /** The three `ValueError`s the estimator raises. */
  datatype EstimationError = UnknownSource | EmptyYearRange | BadDummyRange

  /** A regressor of a formula: a column, or the product `a:b` of two columns. */
  datatype Term = Var(name: string) | Interaction(a: string, b: string)

  /** `selic_target ~ <regressors>`. */
  datatype ModelSpec = ModelSpec(response: string, regressors: seq<Term>)

  /** The sample a call prepared and the three model specifications it fits on it. */
  datatype Estimation = Estimation(sample: Table, models: seq<ModelSpec>)

  /** The names the estimator writes are distinct from each other and from the names it reads. */
  lemma NamesDistinct()
    ensures OutputGapLagColumn != ExchangeVarLagColumn && OutputGapLagColumn != SelicLagColumn
      && ExchangeVarLagColumn != SelicLagColumn
    ensures InfDevColumn != OutputGapLagColumn && InfDevColumn != ExchangeVarLagColumn && InfDevColumn != SelicLagColumn
    ensures OutputGapColumn != OutputGapLagColumn && ExchangeVarColumn != ExchangeVarLagColumn && SelicColumn != SelicLagColumn
    ensures OutputGapColumn != ExchangeVarLagColumn && OutputGapColumn != SelicLagColumn
    ensures ExchangeVarColumn != OutputGapLagColumn && ExchangeVarColumn != SelicLagColumn
    ensures SelicColumn != OutputGapLagColumn && SelicColumn != ExchangeVarLagColumn
    ensures InfDevColumn != FocusDeviationColumn && InfDevColumn != BcbDeviationColumn
    ensures YearColumn != InfDevColumn && YearColumn != OutputGapLagColumn && YearColumn != ExchangeVarLagColumn
      && YearColumn != SelicLagColumn
  {
    assert |OutputGapColumn| != |OutputGapLagColumn| && |ExchangeVarColumn| != |ExchangeVarLagColumn|;
    assert |SelicColumn| != |SelicLagColumn|;
    assert OutputGapLagColumn[0] == 'o' && ExchangeVarLagColumn[0] == 'e' && SelicLagColumn[0] == 's';
    assert InfDevColumn[0] == 'i' && FocusDeviationColumn[0] == 'f' && BcbDeviationColumn[0] == 'b';
    assert OutputGapColumn[0] == 'o' && ExchangeVarColumn[0] == 'e' && SelicColumn[0] == 's';
    assert YearColumn[0] == 'a';
  }

  /** `_source_column`: the deviation column a source reads, or none for an unknown source. */
  function SourceOf(source: string): (c: Option<string>)
    ensures c.Some? <==> source == "market" || source == "bc"
    ensures source == "market" ==> c == Some(FocusDeviationColumn)
    ensures source == "bc" ==> c == Some(BcbDeviationColumn)
  {
    if source == "market" then Some(FocusDeviationColumn)
    else if source == "bc" then Some(BcbDeviationColumn)
    else None
  }

  /** The panel holds the three regressors to lag. */
  predicate HasRegressors(t: Table) {
    WellFormed(t) && HasColumn(t, OutputGapColumn) && HasColumn(t, ExchangeVarColumn) && HasColumn(t, SelicColumn)
  }

  /** The panel holds what an estimation with `source` reads. */
  predicate Ready(t: Table, source: string) {
    HasRegressors(t) && (SourceOf(source).Some? ==> HasColumn(t, SourceOf(source).value))
  }

  /** `self.data['inf_dev'] = self.data[c]`. */
  function WithSource(t: Table, c: string): (r: Table)
    requires WellFormed(t) && HasColumn(t, c)
    ensures HasRegressors(t) ==> HasRegressors(r)
    ensures WellFormed(r) && Keys(r) == Keys(t) && HasColumn(r, InfDevColumn) && Column(r, InfDevColumn) == Column(t, c)
    ensures forall n :: HasColumn(t, n) && n != InfDevColumn ==> HasColumn(r, n) && Column(r, n) == Column(t, n)
  {
    NamesDistinct();
    WithColumn(t, InfDevColumn, Column(t, c))
  }

  /** A column that `_apply_lag` writes. */
  predicate IsLagColumn(c: string) {
    c == OutputGapLagColumn || c == ExchangeVarLagColumn || c == SelicLagColumn
  }

  /**
    The three `shift(lag)` columns of `_apply_lag`, before the missing rows are dropped: each lag
    column reads back as its regressor shifted by `lag` rows; every other column, `inf_dev`
    included, is unchanged.
  */
  function LagColumns(t: Table, lag: int): (r: Table)
    requires HasRegressors(t)
    ensures HasRegressors(r) && Keys(r) == Keys(t)
    ensures HasColumn(r, OutputGapLagColumn) && Column(r, OutputGapLagColumn) == Shift(Column(t, OutputGapColumn), lag)
    ensures HasColumn(r, ExchangeVarLagColumn) && Column(r, ExchangeVarLagColumn) == Shift(Column(t, ExchangeVarColumn), lag)
    ensures HasColumn(r, SelicLagColumn) && Column(r, SelicLagColumn) == Shift(Column(t, SelicColumn), lag)
    ensures forall c :: HasColumn(t, c) && !IsLagColumn(c) ==> HasColumn(r, c) && Column(r, c) == Column(t, c)
  {
    NamesDistinct();
    var t1 := WithColumn(t, OutputGapLagColumn, Shift(Column(t, OutputGapColumn), lag));
    var t2 := WithColumn(t1, ExchangeVarLagColumn, Shift(Column(t1, ExchangeVarColumn), lag));
    var t3 := WithColumn(t2, SelicLagColumn, Shift(Column(t2, SelicColumn), lag));
    assert forall c :: HasColumn(t, c) && !IsLagColumn(c) ==> HasColumn(t3, c) && Column(t3, c) == Column(t, c) by {
      forall c | HasColumn(t, c) && !IsLagColumn(c)
        ensures HasColumn(t3, c) && Column(t3, c) == Column(t, c)
      {
        assert Column(t1, c) == Column(t, c);
        assert Column(t2, c) == Column(t1, c);
      }
    }
    assert Column(t3, OutputGapLagColumn) == Column(t1, OutputGapLagColumn) by {
      assert Column(t2, OutputGapLagColumn) == Column(t1, OutputGapLagColumn);
    }
    assert Column(t3, ExchangeVarLagColumn) == Column(t2, ExchangeVarLagColumn);
    t3
  }

  /** Row `x` of a table with columns `cols` has a non-missing cell in column `name`. */
  predicate PresentIn(cols: seq<string>, x: Row, name: string) {
    match IndexOf(cols, name)
    case Some(j) => j < |x.cells| && Present(x.cells[j])
    case None => false
  }

  /** The `dropna` subset: the three lagged regressors and `inf_dev`. */
  predicate Complete(cols: seq<string>, x: Row) {
    PresentIn(cols, x, OutputGapLagColumn) && PresentIn(cols, x, ExchangeVarLagColumn)
    && PresentIn(cols, x, SelicLagColumn) && PresentIn(cols, x, InfDevColumn)
  }

  /**
    `dropna(subset=[...], inplace=True)`: the rows where all four subset columns are present, in
    their order and otherwise unchanged; the columns stay.
  */
  function DropIncomplete(t: Table): (r: Table)
    requires WellFormed(t)
    ensures WellFormed(r) && r.columns == t.columns
    ensures forall x :: x in r.rows <==> x in t.rows && Complete(t.columns, x)
    ensures IsSubsequence(r.rows, t.rows)
    ensures forall x :: multiset(r.rows)[x] == if Complete(t.columns, x) then multiset(t.rows)[x] else 0
    ensures r.rows == Keep(t.rows, (x: Row) => Complete(t.columns, x))
  {
    var r := Table(t.columns, Keep(t.rows, (x: Row) => Complete(t.columns, x)));
    assert forall i :: 0 <= i < |r.rows| ==> r.rows[i] in t.rows;
    r
  }

  /** `_apply_lag` as a whole. */
  function Lagged(t: Table, lag: int): (r: Table)
    requires HasRegressors(t)
    ensures HasRegressors(r)
  {
    DropIncomplete(LagColumns(t, lag))
  }

  /** The shifted regressors: row i holds row i - lag, and the first `lag` rows are missing. */
  lemma LagPositional(t: Table, lag: int, i: nat)
    requires HasRegressors(t) && i < |t.rows|
    ensures var l := LagColumns(t, lag);
      (0 <= i - lag < |t.rows| ==>
        (Column(l, OutputGapLagColumn)[i] == Column(t, OutputGapColumn)[i - lag]
         && Column(l, ExchangeVarLagColumn)[i] == Column(t, ExchangeVarColumn)[i - lag]
         && Column(l, SelicLagColumn)[i] == Column(t, SelicColumn)[i - lag]))
      && (0 <= lag && i < lag ==>
        (Column(l, OutputGapLagColumn)[i] == Missing
         && Column(l, ExchangeVarLagColumn)[i] == Missing && Column(l, SelicLagColumn)[i] == Missing))
  {
  }

  /** `inf_dev` is not lagged: the deviation column survives the shift step unchanged. */
  lemma InfDevNotLagged(t: Table, lag: int)
    requires HasRegressors(t) && HasColumn(t, InfDevColumn)
    ensures HasColumn(LagColumns(t, lag), InfDevColumn)
    ensures Column(LagColumns(t, lag), InfDevColumn) == Column(t, InfDevColumn)
  {
    NamesDistinct();
  }

  /**
    Listwise deletion after lagging: the sample is exactly the lagged rows where the three lagged
    regressors and `inf_dev` are all present, in their original order.
  */
  lemma LaggedSample(t: Table, lag: int, x: Row)
    requires HasRegressors(t)
    ensures var l := LagColumns(t, lag);
      (x in Lagged(t, lag).rows <==> x in l.rows && Complete(l.columns, x))
      && IsSubsequence(Lagged(t, lag).rows, l.rows) && Lagged(t, lag).columns == l.columns
  {
  }

  /** A row of the shifted table is complete only if its lagged output gap is present. */
  lemma CompleteNeedsLag(l: Table, i: nat)
    requires WellFormed(l) && HasColumn(l, OutputGapLagColumn) && i < |l.rows|
    requires Column(l, OutputGapLagColumn)[i] == Missing
    ensures !Complete(l.columns, l.rows[i])
  {
    var j := IndexOf(l.columns, OutputGapLagColumn).value;
    assert Column(l, OutputGapLagColumn)[i] == l.rows[i].cells[j];
  }

  /**
    With a non-negative lag the first `lag` rows lose their lagged values and are dropped, so the
    sample is at least `lag` rows shorter than the panel (or empty).
  */
  lemma LaggedShrinks(t: Table, lag: nat)
    requires HasRegressors(t)
    ensures |Lagged(t, lag).rows| <= |t.rows| - if lag <= |t.rows| then lag else |t.rows|
  {
    var l := LagColumns(t, lag);
    var n := if lag <= |t.rows| then lag else |t.rows|;
    forall i | 0 <= i < n
      ensures !Complete(l.columns, l.rows[i])
    {
      LagPositional(t, lag, i);
      CompleteNeedsLag(l, i);
    }
    KeepSkipsPrefix(l.rows, (x: Row) => Complete(l.columns, x), n);
  }

  /**
    `self.data` is changed in place, so a second estimation on the same estimator copies the
    source column and lags the already lagged sample again, dropping at least `lag` more rows.
  */
  lemma RepeatedLagShrinks(t: Table, source: string, lag: nat)
    requires Ready(t, source) && SourceOf(source).Some?
    ensures var c := SourceOf(source).value;
      var once := Lagged(WithSource(t, c), lag);
      HasColumn(once, c)
      && |Lagged(WithSource(once, c), lag).rows| <= if 2 * lag <= |t.rows| then |t.rows| - 2 * lag else 0
  {
    NamesDistinct();
    var c := SourceOf(source).value;
    var s1 := WithSource(t, c);
    LaggedShrinks(s1, lag);
    var once := Lagged(s1, lag);
    var s2 := WithSource(once, c);
    LaggedShrinks(s2, lag);
  }

  /** The `ano` cell of row `x` of a table with columns `cols`. */
  function YearCell(cols: seq<string>, x: Row): Cell {
    match IndexOf(cols, YearColumn)
    case Some(j) => if j < |x.cells| then x.cells[j] else Missing
    case None => Missing
  }

  /** Row `x` has a year within [start, end], both included (a missing year compares false). */
  predicate InYears(cols: seq<string>, x: Row, start: int, end: int) {
    YearCell(cols, x).Num? && start as real <= YearCell(cols, x).x <= end as real
  }

  /** `data[(data['ano'] >= start) & (data['ano'] <= end)].copy()`. */
  function YearRange(t: Table, start: int, end: int): (r: Table)
    requires WellFormed(t)
    ensures WellFormed(r) && r.columns == t.columns
    ensures forall x :: x in r.rows <==> x in t.rows && InYears(t.columns, x, start, end)
    ensures IsSubsequence(r.rows, t.rows)
    ensures forall x :: multiset(r.rows)[x] == if InYears(t.columns, x, start, end) then multiset(t.rows)[x] else 0
    ensures r.rows == Keep(t.rows, (x: Row) => InYears(t.columns, x, start, end))
  {
    var r := Table(t.columns, Keep(t.rows, (x: Row) => InYears(t.columns, x, start, end)));
    assert forall i :: 0 <= i < |r.rows| ==> r.rows[i] in t.rows;
    r
  }

  /** A year that is a whole number, as `.dt.year` yields. */
  predicate WholeYear(c: Cell) {
    c.Num? ==> c.x == c.x.Floor as real
  }

  /** Every `ano` cell is a whole number. */
  predicate WholeYears(t: Table) {
    forall i :: 0 <= i < |t.rows| ==> WholeYear(YearCell(t.columns, t.rows[i]))
  }

  /** A row with a whole year lies in [a, c] exactly when it lies in one of [a, b] and [b + 1, c], never both. */
  lemma YearSplitsRow(cols: seq<string>, x: Row, a: int, b: int, c: int)
    requires WholeYear(YearCell(cols, x)) && a <= b < c
    ensures InYears(cols, x, a, c) <==> InYears(cols, x, a, b) || InYears(cols, x, b + 1, c)
    ensures !(InYears(cols, x, a, b) && InYears(cols, x, b + 1, c))
  {
    var y := YearCell(cols, x);
    if y.Num? {
      assert b as real < y.x ==> (b + 1) as real <= y.x by {
        if b as real < y.x {
          assert b < y.x.Floor;
        }
      }
    }
  }

  /** Adjacent year ranges [a, b] and [b + 1, c] split the rows of [a, c] between them. */
  lemma YearRangesPartition(t: Table, a: int, b: int, c: int)
    requires WellFormed(t) && WholeYears(t) && a <= b < c
    ensures |YearRange(t, a, b).rows| + |YearRange(t, b + 1, c).rows| == |YearRange(t, a, c).rows|
  {
    var p := (x: Row) => InYears(t.columns, x, a, b);
    var q := (x: Row) => InYears(t.columns, x, b + 1, c);
    var both := (x: Row) => InYears(t.columns, x, a, c);
    forall i | 0 <= i < |t.rows|
      ensures (both(t.rows[i]) <==> p(t.rows[i]) || q(t.rows[i])) && !(p(t.rows[i]) && q(t.rows[i]))
    {
      YearSplitsRow(t.columns, t.rows[i], a, b, c);
    }
    KeepSplit(t.rows, p, q, both);
  }

  /** `pd.Period(...)` bounds of the dummy window; `None` when the text does not parse. */
  datatype DummyRange = DummyRange(start: Option<int>, end: Option<int>)

  /** Every key is a monthly period (comparison with a `Period` needs it). */
  predicate AllPeriods(t: Table) {
    forall i :: 0 <= i < |t.rows| ==> t.rows[i].key.Period?
  }

  /** `((Date >= start) & (Date <= end)).astype(int)`: 1 inside the window, both ends included, else 0. */
  function Dummies(t: Table, start: int, end: int): (v: seq<Cell>)
    ensures |v| == |t.rows|
    ensures forall i :: 0 <= i < |t.rows| ==> (v[i] == Num(1.0) <==> start <= MonthOfKey(t.rows[i].key) <= end)
    ensures forall i :: 0 <= i < |t.rows| ==> (v[i] == Num(0.0) <==> !(start <= MonthOfKey(t.rows[i].key) <= end))
  {
    seq(|t.rows|, i requires 0 <= i < |t.rows| =>
      if start <= MonthOfKey(t.rows[i].key) <= end then Num(1.0) else Num(0.0))
  }

  /**
    The dummy step of `estimate_finer`: any failure inside its `try` (a bound that does not parse,
    a `Date` that is not a period) becomes one `ValueError`.
  */
  function AddDummy(t: Table, d: DummyRange): (r: Result<Table, EstimationError>)
    requires WellFormed(t)
    ensures r.Err? <==> d.start.None? || d.end.None? || !AllPeriods(t)
    ensures r.Err? ==> r.error == BadDummyRange
    ensures r.Ok? ==> (WellFormed(r.value) && Keys(r.value) == Keys(t) && HasColumn(r.value, DummyColumn)
      && Column(r.value, DummyColumn) == Dummies(t, d.start.value, d.end.value))
    ensures r.Ok? ==> forall n :: HasColumn(t, n) && n != DummyColumn ==>
      HasColumn(r.value, n) && Column(r.value, n) == Column(t, n)
  {
    if d.start.None? || d.end.None? || !AllPeriods(t) then Err(BadDummyRange)
    else Ok(WithColumn(t, DummyColumn, Dummies(t, d.start.value, d.end.value)))
  }

  /** Model I: the interest-rate lag and the inflation deviation. */
  function ModelI(): seq<Term> {
    [Var(SelicLagColumn), Var(InfDevColumn)]
  }

  /** Models I, II and III: each adds one regressor to the one before. */
  function NaiveSpecs(): (s: seq<ModelSpec>)
    ensures |s| == 3 && forall k :: 0 <= k < 3 ==> s[k].response == SelicColumn
  {
    [ModelSpec(SelicColumn, ModelI()),
     ModelSpec(SelicColumn, ModelI() + [Var(OutputGapLagColumn)]),
     ModelSpec(SelicColumn, ModelI() + [Var(OutputGapLagColumn), Var(ExchangeVarLagColumn)])]
  }

  /** The `estimate_finer` models: the same three, each with the regime interaction added. */
  function FinerSpecs(): (s: seq<ModelSpec>)
    ensures |s| == 3
  {
    var n := NaiveSpecs();
    seq(3, k requires 0 <= k < 3 => ModelSpec(n[k].response, n[k].regressors + [Interaction(DummyColumn, InfDevColumn)]))
  }

  /**
    The specifications are nested: II is I plus the lagged output gap, III is II plus the lagged
    exchange-rate variation, all keep the interest-rate lag and `inf_dev`, and the finer variant
    of each adds exactly the `dummy_var:inf_dev` interaction.
  */
  lemma SpecsNested()
    ensures var s := NaiveSpecs();
      s[1].regressors == s[0].regressors + [Var(OutputGapLagColumn)]
      && s[2].regressors == s[1].regressors + [Var(ExchangeVarLagColumn)]
      && forall k :: 0 <= k < 3 ==> Var(SelicLagColumn) in s[k].regressors && Var(InfDevColumn) in s[k].regressors
    ensures forall k :: 0 <= k < 3 ==> (FinerSpecs()[k].response == NaiveSpecs()[k].response
      && FinerSpecs()[k].regressors == NaiveSpecs()[k].regressors + [Interaction(DummyColumn, InfDevColumn)])
  {
    var s := NaiveSpecs();
    assert s[2].regressors == ModelI() + [Var(OutputGapLagColumn)] + [Var(ExchangeVarLagColumn)];
    forall k | 0 <= k < 3
      ensures Var(SelicLagColumn) in s[k].regressors && Var(InfDevColumn) in s[k].regressors
    {
      assert s[k].regressors[0] == Var(SelicLagColumn) && s[k].regressors[1] == Var(InfDevColumn);
    }
  }

  /** `estimate_range` after the sample is prepared: the year filter, refused when empty. */
  function RangeEstimation(sample: Table, start: int, end: int): (r: Result<Estimation, EstimationError>)
    requires WellFormed(sample)
    ensures r.Err? <==> YearRange(sample, start, end).rows == []
    ensures r.Err? ==> r.error == EmptyYearRange
    ensures r.Ok? ==> r.value.models == NaiveSpecs() && r.value.sample == YearRange(sample, start, end)
  {
    var df := YearRange(sample, start, end);
    if df.rows == [] then Err(EmptyYearRange) else Ok(Estimation(df, NaiveSpecs()))
  }

  /** `estimate_finer` after the sample is prepared: the year filter first, then the dummy. */
  function FinerEstimation(sample: Table, start: int, end: int, d: DummyRange): (r: Result<Estimation, EstimationError>)
    requires WellFormed(sample)
    ensures YearRange(sample, start, end).rows == [] ==> r == Err(EmptyYearRange)
    ensures YearRange(sample, start, end).rows != [] ==>
      (r.Err? <==> AddDummy(YearRange(sample, start, end), d).Err?)
    ensures r.Err? ==> r.error == EmptyYearRange || r.error == BadDummyRange
    ensures YearRange(sample, start, end).rows != [] && r.Err? ==> r.error == BadDummyRange
    ensures r.Ok? ==> r.value.models == FinerSpecs() && Keys(r.value.sample) == Keys(YearRange(sample, start, end))
    ensures YearRange(sample, start, end).rows != [] && AddDummy(YearRange(sample, start, end), d).Ok? ==>
      r.Ok? && r.value.sample == AddDummy(YearRange(sample, start, end), d).value
    ensures r.Ok? ==> forall n :: HasColumn(sample, n) && n != DummyColumn ==>
      HasColumn(r.value.sample, n) && Column(r.value.sample, n) == Column(YearRange(sample, start, end), n)
  {
    var df := YearRange(sample, start, end);
    if df.rows == [] then Err(EmptyYearRange)
    else
      match AddDummy(df, d)
      case Err(e) => Err(e)
      case Ok(withDummy) => Ok(Estimation(withDummy, FinerSpecs()))
  }

  /** A dummy of the finer sample is 1 exactly on the rows whose month lies in the window. */
  lemma FinerDummy(sample: Table, start: int, end: int, d: DummyRange, i: nat)
    requires WellFormed(sample)
    requires FinerEstimation(sample, start, end, d).Ok?
    ensures var e := FinerEstimation(sample, start, end, d).value.sample;
      WellFormed(e) && HasColumn(e, DummyColumn) && i < |e.rows| ==>
        (Column(e, DummyColumn)[i] == Num(1.0) <==> d.start.value <= MonthOfKey(e.rows[i].key) <= d.end.value)
  {
    var df := YearRange(sample, start, end);
    var e := FinerEstimation(sample, start, end, d).value.sample;
    assert AddDummy(df, d).Ok? && e == AddDummy(df, d).value;
    if i < |e.rows| {
      assert Keys(e)[i] == Keys(df)[i];
    }
  }

  class TaylorRuleEstimator {
    var data: Table
    var source: string
    var lag: int

    /**
      The estimator keeps its own copy of the panel: the caller's frame is not changed later.
      Without arguments the source is the market survey and the lag one month.
    */
    constructor (df: Frame, source: string := "market", lag: int := 1)
      ensures this.data == df.Snapshot() && this.source == source && this.lag == lag
    {
      this.data := df.Snapshot();
      this.source := source;
      this.lag := lag;
    }

    /** `_source_column`: `inf_dev` copied from the chosen deviation, or a `ValueError` for an unknown source. */
    method SourceColumn() returns (err: Option<EstimationError>)
      requires Ready(data, source)
      modifies this`data
      ensures SourceOf(source).None? ==> err == Some(UnknownSource) && data == old(data)
      ensures SourceOf(source).Some? ==> err.None? && data == WithSource(old(data), SourceOf(source).value)
    {
      var c := SourceOf(source);
      if c.None? {
        return Some(UnknownSource);
      }
      data := WithSource(data, c.value);
      return None;
    }

    /** `_apply_lag`: the three regressors lagged in place, then incomplete rows dropped in place. */
    method ApplyLag()
      requires HasRegressors(data)
      modifies this`data
      ensures data == Lagged(old(data), lag)
    {
      data := Lagged(data, lag);
    }

    /** Source selection then lagging; the sample the estimation reads is then `data`. */
    method Prepare() returns (err: Option<EstimationError>)
      requires Ready(data, source)
      modifies this`data
      ensures SourceOf(source).None? ==> err == Some(UnknownSource) && data == old(data)
      ensures SourceOf(source).Some? ==> err.None? && data == Lagged(WithSource(old(data), SourceOf(source).value), lag)
    {
      err := SourceColumn();
      if err.Some? {
        return;
      }
      ApplyLag();
    }

    /** `estimate_naive`: models I, II and III on the whole prepared sample. */
    method EstimateNaive() returns (r: Result<Estimation, EstimationError>)
      requires Ready(data, source)
      modifies this`data
      ensures SourceOf(source).None? ==> r == Err(UnknownSource) && data == old(data)
      ensures SourceOf(source).Some? ==>
        data == Lagged(WithSource(old(data), SourceOf(source).value), lag) && r == Ok(Estimation(data, NaiveSpecs()))
    {
      var err := Prepare();
      if err.Some? {
        return Err(err.value);
      }
      r := Ok(Estimation(data, NaiveSpecs()));
    }

    /**
      `estimate_range`: the prepared sample restricted to years start..end (both included); an
      empty selection is a `ValueError`, raised after `data` has already been changed.
    */
    method EstimateRange(start: int, end: int) returns (r: Result<Estimation, EstimationError>)
      requires Ready(data, source) && HasColumn(data, YearColumn)
      modifies this`data
      ensures SourceOf(source).None? ==> r == Err(UnknownSource) && data == old(data)
      ensures SourceOf(source).Some? ==>
        data == Lagged(WithSource(old(data), SourceOf(source).value), lag) && r == RangeEstimation(data, start, end)
    {
      var err := Prepare();
      if err.Some? {
        return Err(err.value);
      }
      r := RangeEstimation(data, start, end);
    }

    /** `estimate_finer`: as `estimate_range`, with the regime dummy and its interaction with `inf_dev`. */
    method EstimateFiner(start: int, end: int, d: DummyRange) returns (r: Result<Estimation, EstimationError>)
      requires Ready(data, source) && HasColumn(data, YearColumn)
      modifies this`data
      ensures SourceOf(source).None? ==> r == Err(UnknownSource) && data == old(data)
      ensures SourceOf(source).Some? ==>
        data == Lagged(WithSource(old(data), SourceOf(source).value), lag) && r == FinerEstimation(data, start, end, d)
    {
      var err := Prepare();
      if err.Some? {
        return Err(err.value);
      }
      r := FinerEstimation(data, start, end, d);
    }

    /** `fit_models`: fits the given models, or those of `estimate_naive` when none are given. */
    method FitModels(given: Option<Result<Estimation, EstimationError>>) returns (r: Result<Estimation, EstimationError>)
      requires Ready(data, source)
      modifies this`data
      ensures given.Some? ==> r == given.value && data == old(data)
      ensures given.None? && SourceOf(source).None? ==> r == Err(UnknownSource) && data == old(data)
      ensures given.None? && SourceOf(source).Some? ==>
        data == Lagged(WithSource(old(data), SourceOf(source).value), lag) && r == Ok(Estimation(data, NaiveSpecs()))
    {
      if given.Some? {
        return given.value;
      }
      r := EstimateNaive();
    }
  }
}
