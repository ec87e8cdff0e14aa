/**
  `calculate_deviation_from_target`: on a copy of the merged panel, adds the year and month of
  each row, the target of the next row with the same calendar month, and the deviation of the
  central bank's and the survey's expected inflation from a blend of this and next year's target:
  ((12 - m) / 12) * (e - target) + (m / 12) * (e - target_next).
*/
module Deviation {
  import opened Common
  import opened Frames
  import opened EveFilter
  import opened Normalize
  import opened AnnualTarget

  const YearColumn := "ano"
  const MonthColumn := "mes"
  const TargetNextColumn := "inflation_target_next"
  const BcbDeviationColumn := "bcb_inflation_deviation"
  const FocusDeviationColumn := "focus_inflation_deviation"

  /** The columns the deviation step writes. */
  predicate Added(c: string) {
    c == YearColumn || c == MonthColumn || c == TargetNextColumn || c == BcbDeviationColumn || c == FocusDeviationColumn
  }

  /** The columns the deviation step reads are not among those it writes. */
  lemma InputsNotAdded()
    ensures !Added(TargetColumn) && !Added(BcbColumn) && !Added(ExpectedColumn)
  {
    assert TargetColumn[0] == 'i' && TargetColumn[9] == '_' && TargetNextColumn[9] == '_';
    assert TargetColumn != TargetNextColumn by { assert |TargetColumn| != |TargetNextColumn|; }
    assert BcbColumn[0] == 'b' && BcbDeviationColumn[4] == 'i' && BcbColumn[4] == 'e';
    assert ExpectedColumn[0] == 'f' && FocusDeviationColumn[6] == 'i' && ExpectedColumn[6] == 'e';
  }

  /** The five written columns are distinct. */
  lemma AddedDistinct()
    ensures YearColumn != MonthColumn && YearColumn != TargetNextColumn && YearColumn != BcbDeviationColumn
      && YearColumn != FocusDeviationColumn
    ensures MonthColumn != TargetNextColumn && MonthColumn != BcbDeviationColumn && MonthColumn != FocusDeviationColumn
    ensures TargetNextColumn != BcbDeviationColumn && TargetNextColumn != FocusDeviationColumn
    ensures BcbDeviationColumn != FocusDeviationColumn
  {
    assert YearColumn[0] == 'a' && MonthColumn[0] == 'm' && TargetNextColumn[0] == 'i';
    assert BcbDeviationColumn[0] == 'b' && FocusDeviationColumn[0] == 'f';
  }

  /** `Date.dt.year` as a number column. */
  function Years(keys: seq<Key>): (v: seq<Cell>)
    ensures |v| == |keys| && forall i :: 0 <= i < |keys| ==> v[i] == Num(YearOfKey(keys[i]) as real)
  {
    seq(|keys|, i requires 0 <= i < |keys| => Num(YearOfKey(keys[i]) as real))
  }

  /** `Date.dt.month` as a number column. */
  function Months(keys: seq<Key>): (v: seq<Cell>)
    ensures |v| == |keys| && forall i :: 0 <= i < |keys| ==> v[i] == Num(CalendarMonthOfKey(keys[i]) as real)
  {
    seq(|keys|, i requires 0 <= i < |keys| => Num(CalendarMonthOfKey(keys[i]) as real))
  }

  /** The first row after `from - 1` whose calendar month is that of row `i`. */
  function NextSameMonthFrom(keys: seq<Key>, i: nat, from: nat): (r: Option<nat>)
    requires i < from <= |keys|
    ensures r.Some? ==> from <= r.value < |keys| && CalendarMonthOfKey(keys[r.value]) == CalendarMonthOfKey(keys[i])
    ensures r.Some? ==> forall j :: from <= j < r.value ==> CalendarMonthOfKey(keys[j]) != CalendarMonthOfKey(keys[i])
    ensures r.None? ==> forall j :: from <= j < |keys| ==> CalendarMonthOfKey(keys[j]) != CalendarMonthOfKey(keys[i])
    decreases |keys| - from
  {
    if from == |keys| then None
    else if CalendarMonthOfKey(keys[from]) == CalendarMonthOfKey(keys[i]) then Some(from)
    else NextSameMonthFrom(keys, i, from + 1)
  }

  /** The next row of the same `mes` group (`groupby('mes')` keeps row order within a group). */
  function NextSameMonth(keys: seq<Key>, i: nat): (r: Option<nat>)
    requires i < |keys|
    ensures r.Some? ==> IsNextSameMonth(keys, i, r.value)
    ensures r.None? ==> forall j :: i < j < |keys| ==> CalendarMonthOfKey(keys[j]) != CalendarMonthOfKey(keys[i])
  {
    NextSameMonthFrom(keys, i, i + 1)
  }

  /**
    `groupby('mes')['inflation_target'].shift(-1)`: each row takes the target of the next row in its
    calendar-month group, or missing when it is the group's last row.
  */
  function TargetNext(keys: seq<Key>, target: seq<Cell>): (r: seq<Cell>)
    requires |keys| == |target|
    ensures |r| == |keys|
  {
    seq(|keys|, i requires 0 <= i < |keys| =>
      match NextSameMonth(keys, i) case Some(j) => target[j] case None => Missing)
  }

  /**
    The deviation of `e` at calendar month `m`: the expectation minus the month-weighted blend of
    this year's and next year's target; missing unless all three operands are numbers.
  */
  function Blend(m: int, e: Cell, t: Cell, tn: Cell): (r: Cell)
    ensures r.Num? <==> e.Num? && t.Num? && tn.Num?
    ensures !r.Num? ==> r == Missing
    ensures r.Num? ==> r.x == e.x - ((12 - m) as real / 12.0 * t.x + m as real / 12.0 * tn.x)
  {
    if e.Num? && t.Num? && tn.Num? then
      Num((12 - m) as real / 12.0 * (e.x - t.x) + m as real / 12.0 * (e.x - tn.x))
    else Missing
  }

  function Deviations(keys: seq<Key>, e: seq<Cell>, t: seq<Cell>, tn: seq<Cell>): (r: seq<Cell>)
    requires |e| == |keys| && |t| == |keys| && |tn| == |keys|
    ensures |r| == |keys|
    ensures forall i :: 0 <= i < |keys| ==> r[i] == Blend(CalendarMonthOfKey(keys[i]), e[i], t[i], tn[i])
  {
    seq(|keys|, i requires 0 <= i < |keys| => Blend(CalendarMonthOfKey(keys[i]), e[i], t[i], tn[i]))
  }

  /** The `ano` and `mes` columns: the year and the calendar month of each row's period. */
  function WithCalendar(t: Table): (r: Table)
    requires WellFormed(t)
    ensures WellFormed(r) && Keys(r) == Keys(t)
    ensures forall c :: HasColumn(t, c) && c != YearColumn && c != MonthColumn ==> HasColumn(r, c) && Column(r, c) == Column(t, c)
    ensures HasColumn(r, YearColumn) && Column(r, YearColumn) == Years(Keys(t))
    ensures HasColumn(r, MonthColumn) && Column(r, MonthColumn) == Months(Keys(t))
  {
    AddedDistinct();
    var t1 := WithColumn(t, YearColumn, Years(Keys(t)));
    WithColumn(t1, MonthColumn, Months(Keys(t)))
  }

  /** Columns `calculate_deviation_from_target` reads. */
  predicate HasInputs(t: Table) {
    WellFormed(t) && HasColumn(t, TargetColumn) && HasColumn(t, BcbColumn) && HasColumn(t, ExpectedColumn)
  }

  /**
    `calculate_deviation_from_target` on a copy of the panel: the keys and every column it does not
    write are unchanged, and the five new columns read back as the year, the month, the next
    target of the month group and the two deviations.
  */
  function CalculateDeviation(t: Table): (r: Table)
    requires HasInputs(t)
    ensures WellFormed(r) && Keys(r) == Keys(t)
    ensures forall c :: HasColumn(t, c) && !Added(c) ==> HasColumn(r, c) && Column(r, c) == Column(t, c)
    ensures HasColumn(r, YearColumn) && Column(r, YearColumn) == Years(Keys(t))
    ensures HasColumn(r, MonthColumn) && Column(r, MonthColumn) == Months(Keys(t))
    ensures HasColumn(r, TargetNextColumn) && Column(r, TargetNextColumn) == TargetNext(Keys(t), Column(t, TargetColumn))
    ensures HasColumn(r, BcbDeviationColumn) && Column(r, BcbDeviationColumn) ==
      Deviations(Keys(t), Column(t, BcbColumn), Column(t, TargetColumn), TargetNext(Keys(t), Column(t, TargetColumn)))
    ensures HasColumn(r, FocusDeviationColumn) && Column(r, FocusDeviationColumn) ==
      Deviations(Keys(t), Column(t, ExpectedColumn), Column(t, TargetColumn), TargetNext(Keys(t), Column(t, TargetColumn)))
  {
    InputsNotAdded();
    AddedDistinct();
    var keys := Keys(t);
    var target := Column(t, TargetColumn);
    var next := TargetNext(keys, target);
    var bcb := Deviations(keys, Column(t, BcbColumn), target, next);
    var focus := Deviations(keys, Column(t, ExpectedColumn), target, next);
    var t2 := WithCalendar(t);
    var t3 := WithColumn(t2, TargetNextColumn, next);
    var t4 := WithColumn(t3, BcbDeviationColumn, bcb);
    var t5 := WithColumn(t4, FocusDeviationColumn, focus);
    assert forall c :: HasColumn(t, c) && !Added(c) ==> HasColumn(t5, c) && Column(t5, c) == Column(t, c) by {
      forall c | HasColumn(t, c) && !Added(c)
        ensures HasColumn(t5, c) && Column(t5, c) == Column(t, c)
      {
        assert Column(t3, c) == Column(t2, c);
        assert Column(t4, c) == Column(t3, c);
      }
    }
    assert Column(t5, YearColumn) == Years(keys) && Column(t5, MonthColumn) == Months(keys) by {
      assert Column(t3, YearColumn) == Column(t2, YearColumn) && Column(t3, MonthColumn) == Column(t2, MonthColumn);
      assert Column(t4, YearColumn) == Column(t3, YearColumn) && Column(t4, MonthColumn) == Column(t3, MonthColumn);
    }
    assert Column(t5, TargetNextColumn) == next by {
      assert Column(t4, TargetNextColumn) == Column(t3, TargetNextColumn);
    }
    t5
  }

  /** Row j is the first row after row i in row i's calendar month. */
  predicate IsNextSameMonth(keys: seq<Key>, i: int, j: int) {
    0 <= i < j < |keys| && CalendarMonthOfKey(keys[j]) == CalendarMonthOfKey(keys[i])
    && forall p :: i < p < j ==> CalendarMonthOfKey(keys[p]) != CalendarMonthOfKey(keys[i])
  }

  /** The next target is that of the nearest later row in the same calendar month, or missing if there is none. */
  lemma TargetNextSpec(keys: seq<Key>, target: seq<Cell>, i: nat)
    requires |keys| == |target| && i < |keys|
    ensures forall j :: IsNextSameMonth(keys, i, j) ==> TargetNext(keys, target)[i] == target[j]
    ensures (forall j :: i < j < |keys| ==> CalendarMonthOfKey(keys[j]) != CalendarMonthOfKey(keys[i]))
      ==> TargetNext(keys, target)[i] == Missing
  {
    var n := NextSameMonth(keys, i);
    forall j | IsNextSameMonth(keys, i, j)
      ensures TargetNext(keys, target)[i] == target[j]
    {
      assert n.Some? && n.value == j;
    }
  }

  /** On an unbroken monthly panel the next target of the month group is the target twelve rows on. */
  lemma {:induction false} TargetNextContiguous(keys: seq<Key>, target: seq<Cell>, m0: int, i: nat)
    requires |keys| == |target| && i < |keys|
    requires forall k :: 0 <= k < |keys| ==> keys[k] == Period(m0 + k)
    ensures i + 12 < |keys| ==> TargetNext(keys, target)[i] == target[i + 12]
    ensures i + 12 >= |keys| ==> TargetNext(keys, target)[i] == Missing
  {
    forall j | i < j < |keys| && j < i + 12
      ensures CalendarMonthOfKey(keys[j]) != CalendarMonthOfKey(keys[i])
    {
      assert (m0 + j) % 12 != (m0 + i) % 12 by { ModDistinct(m0 + i, j - i); }
    }
    if i + 12 < |keys| {
      assert (m0 + i + 12) % 12 == (m0 + i) % 12;
    }
    TargetNextSpec(keys, target, i);
  }

  lemma ModDistinct(a: int, d: int)
    requires 0 < d < 12
    ensures (a + d) % 12 != a % 12
  {
  }

  /** The deviation is the expectation minus the month-weighted blend of this year's and next year's target. */
  lemma BlendWeightedTarget(m: int, e: real, t: real, tn: real)
    ensures Blend(m, Num(e), Num(t), Num(tn)) == Num(e - ((12 - m) as real / 12.0 * t + m as real / 12.0 * tn))
  {
  }

  /** With an unchanged target the deviation is the plain gap to it, whatever the month. */
  lemma BlendSameTarget(m: int, e: real, t: real)
    ensures Blend(m, Num(e), Num(t), Num(t)) == Num(e - t)
  {
    BlendWeightedTarget(m, e, t, t);
    assert (12 - m) as real / 12.0 * t + m as real / 12.0 * t == t;
  }

  /** In December the deviation is measured against next year's target only. */
  lemma BlendDecember(e: real, t: real, tn: real)
    ensures Blend(12, Num(e), Num(t), Num(tn)) == Num(e - tn)
  {
  }

  /** June, expectation 5.0, target 4.0, next target 3.5: half of 1.0 plus half of 1.5. */
  lemma BlendJuneExample()
    ensures Blend(6, Num(5.0), Num(4.0), Num(3.5)) == Num(1.25)
  {
  }

  /**
    A row's deviation column entry: missing unless the row's expectation, target and next target
    are numbers, and otherwise the expectation minus the month-weighted blend of the two targets.
  */
  lemma DeviationAt(keys: seq<Key>, e: seq<Cell>, t: seq<Cell>, tn: seq<Cell>, i: nat)
    requires |e| == |keys| && |t| == |keys| && |tn| == |keys| && i < |keys|
    ensures var d := Deviations(keys, e, t, tn)[i];
      var m := CalendarMonthOfKey(keys[i]);
      (d.Num? <==> e[i].Num? && t[i].Num? && tn[i].Num?)
      && (d.Num? ==> d == Num(e[i].x - ((12 - m) as real / 12.0 * t[i].x + m as real / 12.0 * tn[i].x)))
  {
    var m := CalendarMonthOfKey(keys[i]);
    if e[i].Num? && t[i].Num? && tn[i].Num? {
      BlendWeightedTarget(m, e[i].x, t[i].x, tn[i].x);
    }
  }
}
