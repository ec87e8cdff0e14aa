/**
  The month bins of pandas `resample` over a table whose keys are timestamps, and the three
  aggregations the pipeline uses on them: `asfreq` at month starts, `last` at month ends and
  `mean` at month ends. The bins run from the month of the earliest key to the month of the
  latest, one per month, empty months included.
*/
module Resample {
  import opened Common
  import opened Calendar
  import opened Frames

  /** Every key is a timestamp (a `DatetimeIndex`). */
  predicate Dated(rows: seq<Row>) {
    forall i :: 0 <= i < |rows| ==> rows[i].key.Stamp?
  }

  /** No two rows share a key (`asfreq` refuses to reindex a duplicated index). */
  predicate UniqueKeys(rows: seq<Row>) {
    forall i, j :: 0 <= i < j < |rows| ==> rows[i].key != rows[j].key
  }

  /** The month of the earliest key. */
  function FirstMonth(rows: seq<Row>): (m: int)
    requires |rows| > 0
    ensures forall i :: 0 <= i < |rows| ==> m <= MonthOfKey(rows[i].key)
    ensures exists i :: 0 <= i < |rows| && MonthOfKey(rows[i].key) == m
  {
    if |rows| == 1 then MonthOfKey(rows[0].key)
    else
      var rest := FirstMonth(rows[1..]);
      assert forall i :: 1 <= i < |rows| ==> rows[i] == rows[1..][i - 1];
      if MonthOfKey(rows[0].key) <= rest then MonthOfKey(rows[0].key) else rest
  }

  /** The month of the latest key. */
  function LastMonth(rows: seq<Row>): (m: int)
    requires |rows| > 0
    ensures forall i :: 0 <= i < |rows| ==> MonthOfKey(rows[i].key) <= m
    ensures exists i :: 0 <= i < |rows| && MonthOfKey(rows[i].key) == m
  {
    if |rows| == 1 then MonthOfKey(rows[0].key)
    else
      var rest := LastMonth(rows[1..]);
      assert forall i :: 1 <= i < |rows| ==> rows[i] == rows[1..][i - 1];
      if MonthOfKey(rows[0].key) >= rest then MonthOfKey(rows[0].key) else rest
  }

  /** The bins: every month from the first to the last, in order; none for an empty table. */
  function Months(rows: seq<Row>): (ms: seq<int>)
    ensures |rows| == 0 ==> ms == []
    ensures |rows| > 0 ==> |ms| == LastMonth(rows) - FirstMonth(rows) + 1
    ensures forall i :: 0 <= i < |ms| ==> ms[i] == FirstMonth(rows) + i
    ensures forall i :: 0 <= i < |rows| ==> MonthOfKey(rows[i].key) - FirstMonth(rows) < |ms|
  {
    if |rows| == 0 then []
    else
      var lo := FirstMonth(rows);
      seq(LastMonth(rows) - lo + 1, i requires 0 <= i => lo + i)
  }

  /** A row's month lies in the bins, at position month - first month. */
  lemma MonthInBins(rows: seq<Row>, k: nat)
    requires k < |rows|
    ensures 0 <= MonthOfKey(rows[k].key) - FirstMonth(rows) < |Months(rows)|
    ensures Months(rows)[MonthOfKey(rows[k].key) - FirstMonth(rows)] == MonthOfKey(rows[k].key)
  {
  }

  /** Position of the first row with key `key`. */
  function FindKey(rows: seq<Row>, key: Key): (r: Option<nat>)
    ensures r.Some? ==> r.value < |rows| && rows[r.value].key == key
    ensures r.None? <==> forall i :: 0 <= i < |rows| ==> rows[i].key != key
  {
    if |rows| == 0 then None
    else if rows[0].key == key then Some(0)
    else
      match FindKey(rows[1..], key)
      case Some(i) => Some(i + 1)
      case None =>
        assert forall i :: 1 <= i < |rows| ==> rows[i] == rows[1..][i - 1];
        None
  }

  /** The cells of the row dated exactly `d`, or all missing when there is none. */
  function CellsOn(t: Table, d: Day): (cs: seq<Cell>)
    requires WellFormed(t)
    ensures |cs| == |t.columns|
  {
    match FindKey(t.rows, Stamp(d))
    case Some(i) => t.rows[i].cells
    case None => Repeat(Missing, |t.columns|)
  }

  /**
    `resample('MS').asfreq()`: one row per bin, keyed by the first day of the month, holding the
    row dated exactly that day or missing values; rows dated later in a month are dropped.
  */
  function AsFreq(t: Table): (r: Table)
    requires WellFormed(t) && Dated(t.rows) && UniqueKeys(t.rows)
    ensures WellFormed(r) && r.columns == t.columns
    ensures |r.rows| == |Months(t.rows)|
    ensures forall i :: 0 <= i < |r.rows| ==> r.rows[i].key == Stamp(MonthStart(Months(t.rows)[i]))
  {
    var ms := Months(t.rows);
    Table(t.columns, seq(|ms|, i requires 0 <= i < |ms| => Row(Stamp(MonthStart(ms[i])), CellsOn(t, MonthStart(ms[i])))))
  }

  /** The bins of a non-empty table run from the month start of the first month to that of the last. */
  lemma AsFreqEnds(t: Table)
    requires WellFormed(t) && Dated(t.rows) && UniqueKeys(t.rows) && |t.rows| > 0
    ensures FirstMonth(t.rows) <= LastMonth(t.rows)
    ensures |AsFreq(t).rows| == LastMonth(t.rows) - FirstMonth(t.rows) + 1
    ensures AsFreq(t).rows[0].key == Stamp(MonthStart(FirstMonth(t.rows)))
    ensures AsFreq(t).rows[|AsFreq(t).rows| - 1].key == Stamp(MonthStart(LastMonth(t.rows)))
  {
    var first, last := FirstMonth(t.rows), LastMonth(t.rows);
    assert first <= MonthOfKey(t.rows[0].key) <= last;
    var ms := Months(t.rows);
    var g := AsFreq(t);
    var n := |ms| - 1;
    assert n == last - first;
    assert ms[0] == first && ms[n] == last;
    assert g.rows[0].key == Stamp(MonthStart(ms[0]));
    assert |g.rows| - 1 == n;
    assert g.rows[n].key == Stamp(MonthStart(ms[n])) == Stamp(MonthStart(last));
  }

  /** A row dated on the first of its month reappears unchanged in its bin. */
  lemma AsFreqKeepsMonthStart(t: Table, k: nat)
    requires WellFormed(t) && Dated(t.rows) && UniqueKeys(t.rows)
    requires k < |t.rows| && t.rows[k].key.date.day == 1
    ensures var i := MonthOfKey(t.rows[k].key) - FirstMonth(t.rows);
      0 <= i < |AsFreq(t).rows| && AsFreq(t).rows[i] == t.rows[k]
  {
    var d := t.rows[k].key.date;
    var i := MonthOfKey(t.rows[k].key) - FirstMonth(t.rows);
    MonthInBins(t.rows, k);
    var g := AsFreq(t);
    assert g.rows[i] == t.rows[k] by {
      MonthStartOfDay(d);
      assert MonthStart(Months(t.rows)[i]) == d;
      var f := FindKey(t.rows, Stamp(d));
      assert f.Some? && t.rows[f.value].key == t.rows[k].key;
      assert f.value == k;
      assert g.rows[i] == Row(Stamp(d), CellsOn(t, d));
      assert CellsOn(t, d) == t.rows[k].cells;
      assert t.rows[k] == Row(Stamp(d), t.rows[k].cells);
    }
  }

  /** A bin with no row dated on its first day holds only missing values. */
  lemma AsFreqGap(t: Table, i: nat)
    requires WellFormed(t) && Dated(t.rows) && UniqueKeys(t.rows)
    requires i < |AsFreq(t).rows|
    requires forall k :: 0 <= k < |t.rows| ==> t.rows[k].key != AsFreq(t).rows[i].key
    ensures forall j :: 0 <= j < |t.columns| ==> AsFreq(t).rows[i].cells[j] == Missing
  {
  }

  /** Chronological order of the rows at positions `a` and `b` of one month: by day, then by position. */
  predicate NotAfter(rows: seq<Row>, a: nat, b: nat)
    requires a < |rows| && b < |rows|
  {
    DayOfKey(rows[a].key) < DayOfKey(rows[b].key) || (DayOfKey(rows[a].key) == DayOfKey(rows[b].key) && a <= b)
  }

  /** The row at `i` lies in month `m` and has a value in column `j`. */
  predicate Candidate(rows: seq<Row>, m: int, j: nat, i: nat)
    requires i < |rows| && j < |rows[i].cells|
  {
    MonthOfKey(rows[i].key) == m && Present(rows[i].cells[j])
  }

  /**
    Among the first `n` rows, the chronologically last one of month `m` with a value in column `j`
    (resample sorts by date without reordering equal dates).
  */
  function LastValid(rows: seq<Row>, m: int, j: nat, n: nat): (r: Option<nat>)
    requires n <= |rows| && forall i :: 0 <= i < |rows| ==> j < |rows[i].cells|
    ensures r.Some? ==> r.value < n && Candidate(rows, m, j, r.value)
    ensures r.Some? ==> forall i :: 0 <= i < n && Candidate(rows, m, j, i) ==> NotAfter(rows, i, r.value)
    ensures r.None? <==> forall i :: 0 <= i < n ==> !Candidate(rows, m, j, i)
  {
    if n == 0 then None
    else
      var prev := LastValid(rows, m, j, n - 1);
      if Candidate(rows, m, j, n - 1) && (prev.None? || DayOfKey(rows[prev.value].key) <= DayOfKey(rows[n - 1].key))
      then Some(n - 1)
      else prev
  }

  /** `resample('ME').last()` for month `m`, column `j`: the last value present, else missing. */
  function LastIn(t: Table, m: int, j: nat): Cell
    requires WellFormed(t) && j < |t.columns|
  {
    match LastValid(t.rows, m, j, |t.rows|)
    case Some(i) => t.rows[i].cells[j]
    case None => Missing
  }

  /** `resample('ME').last()`: one row per bin keyed by the month's last day. */
  function LastPerMonth(t: Table): (r: Table)
    requires WellFormed(t)
    ensures WellFormed(r) && r.columns == t.columns
    ensures |r.rows| == |Months(t.rows)|
    ensures forall i :: 0 <= i < |r.rows| ==> r.rows[i].key == Stamp(MonthEnd(Months(t.rows)[i]))
  {
    var ms := Months(t.rows);
    Table(t.columns, seq(|ms|, i requires 0 <= i < |ms| =>
      Row(Stamp(MonthEnd(ms[i])), seq(|t.columns|, j requires 0 <= j < |t.columns| => LastIn(t, ms[i], j)))))
  }

  /**
    A month's cell is missing exactly when no row of that month has a value in the column;
    otherwise it is the value of a row of that month that no other such row follows.
  */
  lemma LastPerMonthSpec(t: Table, i: nat, j: nat)
    requires WellFormed(t) && i < |Months(t.rows)| && j < |t.columns|
    ensures var m := Months(t.rows)[i];
      var c := LastPerMonth(t).rows[i].cells[j];
      (c == Missing <==> forall k :: 0 <= k < |t.rows| ==> !Candidate(t.rows, m, j, k))
      && (c != Missing ==> exists b :: (0 <= b < |t.rows| && Candidate(t.rows, m, j, b) && c == t.rows[b].cells[j]
            && forall k :: 0 <= k < |t.rows| && Candidate(t.rows, m, j, k) ==> NotAfter(t.rows, k, b)))
  {
    var m := Months(t.rows)[i];
    var lv := LastValid(t.rows, m, j, |t.rows|);
    if lv.Some? {
      assert Present(t.rows[lv.value].cells[j]);
    }
  }

  /** When the rows are in date order, the last value of a month is that of the latest row with one. */
  lemma LastPerMonthSorted(t: Table, i: nat, j: nat, b: nat)
    requires WellFormed(t) && i < |Months(t.rows)| && j < |t.columns|
    requires forall p, q :: 0 <= p < q < |t.rows| && MonthOfKey(t.rows[p].key) == MonthOfKey(t.rows[q].key) ==>
      DayOfKey(t.rows[p].key) <= DayOfKey(t.rows[q].key)
    requires b < |t.rows| && Candidate(t.rows, Months(t.rows)[i], j, b)
    requires forall k :: b < k < |t.rows| ==> !Candidate(t.rows, Months(t.rows)[i], j, k)
    ensures LastPerMonth(t).rows[i].cells[j] == t.rows[b].cells[j]
  {
    var m := Months(t.rows)[i];
    var lv := LastValid(t.rows, m, j, |t.rows|);
    assert lv.Some?;
    assert NotAfter(t.rows, b, lv.value);
  }

  /** Sum and count of the numbers of month `m` in column `j` among the first `n` rows. */
  function MonthSum(rows: seq<Row>, m: int, j: nat, n: nat): real
    requires n <= |rows| && forall i :: 0 <= i < |rows| ==> j < |rows[i].cells|
  {
    if n == 0 then 0.0
    else if MonthOfKey(rows[n - 1].key) == m && rows[n - 1].cells[j].Num? then MonthSum(rows, m, j, n - 1) + rows[n - 1].cells[j].x
    else MonthSum(rows, m, j, n - 1)
  }

  function MonthCount(rows: seq<Row>, m: int, j: nat, n: nat): nat
    requires n <= |rows| && forall i :: 0 <= i < |rows| ==> j < |rows[i].cells|
  {
    if n == 0 then 0
    else if MonthOfKey(rows[n - 1].key) == m && rows[n - 1].cells[j].Num? then MonthCount(rows, m, j, n - 1) + 1
    else MonthCount(rows, m, j, n - 1)
  }

  /** `resample('ME').mean()` for month `m`, column `j`: the mean of its numbers, missing when it has none. */
  function MeanIn(t: Table, m: int, j: nat): (r: Cell)
    requires WellFormed(t) && j < |t.columns|
    ensures r.Num? || r == Missing
    ensures r.Num? ==> r.x * MonthCount(t.rows, m, j, |t.rows|) as real == MonthSum(t.rows, m, j, |t.rows|)
  {
    var n := MonthCount(t.rows, m, j, |t.rows|);
    if n == 0 then Missing else Num(MonthSum(t.rows, m, j, |t.rows|) / n as real)
  }

  /** `resample('ME').mean()`: one row per bin keyed by the month's last day. */
  function MeanPerMonth(t: Table): (r: Table)
    requires WellFormed(t)
    ensures WellFormed(r) && r.columns == t.columns
    ensures |r.rows| == |Months(t.rows)|
    ensures forall i :: 0 <= i < |r.rows| ==> r.rows[i].key == Stamp(MonthEnd(Months(t.rows)[i]))
  {
    var ms := Months(t.rows);
    Table(t.columns, seq(|ms|, i requires 0 <= i < |ms| =>
      Row(Stamp(MonthEnd(ms[i])), seq(|t.columns|, j requires 0 <= j < |t.columns| => MeanIn(t, ms[i], j)))))
  }

  /** `c` values between `lo` and `hi` have a sum `s` between c * lo and c * hi. */
  predicate Within(c: real, s: real, lo: real, hi: real) {
    c * lo <= s <= c * hi
  }

  /** Numbers of the month bounded by `lo` and `hi` give a sum between count * lo and count * hi. */
  lemma {:induction false} MonthSumBounds(rows: seq<Row>, m: int, j: nat, n: nat, lo: real, hi: real)
    requires n <= |rows| && forall i :: 0 <= i < |rows| ==> j < |rows[i].cells|
    requires forall i :: 0 <= i < n && MonthOfKey(rows[i].key) == m && rows[i].cells[j].Num? ==>
      lo <= rows[i].cells[j].x <= hi
    ensures Within(MonthCount(rows, m, j, n) as real, MonthSum(rows, m, j, n), lo, hi)
  {
    if n == 0 {
      assert MonthCount(rows, m, j, n) == 0 && MonthSum(rows, m, j, n) == 0.0;
    } else {
      MonthSumBounds(rows, m, j, n - 1, lo, hi);
      var c, s := MonthCount(rows, m, j, n - 1), MonthSum(rows, m, j, n - 1);
      if MonthOfKey(rows[n - 1].key) == m && rows[n - 1].cells[j].Num? {
        var x := rows[n - 1].cells[j].x;
        StepBounds(c as real, s, x, lo, hi, MonthCount(rows, m, j, n) as real, MonthSum(rows, m, j, n));
      } else {
        assert MonthCount(rows, m, j, n) == c && MonthSum(rows, m, j, n) == s;
      }
    }
  }

  /** Adding one more value between `lo` and `hi` keeps a sum of `c` such values within bounds. */
  lemma StepBounds(c: real, s: real, x: real, lo: real, hi: real, c': real, s': real)
    requires Within(c, s, lo, hi) && lo <= x <= hi
    requires c' == c + 1.0 && s' == s + x
    ensures Within(c', s', lo, hi)
  {
    assert c' * lo == c * lo + lo && c' * hi == c * hi + hi;
  }

  /** A month with no number has count 0; a count of 0 means no number. */
  lemma {:induction false} MonthCountZero(rows: seq<Row>, m: int, j: nat, n: nat)
    requires n <= |rows| && forall i :: 0 <= i < |rows| ==> j < |rows[i].cells|
    ensures MonthCount(rows, m, j, n) == 0 <==>
      forall i :: 0 <= i < n ==> !(MonthOfKey(rows[i].key) == m && rows[i].cells[j].Num?)
  {
    if n > 0 {
      MonthCountZero(rows, m, j, n - 1);
    }
  }

  /**
    The monthly mean is missing exactly when the month has no number, and otherwise lies between
    any bounds of the month's numbers (so a month of equal numbers has that number as mean).
  */
  lemma MeanPerMonthSpec(t: Table, i: nat, j: nat, lo: real, hi: real)
    requires WellFormed(t) && i < |Months(t.rows)| && j < |t.columns|
    requires forall k :: 0 <= k < |t.rows| && MonthOfKey(t.rows[k].key) == Months(t.rows)[i] && t.rows[k].cells[j].Num? ==>
      lo <= t.rows[k].cells[j].x <= hi
    ensures var c := MeanPerMonth(t).rows[i].cells[j];
      (c == Missing <==> forall k :: 0 <= k < |t.rows| ==> !(MonthOfKey(t.rows[k].key) == Months(t.rows)[i] && t.rows[k].cells[j].Num?))
      && (c != Missing ==> c.Num? && lo <= c.x <= hi)
  {
    var m := Months(t.rows)[i];
    assert MeanPerMonth(t).rows[i].cells[j] == MeanIn(t, m, j);
    MeanInSpec(t, m, j, lo, hi);
  }

  /** The mean of month `m`, column `j`, on the rows themselves. */
  lemma MeanInSpec(t: Table, m: int, j: nat, lo: real, hi: real)
    requires WellFormed(t) && j < |t.columns|
    requires forall k :: 0 <= k < |t.rows| && MonthOfKey(t.rows[k].key) == m && t.rows[k].cells[j].Num? ==>
      lo <= t.rows[k].cells[j].x <= hi
    ensures MeanIn(t, m, j) == Missing <==> forall k :: 0 <= k < |t.rows| ==> !(MonthOfKey(t.rows[k].key) == m && t.rows[k].cells[j].Num?)
    ensures MeanIn(t, m, j) != Missing ==> MeanIn(t, m, j).Num? && lo <= MeanIn(t, m, j).x <= hi
  {
    MonthCountZero(t.rows, m, j, |t.rows|);
    MonthSumBounds(t.rows, m, j, |t.rows|, lo, hi);
    var n := MonthCount(t.rows, m, j, |t.rows|);
    if n > 0 {
      QuotientBetween(MonthSum(t.rows, m, j, |t.rows|), n as real, lo, hi);
    }
  }

  /** A sum between c * lo and c * hi, divided by c > 0, lies between lo and hi. */
  lemma QuotientBetween(s: real, c: real, lo: real, hi: real)
    requires c > 0.0 && Within(c, s, lo, hi)
    ensures lo <= s / c <= hi
  {
    assert (s / c) * c == s;
  }

  /** Key order: by month, then by day (chronological for timestamps). */
  predicate KeyLe(a: Key, b: Key) {
    MonthOfKey(a) < MonthOfKey(b) || (MonthOfKey(a) == MonthOfKey(b) && DayOfKey(a) <= DayOfKey(b))
  }

  predicate SortedByKey(rows: seq<Row>) {
    forall i, j :: 0 <= i < j < |rows| ==> KeyLe(rows[i].key, rows[j].key)
  }

  /** `x` inserted into sorted `s` after every row not later than it. */
  function InsertByKey(x: Row, s: seq<Row>): (r: seq<Row>)
    requires SortedByKey(s)
    ensures SortedByKey(r) && multiset(r) == multiset(s) + multiset{x}
  {
    if |s| == 0 then [x]
    else if KeyLe(s[0].key, x.key) then
      var rest := InsertByKey(x, s[1..]);
      assert s == [s[0]] + s[1..];
      HeadBelow(x, s, rest);
      SortedCons(s[0], rest);
      [s[0]] + rest
    else
      [x] + s
  }

  /** The head of sorted `s`, not later than `x`, is not later than any row of `x` inserted in the tail. */
  lemma HeadBelow(x: Row, s: seq<Row>, rest: seq<Row>)
    requires SortedByKey(s) && |s| > 0 && KeyLe(s[0].key, x.key)
    requires multiset(rest) == multiset(s[1..]) + multiset{x}
    ensures forall k :: 0 <= k < |rest| ==> KeyLe(s[0].key, rest[k].key)
  {
    forall k | 0 <= k < |rest|
      ensures KeyLe(s[0].key, rest[k].key)
    {
      assert rest[k] in multiset(rest);
      if rest[k] != x {
        assert rest[k] in multiset(s[1..]);
        var q :| 0 <= q < |s[1..]| && s[1..][q] == rest[k];
        assert s[q + 1] == rest[k];
      }
    }
  }

  /** A row not later than every row of a sorted sequence can be put in front of it. */
  lemma SortedCons(h: Row, rest: seq<Row>)
    requires SortedByKey(rest) && forall k :: 0 <= k < |rest| ==> KeyLe(h.key, rest[k].key)
    ensures SortedByKey([h] + rest)
  {
    var r := [h] + rest;
    forall p, q | 0 <= p < q < |r|
      ensures KeyLe(r[p].key, r[q].key)
    {
      assert r[q] == rest[q - 1];
      if p > 0 {
        assert r[p] == rest[p - 1];
      }
    }
  }

  /** `sort_index()`: the rows in date order, the same rows as before. */
  function SortByKey(s: seq<Row>): (r: seq<Row>)
    ensures SortedByKey(r) && multiset(r) == multiset(s)
  {
    if |s| == 0 then []
    else
      assert s == [s[0]] + s[1..];
      InsertByKey(s[0], SortByKey(s[1..]))
  }
}
