/**
  `merge_datasets`: every frame's `Date` column is turned into monthly periods in place, then
  the frames are folded left to right with `pd.merge(left, right, on='Date', how='left')`.
  A left merge keeps every left row in order; a left row whose month appears in several right
  rows is repeated once per match, and a left row with no match gets missing cells for the
  right frame's columns.
*/
module Merge {
  import opened Common
  import opened Frames
  import opened Resample

  /** `df['Date'].dt.to_period('M')` on every row of a timestamp column; cells unchanged. */
  function PeriodRows(rows: seq<Row>): (r: seq<Row>)
    requires Dated(rows)
    ensures |r| == |rows|
    ensures forall i :: 0 <= i < |rows| ==> r[i] == Row(ToPeriod(rows[i].key), rows[i].cells)
  {
    seq(|rows|, i requires 0 <= i < |rows| => Row(ToPeriod(rows[i].key), rows[i].cells))
  }

  /** A converted column holds periods, so it is a timestamp column again only when it is empty. */
  lemma PeriodRowsNotDated(rows: seq<Row>)
    requires Dated(rows)
    ensures Dated(PeriodRows(rows)) <==> rows == []
  {
    if rows != [] {
      assert !PeriodRows(rows)[0].key.Stamp?;
    }
  }

  /** The right rows whose key is `k`, in right order. */
  function Matches(rows: seq<Row>, k: Key): (r: seq<Row>)
    ensures |r| <= |rows|
    ensures forall x :: x in r <==> x in rows && x.key == k
  {
    if rows == [] then []
    else
      var rest := Matches(rows[1..], k);
      assert rows == [rows[0]] + rows[1..];
      if rows[0].key == k then [rows[0]] + rest else rest
  }

  /** The output rows of one left row: one per matching right row, or one padded with missing cells. */
  function JoinOne(l: Row, right: Table): (r: seq<Row>)
    ensures |r| >= 1
  {
    var ms := Matches(right.rows, l.key);
    if ms == [] then [Row(l.key, l.cells + Repeat(Missing, |right.columns|))]
    else seq(|ms|, i requires 0 <= i < |ms| => Row(l.key, l.cells + ms[i].cells))
  }

  function JoinRows(ls: seq<Row>, right: Table): seq<Row> {
    if ls == [] then [] else JoinOne(ls[0], right) + JoinRows(ls[1..], right)
  }

  /** `pd.merge(left, right, on='Date', how='left')`: the right frame's columns follow the left's. */
  function LeftJoin(left: Table, right: Table): (t: Table)
    requires WellFormed(left) && WellFormed(right)
    ensures WellFormed(t) && t.columns == left.columns + right.columns
  {
    JoinRowsShape(left.rows, right, |left.columns|);
    Table(left.columns + right.columns, JoinRows(left.rows, right))
  }

  lemma {:induction false} JoinRowsShape(ls: seq<Row>, right: Table, n: nat)
    requires WellFormed(right) && forall i :: 0 <= i < |ls| ==> |ls[i].cells| == n
    ensures forall x :: x in JoinRows(ls, right) ==> |x.cells| == n + |right.columns|
    ensures forall i :: 0 <= i < |JoinRows(ls, right)| ==> |JoinRows(ls, right)[i].cells| == n + |right.columns|
  {
    if ls != [] {
      JoinRowsShape(ls[1..], right, n);
      var ms := Matches(right.rows, ls[0].key);
      forall x | x in ms
        ensures |x.cells| == |right.columns|
      {
        var q :| 0 <= q < |right.rows| && right.rows[q] == x;
      }
    }
  }

  /** A left merge never drops a left row, and every output row carries a left key. */
  lemma {:induction false} JoinRowsKeepsLeft(ls: seq<Row>, right: Table)
    ensures |JoinRows(ls, right)| >= |ls|
    ensures forall x :: x in JoinRows(ls, right) ==> x.key in KeysOf(ls)
  {
    if ls != [] {
      JoinRowsKeepsLeft(ls[1..], right);
      assert KeysOf(ls) == [ls[0].key] + KeysOf(ls[1..]);
    }
  }

  function KeysOf(rows: seq<Row>): (ks: seq<Key>)
    ensures |ks| == |rows| && forall i :: 0 <= i < |rows| ==> ks[i] == rows[i].key
  {
    seq(|rows|, i requires 0 <= i < |rows| => rows[i].key)
  }

  /** With unique right keys, a month has at most one match, and it is the right row holding it. */
  lemma {:induction false} MatchesUnique(rows: seq<Row>, k: Key)
    requires UniqueKeys(rows)
    ensures k !in KeysOf(rows) ==> Matches(rows, k) == []
    ensures forall q :: 0 <= q < |rows| && rows[q].key == k ==> Matches(rows, k) == [rows[q]]
  {
    if k !in KeysOf(rows) {
      MatchesNone(rows, k);
    }
    if rows != [] {
      var tail := rows[1..];
      MatchesUnique(tail, k);
      if rows[0].key == k {
        assert k !in KeysOf(tail) by {
          forall p | 0 <= p < |tail|
            ensures tail[p].key != k
          {
            assert tail[p] == rows[p + 1];
          }
        }
        MatchesNone(tail, k);
      } else {
        forall q | 0 < q < |rows| && rows[q].key == k
          ensures Matches(rows, k) == [rows[q]]
        {
          assert tail[q - 1] == rows[q];
        }
      }
    }
  }

  /** A key no right row holds has no match. */
  lemma MatchesNone(rows: seq<Row>, k: Key)
    requires k !in KeysOf(rows)
    ensures Matches(rows, k) == []
  {
    forall x | x in rows
      ensures x.key != k
    {
      var p :| 0 <= p < |rows| && rows[p] == x;
      assert KeysOf(rows)[p] == x.key;
    }
  }

  /** The cells a left row with key `k` receives from a right frame whose keys are unique. */
  function RightCells(k: Key, right: Table): seq<Cell> {
    var ms := Matches(right.rows, k);
    if ms == [] then Repeat(Missing, |right.columns|) else ms[0].cells
  }

  /** The one row a left row becomes when the right keys are unique. */
  function Looked(l: Row, right: Table): Row {
    Row(l.key, l.cells + RightCells(l.key, right))
  }

  /** With unique right keys a left row becomes exactly one row. */
  lemma JoinOneUnique(l: Row, right: Table)
    requires UniqueKeys(right.rows)
    ensures JoinOne(l, right) == [Looked(l, right)]
  {
    MatchesUnique(right.rows, l.key);
    var ms := Matches(right.rows, l.key);
    if ms != [] {
      var q :| 0 <= q < |right.rows| && right.rows[q] == ms[0];
    }
  }

  /** With unique right keys the merge keeps the left row count. */
  lemma {:induction false} JoinRowsLength(ls: seq<Row>, right: Table)
    requires UniqueKeys(right.rows)
    ensures |JoinRows(ls, right)| == |ls|
  {
    if ls != [] {
      JoinRowsLength(ls[1..], right);
      JoinOneUnique(ls[0], right);
    }
  }

  /** With unique right keys row `i` of the merge is left row `i` followed by its lookup. */
  lemma {:induction false} JoinRowsAt(ls: seq<Row>, right: Table, i: nat)
    requires UniqueKeys(right.rows) && i < |ls|
    ensures |JoinRows(ls, right)| == |ls| && JoinRows(ls, right)[i] == Looked(ls[i], right)
  {
    JoinRowsLength(ls, right);
    JoinOneUnique(ls[0], right);
    var rest := JoinRows(ls[1..], right);
    assert JoinRows(ls, right) == [Looked(ls[0], right)] + rest;
    if i > 0 {
      JoinRowsAt(ls[1..], right, i - 1);
      assert ls[1..][i - 1] == ls[i];
    }
  }

  lemma JoinRowsUnique(ls: seq<Row>, right: Table)
    requires UniqueKeys(right.rows)
    ensures |JoinRows(ls, right)| == |ls|
    ensures forall i :: 0 <= i < |ls| ==> JoinRows(ls, right)[i] == Looked(ls[i], right)
  {
    JoinRowsLength(ls, right);
    forall i | 0 <= i < |ls|
      ensures JoinRows(ls, right)[i] == Looked(ls[i], right)
    {
      JoinRowsAt(ls, right, i);
    }
  }

  /**
    With unique right keys the left merge is a lookup: the same rows in the same key order as
    the left frame, the left cells unchanged, then the matching right row's cells, or missing
    cells when the month is absent from the right frame.
  */
  lemma LeftJoinUnique(left: Table, right: Table)
    requires WellFormed(left) && WellFormed(right) && UniqueKeys(right.rows)
    ensures var t := LeftJoin(left, right);
      |t.rows| == |left.rows| && Keys(t) == Keys(left)
      && (forall i :: 0 <= i < |left.rows| ==> t.rows[i].cells[..|left.columns|] == left.rows[i].cells)
      && (forall i, q :: 0 <= i < |left.rows| && 0 <= q < |right.rows| && right.rows[q].key == left.rows[i].key ==>
            t.rows[i].cells[|left.columns|..] == right.rows[q].cells)
      && (forall i :: 0 <= i < |left.rows| && left.rows[i].key !in Keys(right) ==>
            t.rows[i].cells[|left.columns|..] == Repeat(Missing, |right.columns|))
  {
    var t := LeftJoin(left, right);
    JoinRowsUnique(left.rows, right);
    assert Keys(right) == KeysOf(right.rows);
    forall i | 0 <= i < |left.rows|
      ensures t.rows[i].cells[..|left.columns|] == left.rows[i].cells
      ensures t.rows[i].cells[|left.columns|..] == RightCells(left.rows[i].key, right)
    {
      assert t.rows[i].cells == left.rows[i].cells + RightCells(left.rows[i].key, right);
    }
    forall i, q | 0 <= i < |left.rows| && 0 <= q < |right.rows| && right.rows[q].key == left.rows[i].key
      ensures RightCells(left.rows[i].key, right) == right.rows[q].cells
    {
      MatchesUnique(right.rows, left.rows[i].key);
    }
    forall i | 0 <= i < |left.rows| && left.rows[i].key !in Keys(right)
      ensures RightCells(left.rows[i].key, right) == Repeat(Missing, |right.columns|)
    {
      MatchesUnique(right.rows, left.rows[i].key);
    }
  }

  /** A left row whose month sits in two right rows comes out twice, once per match. */
  lemma LeftJoinRepeatsOnDuplicates(m: int, a: Cell, b1: Cell, b2: Cell)
    ensures var left := Table(["l"], [Row(Period(m), [a])]);
      var right := Table(["r"], [Row(Period(m), [b1]), Row(Period(m), [b2])]);
      LeftJoin(left, right).rows == [Row(Period(m), [a, b1]), Row(Period(m), [a, b2])]
  {
    var left := Table(["l"], [Row(Period(m), [a])]);
    var right := Table(["r"], [Row(Period(m), [b1]), Row(Period(m), [b2])]);
    assert right.rows[1..] == [Row(Period(m), [b2])];
    assert right.rows[1..][1..] == [];
    assert Matches(right.rows, Period(m)) == right.rows;
    var out := JoinOne(left.rows[0], right);
    assert [a] + [b1] == [a, b1] && [a] + [b2] == [a, b2];
    assert |out| == 2 && out[0] == Row(Period(m), [a, b1]) && out[1] == Row(Period(m), [a, b2]);
    assert left.rows[1..] == [];
    assert JoinRows(left.rows, right) == out + JoinRows([], right);
  }

  /** Every frame in the list has one cell per column in every row. */
  predicate AllWellFormed(ts: seq<Table>) {
    forall j :: 0 <= j < |ts| ==> WellFormed(ts[j])
  }

  /** `reduce(lambda left, right: pd.merge(left, right, ...), dfs)`: a left fold anchored on the first frame. */
  function MergeAll(ts: seq<Table>): (t: Table)
    requires |ts| >= 1 && AllWellFormed(ts)
    ensures WellFormed(t)
  {
    if |ts| == 1 then ts[0] else LeftJoin(MergeAll(ts[..|ts| - 1]), ts[|ts| - 1])
  }

  /** The columns of every frame, in list order. */
  function AllColumns(ts: seq<Table>): (cs: seq<string>)
    ensures |ts| >= 1 ==> |ts[0].columns| <= |cs| && cs[..|ts[0].columns|] == ts[0].columns
  {
    if ts == [] then []
    else
      var init := ts[..|ts| - 1];
      assert |ts| > 1 ==> init[0] == ts[0];
      AllColumns(init) + ts[|ts| - 1].columns
  }

  /**
    When every frame after the first has unique months, the merged panel has exactly the rows
    of the first frame, in its key order, with its cells unchanged as the leading columns; the
    columns are all frames' columns in list order.
  */
  lemma {:induction false} MergeAllAnchored(ts: seq<Table>)
    requires |ts| >= 1 && AllWellFormed(ts)
    requires forall j :: 1 <= j < |ts| ==> UniqueKeys(ts[j].rows)
    ensures var t := MergeAll(ts);
      |t.rows| == |ts[0].rows| && Keys(t) == Keys(ts[0]) && t.columns == AllColumns(ts)
      && forall i :: 0 <= i < |ts[0].rows| ==> t.rows[i].cells[..|ts[0].columns|] == ts[0].rows[i].cells
  {
    if |ts| == 1 {
      assert AllColumns(ts) == AllColumns([]) + ts[0].columns;
    } else {
      var init := ts[..|ts| - 1];
      assert init[0] == ts[0];
      assert forall j :: 1 <= j < |init| ==> init[j] == ts[j];
      MergeAllAnchored(init);
      var acc := MergeAll(init);
      LeftJoinUnique(acc, ts[|ts| - 1]);
      forall i | 0 <= i < |ts[0].rows|
        ensures MergeAll(ts).rows[i].cells[..|ts[0].columns|] == ts[0].rows[i].cells
      {
        assert MergeAll(ts).rows[i].cells[..|acc.columns|] == acc.rows[i].cells;
        assert acc.rows[i].cells[..|ts[0].columns|] == ts[0].rows[i].cells;
      }
    }
  }

  /** The current contents of every frame in the list. */
  function Snapshots(dfs: seq<Frame>): (ts: seq<Table>)
    reads set f | f in dfs
    ensures |ts| == |dfs| && forall j :: 0 <= j < |dfs| ==> ts[j] == dfs[j].Snapshot()
  {
    if dfs == [] then [] else [dfs[0].Snapshot()] + Snapshots(dfs[1..])
  }

  /**
    The loop at lines 160-161 runs to the end without raising: every frame's `Date` column holds
    timestamps, and a frame listed twice is empty (its second pass sees the periods the first pass
    wrote, and `.dt.to_period` raises on a period column).
  */
  predicate Convertible(dfs: seq<Frame>, ts: seq<Table>)
    requires |ts| == |dfs|
  {
    && (forall j :: 0 <= j < |dfs| ==> Dated(ts[j].rows))
    && (forall j, k :: 0 <= j < k < |dfs| && dfs[j] == dfs[k] ==> ts[j].rows == [])
  }

  /**
    The state of the frames after the loop at lines 160-161 has converted the first `i` of them,
    where `ts` are their contents before the loop: the converted frames held timestamps and now
    hold periods, a frame met twice so far was empty, and the frames not met yet are unchanged.
  */
  ghost predicate Progress(dfs: seq<Frame>, ts: seq<Table>, i: nat)
    reads set f | f in dfs
  {
    && |ts| == |dfs| && i <= |dfs|
    && (forall j :: 0 <= j < |dfs| ==> dfs[j].columns == ts[j].columns)
    && (forall j :: 0 <= j < i ==> Dated(ts[j].rows) && dfs[j].rows == PeriodRows(ts[j].rows))
    && (forall j, k :: 0 <= j < k < i && dfs[j] == dfs[k] ==> ts[j].rows == [])
    && (forall j :: i <= j < |dfs| ==>
          (forall k :: 0 <= k < i ==> dfs[k] != dfs[j]) ==> dfs[j].rows == ts[j].rows)
  }

  /** One pass of the loop at lines 160-161, on a frame whose column holds timestamps. */
  method ConvertOne(dfs: seq<Frame>, ghost ts: seq<Table>, i: nat)
    requires Progress(dfs, ts, i) && i < |dfs| && Dated(dfs[i].rows)
    requires forall j, k :: 0 <= j < k < |dfs| && dfs[j] == dfs[k] ==> ts[j] == ts[k]
    modifies dfs[i]
    ensures Progress(dfs, ts, i + 1)
  {
    ghost var repeated := exists j :: 0 <= j < i && dfs[j] == dfs[i];
    if repeated {
      var j :| 0 <= j < i && dfs[j] == dfs[i];
      PeriodRowsNotDated(ts[j].rows);
    }
    assert Dated(ts[i].rows) && PeriodRows(dfs[i].rows) == PeriodRows(ts[i].rows);
    label Before:
    dfs[i].rows := PeriodRows(dfs[i].rows);
    forall j | 0 <= j < |dfs|
      ensures dfs[j].rows == if dfs[j] == dfs[i] then PeriodRows(ts[i].rows) else old@Before(dfs[j].rows)
    {
    }
    forall j | 0 <= j < i + 1
      ensures Dated(ts[j].rows) && dfs[j].rows == PeriodRows(ts[j].rows)
    {
      if dfs[j] == dfs[i] {
        assert ts[j] == ts[i];
      }
    }
    forall j, k | 0 <= j < k < i + 1 && dfs[j] == dfs[k]
      ensures ts[j].rows == []
    {
      if k == i {
        assert repeated;
      }
    }
  }

  /** A pass that meets a column not all timestamps means the loop could not have run through. */
  lemma StuckMeansNotConvertible(dfs: seq<Frame>, ts: seq<Table>, i: nat)
    requires Progress(dfs, ts, i) && i < |dfs| && !Dated(dfs[i].rows)
    ensures !Convertible(dfs, ts)
  {
    if exists j :: 0 <= j < i && dfs[j] == dfs[i] {
      var j :| 0 <= j < i && dfs[j] == dfs[i];
      PeriodRowsNotDated(ts[j].rows);
    } else {
      assert !Dated(ts[i].rows);
    }
  }

  /**
    Lines 160-161: every frame's keys become monthly periods in place, in list order. The loop
    stops at the first frame whose `Date` column is not all timestamps and reports its position;
    the frames before it stay converted.
  */
  method ConvertToPeriods(dfs: seq<Frame>) returns (failed: Option<nat>)
    modifies set f | f in dfs
    ensures failed.None? <==> Convertible(dfs, old(Snapshots(dfs)))
    ensures forall j :: 0 <= j < |dfs| ==> dfs[j].columns == old(dfs[j].columns)
    ensures failed.None? ==> forall j :: 0 <= j < |dfs| ==>
      Dated(old(dfs[j].rows)) && dfs[j].rows == PeriodRows(old(dfs[j].rows))
    ensures failed.Some? ==> failed.value < |dfs| && !Dated(dfs[failed.value].rows)
    ensures failed.Some? ==> forall j :: 0 <= j < failed.value ==>
      Dated(old(dfs[j].rows)) && dfs[j].rows == PeriodRows(old(dfs[j].rows))
    ensures failed.Some? ==> forall j :: failed.value <= j < |dfs| ==>
      (forall k :: 0 <= k < failed.value ==> dfs[k] != dfs[j]) ==> dfs[j].rows == old(dfs[j].rows)
  {
    ghost var ts := Snapshots(dfs);
    var i := 0;
    while i < |dfs|
      invariant i <= |dfs| && Progress(dfs, ts, i)
    {
      if !Dated(dfs[i].rows) {
        StuckMeansNotConvertible(dfs, ts, i);
        return Some(i);
      }
      ConvertOne(dfs, ts, i);
      i := i + 1;
    }
    return None;
  }

  /**
    `merge_datasets`: every frame's keys become monthly periods in place (the callers' frames
    change); the result is the left fold of the converted frames. With a single frame the result
    is that frame itself, as `reduce` returns it. When the conversion raises, the error names the
    frame it stopped at and the frames before it stay converted.
  */
  method MergeDatasets(dfs: seq<Frame>) returns (r: Result<Frame, nat>)
    requires |dfs| >= 1
    requires forall j :: 0 <= j < |dfs| ==> WellFormed(dfs[j].Snapshot())
    modifies set f | f in dfs
    ensures r.Ok? <==> Convertible(dfs, old(Snapshots(dfs)))
    ensures forall j :: 0 <= j < |dfs| ==> dfs[j].columns == old(dfs[j].columns)
    ensures r.Ok? ==> forall j :: 0 <= j < |dfs| ==>
      Dated(old(dfs[j].rows)) && dfs[j].rows == PeriodRows(old(dfs[j].rows))
    ensures r.Ok? ==> AllWellFormed(Snapshots(dfs)) && r.value.Snapshot() == MergeAll(Snapshots(dfs))
    ensures r.Ok? && |dfs| == 1 ==> r.value == dfs[0]
    ensures r.Ok? && |dfs| > 1 ==> fresh(r.value)
    ensures r.Err? ==> r.error < |dfs| && !Dated(dfs[r.error].rows)
    ensures r.Err? ==> forall j :: 0 <= j < r.error ==>
      Dated(old(dfs[j].rows)) && dfs[j].rows == PeriodRows(old(dfs[j].rows))
    ensures r.Err? ==> forall j :: r.error <= j < |dfs| ==>
      (forall k :: 0 <= k < r.error ==> dfs[k] != dfs[j]) ==> dfs[j].rows == old(dfs[j].rows)
  {
    var failed := ConvertToPeriods(dfs);
    if failed.Some? {
      return Err(failed.value);
    }
    ghost var ts := Snapshots(dfs);
    assert AllWellFormed(ts) by {
      forall j | 0 <= j < |dfs|
        ensures WellFormed(ts[j])
      {
        assert WellFormed(old(dfs[j].Snapshot()));
      }
    }
    if |dfs| == 1 {
      r := Ok(dfs[0]);
    } else {
      var merged := FoldMerge(dfs);
      r := Ok(merged);
    }
  }

  /** Line 162: `reduce` over two or more frames, each step a left merge on the index. */
  method FoldMerge(dfs: seq<Frame>) returns (merged: Frame)
    requires |dfs| >= 2 && AllWellFormed(Snapshots(dfs))
    ensures fresh(merged) && merged.Snapshot() == MergeAll(Snapshots(dfs))
  {
    ghost var ts := Snapshots(dfs);
    var acc := dfs[0].Snapshot();
    assert ts[..1] == [ts[0]];
    for i := 1 to |dfs|
      invariant acc == MergeAll(ts[..i])
    {
      assert ts[..i + 1][..i] == ts[..i];
      acc := LeftJoin(acc, dfs[i].Snapshot());
    }
    assert ts[..|dfs|] == ts;
    merged := new Frame(acc);
  }
}
