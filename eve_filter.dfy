/**
  Selection of the Focus survey rows collected on the eve of a Copom meeting
  (`filter_expected_inflation_dates`). Rows dated one day before any meeting are kept; only when
  no row at all matches is the search retried two, three, ... seven days before the meetings.
  The fallback is global: a single offset is chosen for all meetings together.
*/
module EveFilter {
  import opened Common
  import opened Calendar
  import opened Frames

  /** Name given to the survey's first value column. */
  const ExpectedColumn := "focus_expected_inflation"

  /** The largest offset tried, in days. */
  const MaxOffset := 7

  /** The meeting dates moved back `k` days (`dates - pd.Timedelta(days=k)`). */
  function EveDates(meetings: seq<Day>, k: nat): (e: seq<Day>)
    ensures |e| == |meetings|
    ensures forall i :: 0 <= i < |meetings| ==> e[i] == DaysBefore(meetings[i], k)
  {
    seq(|meetings|, i requires 0 <= i < |meetings| => DaysBefore(meetings[i], k))
  }

  /** The survey row is dated exactly `k` days before some meeting (`Date.isin(eve_dates)`). */
  predicate OnEve(meetings: seq<Day>, k: nat, r: Row) {
    r.key.Stamp? && r.key.date in EveDates(meetings, k)
  }

  /** The rows dated `k` days before some meeting, in input order (`df[df['Date'].isin(eve_dates)]`). */
  function AtOffset(rows: seq<Row>, meetings: seq<Day>, k: nat): (r: seq<Row>)
    ensures |r| <= |rows|
    ensures forall x :: x in r ==> OnEve(meetings, k, x)
  {
    if rows == [] then []
    else if OnEve(meetings, k, rows[0]) then [rows[0]] + AtOffset(rows[1..], meetings, k)
    else AtOffset(rows[1..], meetings, k)
  }

  /**
    The selection at offset `k` is the boolean-mask selection of the rows on a `k`-day eve: exactly
    those rows, each as often as it occurs, in input order.
  */
  lemma {:induction false} AtOffsetSpec(rows: seq<Row>, meetings: seq<Day>, k: nat)
    ensures AtOffset(rows, meetings, k) == Keep(rows, (x: Row) => OnEve(meetings, k, x))
    ensures forall x :: x in AtOffset(rows, meetings, k) <==> x in rows && OnEve(meetings, k, x)
    ensures IsSubsequence(AtOffset(rows, meetings, k), rows)
  {
    if rows != [] {
      AtOffsetSpec(rows[1..], meetings, k);
      assert rows == [rows[0]] + rows[1..];
      var r := AtOffset(rows, meetings, k);
      if OnEve(meetings, k, rows[0]) {
        assert r[1..] == AtOffset(rows[1..], meetings, k);
      }
    }
  }

  /** The search from offset `k` on: the first offset up to 7 that selects something, or nothing. */
  function SearchFrom(rows: seq<Row>, meetings: seq<Day>, k: nat): (r: seq<Row>)
    requires k >= 1
    ensures |r| <= |rows|
    ensures forall x :: x in r ==> OnEve(meetings, FirstHit(rows, meetings, k), x)
    decreases MaxOffset + 1 - k
  {
    if k > MaxOffset then []
    else if AtOffset(rows, meetings, k) != [] then AtOffset(rows, meetings, k)
    else SearchFrom(rows, meetings, k + 1)
  }

  /** The rows the eve filter keeps: no more than there are, each on an eve at the offset the search settles on. */
  function EveSearch(rows: seq<Row>, meetings: seq<Day>): (r: seq<Row>)
    ensures |r| <= |rows|
    ensures forall x :: x in r ==> OnEve(meetings, FirstHit(rows, meetings, 1), x)
  {
    SearchFrom(rows, meetings, 1)
  }

  /** The offset the search from `k` settles on: the first from `k` that selects a row, or 8 if none does. */
  function FirstHit(rows: seq<Row>, meetings: seq<Day>, k: nat): nat
    requires k >= 1
    decreases MaxOffset + 1 - k
  {
    if k > MaxOffset then k
    else if AtOffset(rows, meetings, k) != [] then k
    else FirstHit(rows, meetings, k + 1)
  }

  /**
    The search from `k` returns the selection of the first offset that selects anything, after
    every earlier offset selected nothing; it returns nothing exactly when no offset up to 7 does.
  */
  lemma {:induction false} SearchFromHit(rows: seq<Row>, meetings: seq<Day>, k: nat)
    requires 1 <= k <= MaxOffset + 1
    ensures var j := FirstHit(rows, meetings, k);
      k <= j <= MaxOffset + 1
      && (forall i :: k <= i < j ==> AtOffset(rows, meetings, i) == [])
      && (j <= MaxOffset ==> AtOffset(rows, meetings, j) != [] && SearchFrom(rows, meetings, k) == AtOffset(rows, meetings, j))
      && (j > MaxOffset ==> SearchFrom(rows, meetings, k) == [])
    decreases MaxOffset + 1 - k
  {
    if k <= MaxOffset && AtOffset(rows, meetings, k) == [] {
      SearchFromHit(rows, meetings, k + 1);
    }
  }

  /**
    The eve filter keeps the selection of the smallest offset in 1..7 that selects any row,
    the same offset for every meeting; it keeps nothing (and signals nothing) when no offset does.
  */
  lemma EveSearchSpec(rows: seq<Row>, meetings: seq<Day>)
    ensures EveSearch(rows, meetings) == [] <==>
      forall k :: 1 <= k <= MaxOffset ==> AtOffset(rows, meetings, k) == []
    ensures var k := FirstHit(rows, meetings, 1);
      EveSearch(rows, meetings) != [] ==>
        (1 <= k <= MaxOffset && EveSearch(rows, meetings) == AtOffset(rows, meetings, k)
         && forall j :: 1 <= j < k ==> AtOffset(rows, meetings, j) == [])
  {
    SearchFromHit(rows, meetings, 1);
  }

  /** Kept rows are survey rows on some eve at the chosen offset, in their original order. */
  lemma EveSearchSelects(rows: seq<Row>, meetings: seq<Day>, r: Row)
    requires r in EveSearch(rows, meetings)
    ensures r in rows && exists k :: 1 <= k <= MaxOffset && OnEve(meetings, k, r)
    ensures IsSubsequence(EveSearch(rows, meetings), rows)
  {
    EveSearchSpec(rows, meetings);
    var k := FirstHit(rows, meetings, 1);
    AtOffsetSpec(rows, meetings, k);
  }

  /** When some row sits one day before a meeting, exactly the rows on the day-before eves are kept. */
  lemma EveSearchOneDay(rows: seq<Row>, meetings: seq<Day>)
    requires exists r :: r in rows && OnEve(meetings, 1, r)
    ensures EveSearch(rows, meetings) == AtOffset(rows, meetings, 1)
    ensures forall r :: r in EveSearch(rows, meetings) <==> r in rows && OnEve(meetings, 1, r)
  {
    var r :| r in rows && OnEve(meetings, 1, r);
    AtOffsetSpec(rows, meetings, 1);
    assert r in AtOffset(rows, meetings, 1);
  }

  /**
    The fallback is global: once one meeting has a row on its eve, a row that is not on any
    day-before eve is dropped, even if it is the only row near another meeting.
  */
  lemma FallbackIsGlobal(rows: seq<Row>, meetings: seq<Day>, r: Row)
    requires exists x :: x in rows && OnEve(meetings, 1, x)
    requires !OnEve(meetings, 1, r)
    ensures r !in EveSearch(rows, meetings)
  {
    EveSearchOneDay(rows, meetings);
  }

  /** One meeting, survey rows one and nine days before it: only the row one day before is kept. */
  lemma EveExampleOneAndNine(meeting: Day, c1: seq<Cell>, c9: seq<Cell>)
    ensures
      var r1 := Row(Stamp(DaysBefore(meeting, 1)), c1);
      var r9 := Row(Stamp(DaysBefore(meeting, 9)), c9);
      EveSearch([r1, r9], [meeting]) == [r1]
  {
    var r1 := Row(Stamp(DaysBefore(meeting, 1)), c1);
    var r9 := Row(Stamp(DaysBefore(meeting, 9)), c9);
    DaysBeforeStrict(meeting, 1, 9);
    assert EveDates([meeting], 1) == [DaysBefore(meeting, 1)];
    assert OnEve([meeting], 1, r1);
    assert !OnEve([meeting], 1, r9);
    assert AtOffset([r9], [meeting], 1) == AtOffset([], [meeting], 1) == [] by {
      assert [r9][1..] == [];
    }
    assert AtOffset([r1, r9], [meeting], 1) == [r1] + AtOffset([r9], [meeting], 1) by {
      assert [r1, r9][1..] == [r9];
    }
  }

  /** One meeting, a single survey row five days before it: offsets 1 to 4 find nothing, offset 5 keeps it. */
  lemma EveExampleFiveDays(meeting: Day, c5: seq<Cell>)
    ensures
      var r5 := Row(Stamp(DaysBefore(meeting, 5)), c5);
      EveSearch([r5], [meeting]) == [r5]
  {
    var r5 := Row(Stamp(DaysBefore(meeting, 5)), c5);
    var rows := [r5];
    assert rows[1..] == [];
    forall k | 1 <= k < 5
      ensures AtOffset(rows, [meeting], k) == []
    {
      DaysBeforeStrict(meeting, k, 5);
      assert EveDates([meeting], k) == [DaysBefore(meeting, k)];
      assert !OnEve([meeting], k, r5);
    }
    assert EveDates([meeting], 5) == [DaysBefore(meeting, 5)];
    assert OnEve([meeting], 5, r5);
    assert AtOffset(rows, [meeting], 5) == [r5];
    assert SearchFrom(rows, [meeting], 5) == [r5];
    assert SearchFrom(rows, [meeting], 4) == [r5];
    assert SearchFrom(rows, [meeting], 3) == [r5];
    assert SearchFrom(rows, [meeting], 2) == [r5];
  }

  /**
    `filter_expected_inflation_dates`: relabels the survey's first value column in place, then
    keeps the day-before rows and, while nothing is kept, retries offsets 1 to 7 in turn
    (offset 1 is tried twice). The result is a new frame; the survey's rows are not changed.
  */
  method FilterExpectedInflationDates(meetings: seq<Day>, survey: Frame) returns (filtered: Frame)
    requires |survey.columns| >= 1
    modifies survey
    ensures survey.columns == old(survey.columns)[0 := ExpectedColumn] && survey.rows == old(survey.rows)
    ensures fresh(filtered)
    ensures filtered.columns == survey.columns
    ensures filtered.rows == EveSearch(survey.rows, meetings)
  {
    survey.columns := survey.columns[0 := ExpectedColumn];
    var rows := survey.rows;
    var kept := AtOffset(rows, meetings, 1);
    for offset := 1 to MaxOffset + 1
      invariant kept != [] ==> EveSearch(rows, meetings) == kept
      invariant kept == [] ==> EveSearch(rows, meetings) == SearchFrom(rows, meetings, offset)
    {
      if kept != [] {
        break;
      }
      kept := AtOffset(rows, meetings, offset);
    }
    filtered := new Frame(Table(survey.columns, kept));
  }
}
