/**
  Whole-column operations of pandas used by the pipeline, on one column of cells:
  linear interpolation, forward fill, positional shift and percentage change.
  A cell is "known" when it holds a number.
*/
module Series {
  import opened Common
  import opened Frames

  /** Position of the last number at or before `i`. */
  function PrevKnown(v: seq<Cell>, i: int): (r: Option<nat>)
    requires -1 <= i < |v|
    ensures r.Some? ==> r.value <= i && v[r.value].Num?
    ensures r.Some? ==> forall k :: r.value < k <= i ==> !v[k].Num?
    ensures r.None? ==> forall k :: 0 <= k <= i ==> !v[k].Num?
    decreases i + 1
  {
    if i < 0 then None
    else if v[i].Num? then Some(i)
    else PrevKnown(v, i - 1)
  }

  /** Position of the first number at or after `i`. */
  function NextKnown(v: seq<Cell>, i: nat): (r: Option<nat>)
    requires i <= |v|
    ensures r.Some? ==> i <= r.value < |v| && v[r.value].Num?
    ensures r.Some? ==> forall k :: i <= k < r.value ==> !v[k].Num?
    ensures r.None? ==> forall k :: i <= k < |v| ==> !v[k].Num?
    decreases |v| - i
  {
    if i == |v| then None
    else if v[i].Num? then Some(i)
    else NextKnown(v, i + 1)
  }

  /** The straight line through (a, va) and (b, vb), read at position i. */
  function Linear(a: int, va: real, b: int, vb: real, i: int): real
    requires a < b
  {
    va + (vb - va) * (i - a) as real / (b - a) as real
  }

  /**
    `Series.interpolate(method='linear')` at position `i`: positions are equally spaced whatever
    the index says; a gap before the first number stays; a gap after the last number takes
    that last number.
  */
  function InterpolatedAt(v: seq<Cell>, i: nat): Cell
    requires i < |v|
  {
    match PrevKnown(v, i)
    case None => v[i]
    case Some(a) =>
      match NextKnown(v, i)
      case None => v[a]
      case Some(b) => if a == b then v[a] else Num(Linear(a, v[a].x, b, v[b].x, i))
  }

  function Interpolate(v: seq<Cell>): (r: seq<Cell>)
    ensures |r| == |v|
  {
    seq(|v|, i requires 0 <= i < |v| => InterpolatedAt(v, i))
  }

  /** A number already present is never changed. */
  lemma InterpolateKeepsKnown(v: seq<Cell>, i: nat)
    requires i < |v| && v[i].Num?
    ensures Interpolate(v)[i] == v[i]
  {
  }

  /** Strictly between two consecutive numbers at a and b, the value lies on the line through them. */
  lemma InterpolateBetween(v: seq<Cell>, a: nat, b: nat, i: nat)
    requires a < i < b < |v| && v[a].Num? && v[b].Num?
    requires forall k :: a < k < b ==> !v[k].Num?
    ensures Interpolate(v)[i] == Num(Linear(a, v[a].x, b, v[b].x, i))
  {
    assert PrevKnown(v, i) == Some(a);
    assert NextKnown(v, i) == Some(b);
  }

  /** A gap with no number before it is left as it is. */
  lemma InterpolateLeadingGap(v: seq<Cell>, i: nat)
    requires i < |v| && forall k :: 0 <= k <= i ==> !v[k].Num?
    ensures Interpolate(v)[i] == v[i]
  {
    assert PrevKnown(v, i).None?;
  }

  /** A gap after the last number holds that last number. */
  lemma InterpolateTrailingGap(v: seq<Cell>, a: nat, i: nat)
    requires a < i < |v| && v[a].Num?
    requires forall k :: a < k < |v| ==> !v[k].Num?
    ensures Interpolate(v)[i] == v[a]
  {
    assert PrevKnown(v, i) == Some(a);
    assert NextKnown(v, i).None?;
  }

  /** From the first number on, interpolation leaves no gap. */
  lemma InterpolateNoGapAfterFirst(v: seq<Cell>, first: nat, i: nat)
    requires first <= i < |v| && v[first].Num?
    ensures Interpolate(v)[i].Num?
  {
    assert PrevKnown(v, i).Some?;
  }

  /**
    `Series.ffill()` on a numeric column: a gap takes the last number before it; a leading gap
    stays. A text cell counts as a gap here, which only matters on a column that still holds
    text; the target column is converted with `to_numeric` before it is filled.
  */
  function ForwardFill(v: seq<Cell>): (r: seq<Cell>)
    ensures |r| == |v|
  {
    seq(|v|, i requires 0 <= i < |v| => match PrevKnown(v, i) case None => v[i] case Some(a) => v[a])
  }

  /** Forward fill carries the number at `a` to every later position up to the next number. */
  lemma ForwardFillCarries(v: seq<Cell>, a: nat, i: nat)
    requires a <= i < |v| && v[a].Num?
    requires forall k :: a < k <= i ==> !v[k].Num?
    ensures ForwardFill(v)[i] == v[a]
  {
    assert PrevKnown(v, i) == Some(a);
  }

  /** Forward fill changes only gaps and fills nothing before the first number. */
  lemma ForwardFillGaps(v: seq<Cell>, i: nat)
    requires i < |v|
    ensures v[i].Num? ==> ForwardFill(v)[i] == v[i]
    ensures (forall k :: 0 <= k <= i ==> !v[k].Num?) ==> ForwardFill(v)[i] == v[i]
    ensures (exists k :: 0 <= k <= i && v[k].Num?) ==> ForwardFill(v)[i].Num?
  {
  }

  /** `Series.shift(lag)`: row i takes the value of row i - lag; rows with no such row are missing. */
  function Shift(v: seq<Cell>, lag: int): (r: seq<Cell>)
    ensures |r| == |v|
    ensures forall i :: 0 <= i < |v| && 0 <= i - lag < |v| ==> r[i] == v[i - lag]
    ensures lag >= 0 ==> forall i :: 0 <= i < |v| && i < lag ==> r[i] == Missing
    ensures lag < 0 ==> forall i :: 0 <= i < |v| && |v| <= i - lag ==> r[i] == Missing
  {
    seq(|v|, i requires 0 <= i < |v| => if 0 <= i - lag < |v| then v[i - lag] else Missing)
  }

  /** Relative change in percent from `prev` to `cur`; missing unless both are numbers and `prev` is not 0. */
  function Change(prev: Cell, cur: Cell): Cell {
    if prev.Num? && cur.Num? && prev.x != 0.0 then Num((cur.x / prev.x - 1.0) * 100.0) else Missing
  }

  /** `Series.pct_change(fill_method=None) * 100`: the first position has no predecessor. */
  function PctChange(v: seq<Cell>): (r: seq<Cell>)
    ensures |r| == |v|
  {
    seq(|v|, i requires 0 <= i < |v| => if i == 0 then Missing else Change(v[i - 1], v[i]))
  }

  /** A percentage change `p` at position i recovers the value there from its predecessor. */
  lemma PctChangeInverse(v: seq<Cell>, i: nat)
    requires 0 < i < |v| && PctChange(v)[i].Num?
    ensures v[i - 1].Num? && v[i].Num? && v[i - 1].x != 0.0
    ensures v[i].x == v[i - 1].x * (1.0 + PctChange(v)[i].x / 100.0)
  {
    var a, b := v[i - 1].x, v[i].x;
    var p := (b / a - 1.0) * 100.0;
    assert p / 100.0 == b / a - 1.0;
    assert a * (b / a) == b;
  }

  /** The change is missing exactly when a value is missing, the predecessor is 0, or it is the first row. */
  lemma PctChangeMissing(v: seq<Cell>, i: nat)
    requires i < |v|
    ensures PctChange(v)[i].Missing? <==> i == 0 || !v[i - 1].Num? || !v[i].Num? || v[i - 1].x == 0.0
  {
  }
}
