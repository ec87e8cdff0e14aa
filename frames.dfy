/**
  Tables as pandas holds them: a `Date` key per row and named value columns whose cells
  are missing (NaN), text (an unparsed string) or a number.
  `Table` is a value (a snapshot, what `df.copy()` yields); `Frame` is a DataFrame object
  that functions of the pipeline change in place.
*/
module Frames {
  import opened Common
  import opened Calendar

  /** The `Date` column: a parsed timestamp, or after `.dt.to_period('M')` a monthly period. */
  datatype Key = Stamp(date: Day) | Period(month: int)

  /** The monthly period a key falls in. */
  function MonthOfKey(k: Key): int {
    match k
    case Stamp(d) => MonthIndex(d)
    case Period(m) => m
  }

  /** Day of the month of a timestamp key; a period has no day and counts as 0. */
  function DayOfKey(k: Key): int {
    match k
    case Stamp(d) => d.day
    case Period(_) => 0
  }

  /** `.dt.to_period('M')` on one timestamp key: a period in the same month. */
  function ToPeriod(k: Key): (p: Key)
    requires k.Stamp?
    ensures p.Period? && MonthOfKey(p) == MonthOfKey(k)
  {
    Period(MonthOfKey(k))
  }

  /** `.dt.year` of a key. */
  function YearOfKey(k: Key): int {
    YearOf(MonthOfKey(k))
  }

  /** `.dt.month` of a key (1..12). */
  function CalendarMonthOfKey(k: Key): (m: int)
    ensures 1 <= m <= 12
  {
    MonthOfYear(MonthOfKey(k))
  }

  datatype Cell = Missing | Text(s: string) | Num(x: real)

  /** A cell pandas does not count as null (`notna`). */
  predicate Present(c: Cell) {
    !c.Missing?
  }

  datatype Row = Row(key: Key, cells: seq<Cell>)

  datatype Table = Table(columns: seq<string>, rows: seq<Row>)

  /** Every row has one cell per column. */
  predicate WellFormed(t: Table) {
    forall i :: 0 <= i < |t.rows| ==> |t.rows[i].cells| == |t.columns|
  }

  /** The `Date` column, in row order. */
  function Keys(t: Table): (ks: seq<Key>)
    ensures |ks| == |t.rows| && forall i :: 0 <= i < |t.rows| ==> ks[i] == t.rows[i].key
  {
    seq(|t.rows|, i requires 0 <= i < |t.rows| => t.rows[i].key)
  }

  /** Position of the first column called `name`. */
  function IndexOf(cols: seq<string>, name: string): (r: Option<nat>)
    ensures r.Some? ==> r.value < |cols| && cols[r.value] == name
    ensures r.Some? ==> forall k :: 0 <= k < r.value ==> cols[k] != name
    ensures r.None? <==> name !in cols
  {
    if cols == [] then None
    else if cols[0] == name then Some(0)
    else
      match IndexOf(cols[1..], name)
      case None => None
      case Some(i) => Some(i + 1)
  }

  /** Appending columns does not move an existing column. */
  lemma IndexOfAppend(cols: seq<string>, extra: seq<string>, name: string)
    requires name in cols
    ensures IndexOf(cols + extra, name) == IndexOf(cols, name)
  {
    var i := IndexOf(cols, name).value;
    var j := IndexOf(cols + extra, name).value;
    assert (cols + extra)[i] == name;
    assert j <= i;
    assert cols[j] == name;
  }

  /** Renaming one column leaves the position of every other name alone when the new name is unused. */
  lemma IndexOfRename(cols: seq<string>, j: nat, name: string, other: string)
    requires j < |cols| && other in cols && other != name && other != cols[j]
    ensures IndexOf(cols[j := name], other) == IndexOf(cols, other)
  {
    var r := cols[j := name];
    var i := IndexOf(cols, other).value;
    assert r[i] == other;
    var k := IndexOf(r, other).value;
    assert k <= i;
    assert cols[k] == other;
  }

  predicate HasColumn(t: Table, name: string) {
    name in t.columns
  }

  /** The cells of column `j`, in row order. */
  function ColumnAt(t: Table, j: nat): (v: seq<Cell>)
    requires WellFormed(t) && j < |t.columns|
    ensures |v| == |t.rows| && forall i :: 0 <= i < |t.rows| ==> v[i] == t.rows[i].cells[j]
  {
    seq(|t.rows|, i requires 0 <= i < |t.rows| => t.rows[i].cells[j])
  }

  /** `df[name]`: the first column of that name. */
  function Column(t: Table, name: string): (v: seq<Cell>)
    requires WellFormed(t) && HasColumn(t, name)
    ensures |v| == |t.rows|
  {
    ColumnAt(t, IndexOf(t.columns, name).value)
  }

  /** The table with column `j` replaced by `v`; keys and all other columns unchanged. */
  function WithColumnAt(t: Table, j: nat, v: seq<Cell>): (r: Table)
    requires WellFormed(t) && j < |t.columns| && |v| == |t.rows|
    ensures WellFormed(r) && r.columns == t.columns && Keys(r) == Keys(t)
    ensures ColumnAt(r, j) == v
    ensures forall k :: 0 <= k < |t.columns| && k != j ==> ColumnAt(r, k) == ColumnAt(t, k)
  {
    var rows := seq(|t.rows|, i requires 0 <= i < |t.rows| => Row(t.rows[i].key, t.rows[i].cells[j := v[i]]));
    var r := Table(t.columns, rows);
    assert Keys(r) == Keys(t);
    r
  }

  /** The table with a new last column `name` holding `v`. */
  function AppendColumn(t: Table, name: string, v: seq<Cell>): (r: Table)
    requires WellFormed(t) && |v| == |t.rows|
    ensures WellFormed(r) && r.columns == t.columns + [name] && Keys(r) == Keys(t)
    ensures ColumnAt(r, |t.columns|) == v
    ensures forall k :: 0 <= k < |t.columns| ==> ColumnAt(r, k) == ColumnAt(t, k)
  {
    var rows := seq(|t.rows|, i requires 0 <= i < |t.rows| => Row(t.rows[i].key, t.rows[i].cells + [v[i]]));
    var r := Table(t.columns + [name], rows);
    assert Keys(r) == Keys(t);
    r
  }

  /**
    `df[name] = v`: overwrites the column of that name, or adds it as the last column.
    The new column reads back as `v`; keys and every other column are unchanged.
  */
  function WithColumn(t: Table, name: string, v: seq<Cell>): (r: Table)
    requires WellFormed(t) && |v| == |t.rows|
    ensures WellFormed(r) && Keys(r) == Keys(t) && |r.rows| == |t.rows|
    ensures r.columns == if HasColumn(t, name) then t.columns else t.columns + [name]
    ensures HasColumn(r, name) && Column(r, name) == v
    ensures forall c :: HasColumn(t, c) && c != name ==> HasColumn(r, c) && Column(r, c) == Column(t, c)
  {
    match IndexOf(t.columns, name)
    case Some(j) =>
      WithColumnAt(t, j, v)
    case None =>
      var r := AppendColumn(t, name, v);
      assert IndexOf(r.columns, name) == Some(|t.columns|) by {
        assert forall k :: 0 <= k < |t.columns| ==> r.columns[k] == t.columns[k];
      }
      forall c | HasColumn(t, c) && c != name
        ensures Column(r, c) == Column(t, c)
      {
        IndexOfAppend(t.columns, [name], c);
      }
      r
  }

  /** `df.columns.values[j + 1] = name` (position 0 being `Date`): relabels one column, cells unchanged. */
  function Renamed(t: Table, j: nat, name: string): (r: Table)
    requires j < |t.columns|
    ensures r.columns == t.columns[j := name] && r.rows == t.rows
  {
    Table(t.columns[j := name], t.rows)
  }

  /** Applies `f` to every cell of column `j` (a whole-column conversion). */
  function MapColumnAt(t: Table, j: nat, f: Cell -> Cell): (r: Table)
    requires WellFormed(t) && j < |t.columns|
    ensures WellFormed(r) && r.columns == t.columns && Keys(r) == Keys(t)
    ensures forall i :: 0 <= i < |t.rows| ==> r.rows[i].cells[j] == f(t.rows[i].cells[j])
    ensures forall i, k :: 0 <= i < |t.rows| && 0 <= k < |t.columns| && k != j ==>
      r.rows[i].cells[k] == t.rows[i].cells[k]
  {
    WithColumnAt(t, j, seq(|t.rows|, i requires 0 <= i < |t.rows| => f(t.rows[i].cells[j])))
  }

  // ---------------------------------------------------------------------------
  // Number parsing (`pd.to_numeric(errors='coerce')` and `.str.replace(',', '.')`).
  // ---------------------------------------------------------------------------

  predicate IsDigit(c: char) {
    '0' <= c <= '9'
  }

  predicate AllDigits(s: string) {
    forall i :: 0 <= i < |s| ==> IsDigit(s[i])
  }

  /** Value of a string of decimal digits, most significant first. */
  function DigitsValue(s: string): nat
    requires AllDigits(s)
  {
    if s == [] then 0 else DigitsValue(s[..|s| - 1]) * 10 + (s[|s| - 1] - '0') as nat
  }

  function Pow10(n: nat): (p: nat)
    ensures p >= 1
  {
    if n == 0 then 1 else 10 * Pow10(n - 1)
  }

  /** Position of the first `c` in `s`. */
  function FindChar(s: string, c: char): (r: Option<nat>)
    ensures r.Some? ==> r.value < |s| && s[r.value] == c && c !in s[..r.value]
    ensures r.None? ==> c !in s
  {
    assert s[..0] == [];
    FindCharFrom(s, c, 0)
  }

  function FindCharFrom(s: string, c: char, i: nat): (r: Option<nat>)
    requires i <= |s| && c !in s[..i]
    ensures r.Some? ==> r.value < |s| && s[r.value] == c && c !in s[..r.value]
    ensures r.None? ==> c !in s
    decreases |s| - i
  {
    if i == |s| then
      assert s[..i] == s;
      None
    else if s[i] == c then Some(i)
    else
      assert s[..i + 1] == s[..i] + [s[i]];
      FindCharFrom(s, c, i + 1)
  }

  /** An unsigned decimal `ddd`, `ddd.ddd`, `ddd.` or `.ddd` with at least one digit. */
  function ParseUnsigned(s: string): Option<real> {
    var dot := FindChar(s, '.');
    var whole := if dot.Some? then s[..dot.value] else s;
    var frac := if dot.Some? then s[dot.value + 1..] else "";
    if |whole| + |frac| == 0 || !AllDigits(whole) || !AllDigits(frac) then None
    else Some(DigitsValue(whole) as real + DigitsValue(frac) as real / Pow10(|frac|) as real)
  }

  /** A decimal number with an optional sign; anything else is not a number. */
  function ParseDecimal(s: string): Option<real> {
    if |s| > 0 && (s[0] == '-' || s[0] == '+') then
      match ParseUnsigned(s[1..])
      case Some(x) => Some(if s[0] == '-' then -x else x)
      case None => None
    else ParseUnsigned(s)
  }

  /** `pd.to_numeric(errors='coerce')` on one cell: text that is no number becomes missing. */
  function ToNumeric(c: Cell): (r: Cell)
    ensures !r.Text?
    ensures c.Num? ==> r == c
    ensures c.Missing? ==> r.Missing?
  {
    match c
    case Text(s) => (match ParseDecimal(s) case Some(x) => Num(x) case None => Missing)
    case _ => c
  }

  /** Every occurrence of `a` in `s` replaced by `b`. */
  function ReplaceChar(s: string, a: char, b: char): (r: string)
    ensures |r| == |s| && forall i :: 0 <= i < |s| ==> r[i] == if s[i] == a then b else s[i]
  {
    seq(|s|, i requires 0 <= i < |s| => if s[i] == a then b else s[i])
  }

  /** `.str.replace(',', '.')` on one cell of a text column; a non-text value yields NaN. */
  function CommaToDot(c: Cell): (r: Cell)
    ensures c.Text? ==> r == Text(ReplaceChar(c.s, ',', '.'))
    ensures !c.Text? ==> r.Missing?
  {
    match c
    case Text(s) => Text(ReplaceChar(s, ',', '.'))
    case _ => Missing
  }

  /** A Brazilian-formatted number: comma as decimal separator, then `to_numeric(errors='coerce')`. */
  function ParseCommaDecimal(c: Cell): (r: Cell)
    ensures !r.Text?
  {
    ToNumeric(CommaToDot(c))
  }

  /** "13,75" reads as 13.75. */
  lemma CommaDecimalExample()
    ensures ParseCommaDecimal(Text("13,75")) == Num(13.75)
  {
    CommaBecomesDot();
    DecimalDigits();
    assert ParseDecimal("13.75") == Some(13.75);
  }

  lemma CommaBecomesDot()
    ensures ReplaceChar("13,75", ',', '.') == "13.75"
  {
    var r := ReplaceChar("13,75", ',', '.');
    assert |r| == 5 && r[0] == '1' && r[1] == '3' && r[2] == '.' && r[3] == '7' && r[4] == '5';
  }

  lemma DecimalDigits()
    ensures ParseUnsigned("13.75") == Some(13.75)
  {
    var s := "13.75";
    assert FindChar(s, '.') == Some(2) by {
      assert s[..2] == "13";
    }
    assert s[..2] == "13" && s[3..] == "75";
    assert DigitsValue("13") == 13 by {
      assert "13"[..1] == "1" && "1"[..0] == "";
    }
    assert DigitsValue("75") == 75 by {
      assert "75"[..1] == "7" && "7"[..0] == "";
    }
    assert Pow10(2) == 100;
  }

  /** Text that is no number, such as "n/d", reads as missing. */
  lemma NotANumberExample()
    ensures ParseCommaDecimal(Text("n/d")) == Missing
  {
    assert ParseDecimal("n/d") == None by {
      var t := "n/d";
      assert !AllDigits(t) by { assert !IsDigit(t[0]); }
      assert FindChar(t, '.') == None by {
        assert forall i :: 0 <= i < |t| ==> t[i] != '.';
      }
    }
    assert ReplaceChar("n/d", ',', '.') == "n/d";
  }

  /** A DataFrame object: its columns and rows change in place. */
  class Frame {
    var columns: seq<string>
    var rows: seq<Row>

    constructor (t: Table)
      ensures Snapshot() == t
    {
      columns := t.columns;
      rows := t.rows;
    }

    /** The frame's current contents as a value (`df.copy()`). */
    function Snapshot(): Table
      reads this
    {
      Table(columns, rows)
    }
  }
}
