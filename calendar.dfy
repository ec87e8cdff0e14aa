/**
  The proleptic Gregorian calendar that pandas timestamps and monthly periods live in.
  A day is a valid (year, month, day) triple; a month is the period index `year * 12 + (month - 1)`.
*/
module Calendar {

  datatype Date = Date(year: int, month: int, day: int)

  predicate IsLeapYear(y: int) {
    y % 4 == 0 && (y % 100 != 0 || y % 400 == 0)
  }

  function DaysInMonth(y: int, m: int): (n: int)
    ensures 28 <= n <= 31
    ensures m == 2 ==> (n == 29 <==> IsLeapYear(y))
  {
    if m == 2 then (if IsLeapYear(y) then 29 else 28)
    else if m == 4 || m == 6 || m == 9 || m == 11 then 30
    else 31
  }

  predicate IsValid(d: Date) {
    1 <= d.month <= 12 && 1 <= d.day <= DaysInMonth(d.year, d.month)
  }

  /** A calendar day, as a parsed pandas timestamp at midnight. */
  type Day = d: Date | IsValid(d) witness Date(2000, 1, 1)

  /** Chronological order of days. */
  predicate Earlier(a: Date, b: Date) {
    a.year < b.year
    || (a.year == b.year && (a.month < b.month || (a.month == b.month && a.day < b.day)))
  }

  /** The day after `d` (`d + Timedelta(days=1)`). */
  function NextDay(d: Day): (n: Day)
    ensures Earlier(d, n)
  {
    if d.day < DaysInMonth(d.year, d.month) then Date(d.year, d.month, d.day + 1)
    else if d.month < 12 then Date(d.year, d.month + 1, 1)
    else Date(d.year + 1, 1, 1)
  }

  /** The day before `d` (`d - Timedelta(days=1)`): it comes earlier and the next day after it is `d`. */
  function PrevDay(d: Day): (p: Day)
    ensures Earlier(p, d)
    ensures NextDay(p) == d
  {
    if d.day > 1 then Date(d.year, d.month, d.day - 1)
    else if d.month > 1 then Date(d.year, d.month - 1, DaysInMonth(d.year, d.month - 1))
    else Date(d.year - 1, 12, 31)
  }

  /** `d - Timedelta(days=k)`: for k > 0 strictly earlier than `d`. */
  function DaysBefore(d: Day, k: nat): (r: Day)
    ensures k == 0 ==> r == d
    ensures k > 0 ==> Earlier(r, d)
  {
    if k == 0 then d else PrevDay(DaysBefore(d, k - 1))
  }

  /** `d + Timedelta(days=k)`. */
  function DaysAfter(d: Day, k: nat): Day
    decreases k
  {
    if k == 0 then d else DaysAfter(NextDay(d), k - 1)
  }

  /** Going back `k` days and forward `k` days returns to the start. */
  lemma {:induction false} DaysBeforeThenAfter(d: Day, k: nat)
    ensures DaysAfter(DaysBefore(d, k), k) == d
  {
    if k > 0 {
      var p := DaysBefore(d, k - 1);
      DaysBeforeThenAfter(d, k - 1);
      assert DaysAfter(PrevDay(p), k) == DaysAfter(p, k - 1);
    }
  }

  /** A larger offset reaches a strictly earlier day: distinct offsets never give the same day. */
  lemma {:induction false} DaysBeforeStrict(d: Day, j: nat, k: nat)
    requires j < k
    ensures Earlier(DaysBefore(d, k), DaysBefore(d, j))
  {
    if k - 1 > j {
      DaysBeforeStrict(d, j, k - 1);
    }
  }

  /** The monthly period a day falls in (`Timestamp.to_period('M')`). */
  function MonthIndex(d: Date): int {
    d.year * 12 + (d.month - 1)
  }

  /** Calendar year of a monthly period (`Period.year`). */
  function YearOf(m: int): int {
    m / 12
  }

  /** Calendar month 1..12 of a monthly period (`Period.month`). */
  function MonthOfYear(m: int): (r: int)
    ensures 1 <= r <= 12
  {
    m % 12 + 1
  }

  /** The period of year `y`, month `mo` has that year and that month. */
  lemma PeriodFields(y: int, mo: int)
    requires 1 <= mo <= 12
    ensures YearOf(MonthIndex(Date(y, mo, 1))) == y
    ensures MonthOfYear(MonthIndex(Date(y, mo, 1))) == mo
  {
    var m := y * 12 + (mo - 1);
    assert m == 12 * y + (mo - 1);
    assert m / 12 == y && m % 12 == mo - 1;
  }

  /** The first day of a period (a month-start timestamp, pandas frequency 'MS'). */
  function MonthStart(m: int): (d: Day)
    ensures MonthIndex(d) == m && d.day == 1
    ensures d.year == YearOf(m) && d.month == MonthOfYear(m)
  {
    Date(m / 12, m % 12 + 1, 1)
  }

  /** The last day of a period (a month-end timestamp, pandas frequency 'ME'). */
  function MonthEnd(m: int): (d: Day)
    ensures MonthIndex(d) == m && d.day == DaysInMonth(d.year, d.month)
    ensures d.year == YearOf(m) && d.month == MonthOfYear(m)
  {
    Date(m / 12, m % 12 + 1, DaysInMonth(m / 12, m % 12 + 1))
  }

  /** Every day of a month lies between that month's start and end. */
  lemma {:induction false} MonthStartOfDay(d: Day)
    ensures MonthStart(MonthIndex(d)) == Date(d.year, d.month, 1)
    ensures MonthEnd(MonthIndex(d)).day >= d.day
  {
    PeriodFields(d.year, d.month);
  }
}
