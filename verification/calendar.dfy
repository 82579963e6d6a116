/**
 * The proleptic Gregorian calendar as Python's `datetime.date` numbers it:
 * day 1 is 0001-01-01 (`date.toordinal`), and `date.weekday()` is
 * `(ordinal + 6) % 7` with Monday as 0. Day numbers are what the model
 * computes with; `CivilDate` turns one into a year, month and day.
 */
module Calendar {

  datatype Date = Date(year: nat, month: nat, day: nat)

  /** A day number, counted from 0001-01-01 as day 1. */
  type Ordinal = o: int | 1 <= o witness 1

  predicate IsLeap(y: int)
  {
    y % 4 == 0 && (y % 100 != 0 || y % 400 == 0)
  }

  function MonthDays(y: int, m: int): (n: nat)
    requires 1 <= m <= 12
    ensures 28 <= n <= 31
  {
    if m == 2 then (if IsLeap(y) then 29 else 28)
    else if m == 4 || m == 6 || m == 9 || m == 11 then 30
    else 31
  }

  predicate ValidDate(d: Date)
  {
    1 <= d.year && 1 <= d.month <= 12 && 1 <= d.day <= MonthDays(d.year, d.month)
  }

  /** `a` is an earlier calendar day than `b`. */
  predicate DateBefore(a: Date, b: Date)
  {
    a.year < b.year
    || (a.year == b.year && (a.month < b.month || (a.month == b.month && a.day < b.day)))
  }

  /**
   * The date `n` days after the first of month `m` of year `y`, found by
   * stepping over whole months.
   */
  function MonthWalk(y: nat, m: nat, n: nat): (d: Date)
    requires 1 <= y && 1 <= m <= 12
    ensures ValidDate(d)
    ensures !DateBefore(d, Date(y, m, 1))
    decreases n
  {
    var len := MonthDays(y, m);
    if n < len then Date(y, m, n + 1)
    else if m == 12 then MonthWalk(y + 1, 1, n - len)
    else MonthWalk(y, m + 1, n - len)
  }

  /** Python's `date.fromordinal(o)`. */
  function CivilDate(o: Ordinal): (d: Date)
    ensures ValidDate(d)
  {
    MonthWalk(1, 1, o - 1)
  }

  /** Python's `date.weekday()`: 0 is Monday, 6 is Sunday. */
  function Weekday(o: Ordinal): (w: nat)
    ensures w < 7
  {
    (o + 6) % 7
  }

  /** The day after a given weekday is the next weekday, Sunday wrapping to Monday. */
  lemma WeekdayNext(o: Ordinal)
    ensures Weekday(o + 1) == (Weekday(o) + 1) % 7
  {
    var q, w := (o + 6) / 7, (o + 6) % 7;
    assert o + 7 == 7 * q + (w + 1);
    if w < 6 {
      assert (o + 7) % 7 == w + 1;
    } else {
      assert o + 7 == 7 * (q + 1);
    }
  }

  /** A later day number is a later calendar date. */
  lemma {:induction false} MonthWalkMonotone(y: nat, m: nat, n1: nat, n2: nat)
    requires 1 <= y && 1 <= m <= 12
    requires n1 < n2
    ensures DateBefore(MonthWalk(y, m, n1), MonthWalk(y, m, n2))
    decreases n2
  {
    var len := MonthDays(y, m);
    if n1 >= len {
      if m == 12 {
        MonthWalkMonotone(y + 1, 1, n1 - len, n2 - len);
      } else {
        MonthWalkMonotone(y, m + 1, n1 - len, n2 - len);
      }
    }
  }

  /** Day numbers and calendar dates are in the same order. */
  lemma CivilDateMonotone(o1: Ordinal, o2: Ordinal)
    requires o1 < o2
    ensures DateBefore(CivilDate(o1), CivilDate(o2))
  {
    MonthWalkMonotone(1, 1, o1 - 1, o2 - 1);
  }

  /** Day 1 is Monday 0001-01-01, the anchor Python's calendar counts from. */
  lemma FirstDay()
    ensures CivilDate(1) == Date(1, 1, 1)
    ensures Weekday(1) == 0
  {
  }
}
