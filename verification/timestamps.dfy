/**
 * Python's `datetime.isoformat()` for naive date-times with the default
 * `timespec="auto"`: `YYYY-MM-DDTHH:MM:SS`, followed by `.ffffff` only when
 * the microsecond is not zero. Two stamps of the same shape (both with or
 * both without the fraction) sort as strings in chronological order; stamps
 * of different shapes need not.
 */
module Timestamps {
  import opened LexOrder
  import opened Digits
  import opened Calendar

  datatype DateTime = DateTime(date: Date, hour: nat, minute: nat, second: nat, microsecond: nat)

  /** The range of Python's `datetime`: years 1 to 9999. */
  predicate Valid(t: DateTime)
  {
    ValidDate(t.date) && t.date.year <= 9999
    && t.hour < 24 && t.minute < 60 && t.second < 60 && t.microsecond < 1000000
  }

  /** Midnight at the start of day `d`. */
  function Midnight(d: Date): DateTime
  {
    DateTime(d, 0, 0, 0, 0)
  }

  /** Chronological order: date, then time of day, then microsecond. */
  predicate Earlier(a: DateTime, b: DateTime)
  {
    LexLess(Clock(a) + [a.microsecond], Clock(b) + [b.microsecond])
  }

  /** Both stamps print a fraction, or neither does. */
  predicate SameShape(a: DateTime, b: DateTime)
  {
    (a.microsecond == 0) == (b.microsecond == 0)
  }

  function Clock(t: DateTime): seq<nat>
  {
    [t.date.year, t.date.month, t.date.day, t.hour, t.minute, t.second]
  }

  const ClockLayout: seq<Field> :=
    [Field("", 4), Field("-", 2), Field("-", 2), Field("T", 2), Field(":", 2), Field(":", 2)]

  const FractionField: Field := Field(".", 6)

  /** The numbers `isoformat` prints. */
  function IsoValues(t: DateTime): seq<nat>
  {
    if t.microsecond == 0 then Clock(t) else Clock(t) + [t.microsecond]
  }

  /** How `isoformat` lays those numbers out. */
  function IsoLayout(t: DateTime): seq<Field>
  {
    if t.microsecond == 0 then ClockLayout else ClockLayout + [FractionField]
  }

  /** Python's `t.isoformat()`. */
  function IsoFormat(t: DateTime): string
  {
    Render(IsoValues(t), IsoLayout(t))
  }

  /**
   * For valid date-times of one shape, the printed numbers fit their fields
   * and their lexicographic order is the chronological one.
   */
  lemma IsoValuesOrder(a: DateTime, b: DateTime)
    requires Valid(a) && Valid(b) && SameShape(a, b)
    ensures IsoLayout(a) == IsoLayout(b)
    ensures Fits(IsoValues(a), IsoLayout(a)) && Fits(IsoValues(b), IsoLayout(a))
    ensures LexLess(IsoValues(a), IsoValues(b)) <==> Earlier(a, b)
    ensures IsoValues(a) == IsoValues(b) <==> a == b
  {
    assert Pow10(2) == 100 && Pow10(4) == 10000 && Pow10(6) == 1000000;
    if a.microsecond == 0 {
      LexLessCommonLast(Clock(a), Clock(b), 0);
    }
    if IsoValues(a) == IsoValues(b) {
      assert Clock(a) == IsoValues(a)[..6] && Clock(b) == IsoValues(b)[..6];
    }
  }

  /** Same-shape ISO stamps sort in chronological order. */
  lemma IsoFormatOrder(a: DateTime, b: DateTime)
    requires Valid(a) && Valid(b) && SameShape(a, b)
    ensures Below(IsoFormat(a), IsoFormat(b)) <==> Earlier(a, b)
    ensures IsoFormat(a) == IsoFormat(b) <==> a == b
  {
    IsoValuesOrder(a, b);
    RenderOrder(IsoValues(a), IsoValues(b), IsoLayout(a));
  }

  /** An ISO stamp starts with the first digit of the year. */
  lemma IsoFormatStartsWithDigit(t: DateTime)
    ensures |IsoFormat(t)| > 0 && '0' <= IsoFormat(t)[0] <= '9'
  {
    var vs, fs := IsoValues(t), IsoLayout(t);
    assert fs[0] == Field("", 4);
    assert Render(vs, fs) == ("" + Pad(vs[0], 4)) + Render(vs[1..], fs[1..]);
    assert ("" + Pad(vs[0], 4))[0] == Pad(vs[0], 4)[0];
  }
}
