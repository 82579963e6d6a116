/**
 * Labelling a volatility forecast with dates (`GarchModel.__clean_prediction`).
 *
 * The forecast row is indexed by the last training day. The labels start one
 * calendar day later and are `pd.bdate_range(start, periods=horizon)`: the
 * first Monday-to-Friday day on or after the start and the business days that
 * follow it, each at midnight. Every label is the `isoformat()` of that
 * midnight, and the result pairs the labels with the forecast values in order,
 * as `pd.Series(...).to_dict()` does. The values themselves stay opaque.
 */
module Forecast {
  import opened Wrappers
  import opened LexOrder
  import opened Digits
  import opened Calendar
  import opened Timestamps

  predicate IsBusinessDay(o: Ordinal)
  {
    Weekday(o) < 5
  }

  /** The first business day on or after `o`: a Saturday or Sunday rolls to Monday. */
  function RollForward(o: Ordinal): (r: Ordinal)
    ensures o <= r && IsBusinessDay(r)
    ensures forall k: Ordinal :: o <= k < r ==> !IsBusinessDay(k)
  {
    WeekdayNext(o);
    WeekdayNext(o + 1);
    if Weekday(o) == 5 then o + 2 else if Weekday(o) == 6 then o + 1 else o
  }

  /** Strictly increasing day numbers. */
  predicate Increasing(s: seq<Ordinal>)
  {
    forall i, j :: 0 <= i < j < |s| ==> s[i] < s[j]
  }

  /** Business days, none before `start`. */
  predicate BusinessFrom(s: seq<Ordinal>, start: Ordinal)
  {
    forall i :: 0 <= i < |s| ==> start <= s[i] && IsBusinessDay(s[i])
  }

  /** Every business day from `start` up to the last element of `s` is in `s`. */
  predicate NoneSkipped(s: seq<Ordinal>, start: Ordinal)
  {
    |s| > 0 ==> forall k: Ordinal {:trigger k in s} :: start <= k <= s[|s| - 1] && IsBusinessDay(k) ==> k in s
  }

  /**
   * An independent description of a business-day range: `s` holds, in
   * increasing order, business days on or after `start`, and every business
   * day from `start` up to its last element.
   */
  predicate FirstBusinessDays(s: seq<Ordinal>, start: Ordinal)
  {
    Increasing(s) && BusinessFrom(s, start) && NoneSkipped(s, start)
  }

  /**
   * `pd.bdate_range(start, periods=n)` as day numbers: `n` business days,
   * increasing, the first on or after `start`.
   */
  function BusinessDays(start: Ordinal, n: nat): (r: seq<Ordinal>)
    ensures |r| == n
    ensures Increasing(r) && BusinessFrom(r, start)
    decreases n
  {
    if n == 0 then []
    else
      var first := RollForward(start);
      [first] + BusinessDays(first + 1, n - 1)
  }

  /** `BusinessDays` skips no business day. */
  lemma {:induction false} BusinessDaysNoneSkipped(start: Ordinal, n: nat)
    ensures FirstBusinessDays(BusinessDays(start, n), start)
    decreases n
  {
    if n > 0 {
      var first := RollForward(start);
      var rest := BusinessDays(first + 1, n - 1);
      var r := BusinessDays(start, n);
      assert r == [first] + rest;
      BusinessDaysNoneSkipped(first + 1, n - 1);
      forall k: Ordinal | start <= k <= r[n - 1] && IsBusinessDay(k)
        ensures k in r
      {
        if k != first {
          assert first < k;
          assert k in rest;
        }
      }
    }
  }

  /** The first element of such a range is the rolled-forward start. */
  lemma FirstBusinessDaysHead(s: seq<Ordinal>, start: Ordinal)
    requires FirstBusinessDays(s, start) && |s| > 0
    ensures s[0] == RollForward(start)
  {
    var first := RollForward(start);
    if first < s[0] {
      assert first in s;
    }
  }

  /** Dropping the first element leaves such a range from the day after it. */
  lemma FirstBusinessDaysTail(s: seq<Ordinal>, start: Ordinal)
    requires FirstBusinessDays(s, start) && |s| > 0
    ensures FirstBusinessDays(s[1..], s[0] + 1)
  {
    var rest := s[1..];
    forall i | 0 <= i < |rest| ensures s[0] + 1 <= rest[i] {
      assert rest[i] == s[i + 1];
    }
    forall i, j | 0 <= i < j < |rest| ensures rest[i] < rest[j] {
      assert rest[i] == s[i + 1] && rest[j] == s[j + 1];
    }
    if |rest| > 0 {
      forall k: Ordinal | s[0] + 1 <= k <= rest[|rest| - 1] && IsBusinessDay(k)
        ensures k in rest
      {
        assert k in s;
        var i :| 0 <= i < |s| && s[i] == k;
        assert i != 0;
        assert rest[i - 1] == k;
      }
    }
  }

  /** Two ranges of the same length from the same start are the same range. */
  lemma {:induction false} FirstBusinessDaysEqual(s: seq<Ordinal>, t: seq<Ordinal>, start: Ordinal)
    requires FirstBusinessDays(s, start) && FirstBusinessDays(t, start) && |s| == |t|
    ensures s == t
    decreases |s|
  {
    if |s| > 0 {
      FirstBusinessDaysHead(s, start);
      FirstBusinessDaysHead(t, start);
      FirstBusinessDaysTail(s, start);
      FirstBusinessDaysTail(t, start);
      FirstBusinessDaysEqual(s[1..], t[1..], s[0] + 1);
      assert s == [s[0]] + s[1..];
      assert t == [t[0]] + t[1..];
    }
  }

  /** The description has exactly one solution of each length: `BusinessDays`. */
  lemma FirstBusinessDaysUnique(s: seq<Ordinal>, start: Ordinal)
    requires FirstBusinessDays(s, start)
    ensures s == BusinessDays(start, |s|)
  {
    BusinessDaysNoneSkipped(start, |s|);
    FirstBusinessDaysEqual(s, BusinessDays(start, |s|), start);
  }

  /** The last calendar day a pandas `Timestamp` can hold (2262-04-11). */
  const LastRepresentable: Date := Date(2262, 4, 11)

  predicate Representable(o: Ordinal)
  {
    !DateBefore(LastRepresentable, CivilDate(o))
  }

  /** The label of day `o`: the `isoformat()` of its midnight. */
  function DateKey(o: Ordinal): string
  {
    IsoFormat(Midnight(CivilDate(o)))
  }

  /** The last day the labelling touches: the final label, or the start when there is none. */
  function LastLabelDay(lastTraining: Ordinal, horizon: nat): Ordinal
  {
    if horizon == 0 then lastTraining + 1 else BusinessDays(lastTraining + 1, horizon)[horizon - 1]
  }

  /** Strictly increasing strings. */
  predicate SortedKeys(keys: seq<string>)
  {
    forall i, j :: 0 <= i < j < |keys| ==> Below(keys[i], keys[j])
  }

  /** The labels of days that are all representable, one per day. */
  function Labels(dates: seq<Ordinal>): (keys: seq<string>)
    requires Increasing(dates)
    requires |dates| > 0 ==> Representable(dates[|dates| - 1])
    ensures |keys| == |dates|
    ensures forall i :: 0 <= i < |dates| ==> keys[i] == DateKey(dates[i])
    ensures SortedKeys(keys)
  {
    KeysAscending(dates);
    seq(|dates|, i requires 0 <= i < |dates| => DateKey(dates[i]))
  }

  /** An insertion-ordered dictionary: `keys[i]` maps to `values[i]`. */
  datatype Dict<V> = Dict(keys: seq<string>, values: seq<V>)

  /**
   * `GarchModel.__clean_prediction`: pair each forecast value of `row` (one
   * per horizon step) with the label of its business day; pandas raises
   * `OutOfBoundsDatetime` when the start or a label day passes the last
   * representable date.
   */
  function CleanPrediction<V>(lastTraining: Ordinal, row: seq<V>): (r: Result<Dict<V>>)
    ensures r.Success? ==> |r.value.keys| == |row| && r.value.values == row
    ensures r.Success? ==> SortedKeys(r.value.keys)
  {
    var start := lastTraining + 1;
    var dates := BusinessDays(start, |row|);
    if AllRepresentable(start, dates) then
      Success(Dict(Labels(dates), row))
    else
      Failure("OutOfBoundsDatetime")
  }

  predicate AllRepresentable(start: Ordinal, dates: seq<Ordinal>)
  {
    Representable(start) && forall i :: 0 <= i < |dates| ==> Representable(dates[i])
  }

  /** Every day the labelling touches is representable exactly when the last one is. */
  lemma LastDayDecides(lastTraining: Ordinal, horizon: nat)
    ensures AllRepresentable(lastTraining + 1, BusinessDays(lastTraining + 1, horizon))
            <==> Representable(LastLabelDay(lastTraining, horizon))
  {
    var dates := BusinessDays(lastTraining + 1, horizon);
    if Representable(LastLabelDay(lastTraining, horizon)) && horizon > 0 {
      var last := dates[horizon - 1];
      RepresentableDownward(lastTraining + 1, last);
      forall i | 0 <= i < horizon ensures Representable(dates[i]) {
        RepresentableDownward(dates[i], last);
      }
    }
  }

  /**
   * The labelling fails exactly when its last day (the last label, or the
   * start when the row is empty) is past the last representable date.
   */
  lemma CleanPredictionFailure<V>(lastTraining: Ordinal, row: seq<V>)
    ensures CleanPrediction(lastTraining, row).Failure? <==> !Representable(LastLabelDay(lastTraining, |row|))
  {
    LastDayDecides(lastTraining, |row|);
  }

  // ---------------------------------------------------------------------------
  // Labels sort like their days

  /** Calendar order of two dates is the chronological order of their midnights. */
  lemma MidnightEarlier(a: Date, b: Date)
    ensures Earlier(Midnight(a), Midnight(b)) <==> DateBefore(a, b)
  {
    var xs, ys, zeros := [a.year, a.month, a.day], [b.year, b.month, b.day], [0, 0, 0, 0];
    assert Clock(Midnight(a)) + [0] == xs + zeros;
    assert Clock(Midnight(b)) + [0] == ys + zeros;
    LexLessCommonTail(xs, ys, zeros);
    assert xs[1..] == [a.month, a.day] && ys[1..] == [b.month, b.day];
    assert xs[1..][1..] == [a.day] && ys[1..][1..] == [b.day];
    assert !LexLess(xs[1..][1..][1..], ys[1..][1..][1..]);
    assert LexLess(xs[1..][1..], ys[1..][1..]) <==> a.day < b.day;
    assert LexLess(xs[1..], ys[1..]) <==> a.month < b.month || (a.month == b.month && a.day < b.day);
  }

  /** A day before a representable day is representable. */
  lemma RepresentableDownward(o1: Ordinal, o2: Ordinal)
    requires o1 <= o2
    ensures Representable(o2) ==> Representable(o1)
  {
    if o1 < o2 {
      CivilDateMonotone(o1, o2);
    }
  }

  /** Later representable days get labels that sort later. */
  lemma DateKeyOrder(o1: Ordinal, o2: Ordinal)
    requires o1 < o2 && Representable(o2)
    ensures Below(DateKey(o1), DateKey(o2))
  {
    CivilDateMonotone(o1, o2);
    var a, b := Midnight(CivilDate(o1)), Midnight(CivilDate(o2));
    assert Valid(a) && Valid(b);
    MidnightEarlier(CivilDate(o1), CivilDate(o2));
    IsoFormatOrder(a, b);
  }

  lemma KeysAscending(dates: seq<Ordinal>)
    requires Increasing(dates)
    requires |dates| > 0 ==> Representable(dates[|dates| - 1])
    ensures forall i, j :: 0 <= i < j < |dates| ==> Below(DateKey(dates[i]), DateKey(dates[j]))
  {
    forall i, j | 0 <= i < j < |dates|
      ensures Below(DateKey(dates[i]), DateKey(dates[j]))
    {
      if j < |dates| - 1 {
        RepresentableDownward(dates[j], dates[|dates| - 1]);
      }
      DateKeyOrder(dates[i], dates[j]);
    }
  }

  // ---------------------------------------------------------------------------
  // The dictionary

  /** `dict(zip(keys, values))`: of two pairs with one key, the later one's value stays. */
  function ToMap<V>(keys: seq<string>, values: seq<V>): (m: map<string, V>)
    requires |keys| == |values|
    ensures forall k :: k in m <==> k in keys
  {
    if |keys| == 0 then map[]
    else
      var rest := ToMap(keys[1..], values[1..]);
      if keys[0] in rest then rest else rest[keys[0] := values[0]]
  }

  predicate Distinct(keys: seq<string>)
  {
    forall i, j :: 0 <= i < j < |keys| ==> keys[i] != keys[j]
  }

  /** With distinct keys the map keeps every pair: one entry per pair. */
  lemma {:induction false} ToMapDistinct<V>(keys: seq<string>, values: seq<V>)
    requires |keys| == |values| && Distinct(keys)
    ensures |ToMap(keys, values)| == |keys|
    ensures forall i :: 0 <= i < |keys| ==> ToMap(keys, values)[keys[i]] == values[i]
    decreases |keys|
  {
    if |keys| > 0 {
      var tail, tailValues := keys[1..], values[1..];
      assert Distinct(tail) by {
        forall i, j | 0 <= i < j < |tail| ensures tail[i] != tail[j] {
          assert tail[i] == keys[i + 1] && tail[j] == keys[j + 1];
        }
      }
      ToMapDistinct(tail, tailValues);
      var rest := ToMap(tail, tailValues);
      forall j | 0 <= j < |tail| ensures tail[j] != keys[0] {
        assert tail[j] == keys[j + 1];
      }
      assert keys[0] !in tail;
      assert ToMap(keys, values) == rest[keys[0] := values[0]];
      forall i | 0 <= i < |keys| ensures ToMap(keys, values)[keys[i]] == values[i] {
        if i > 0 {
          assert tail[i - 1] == keys[i] && tailValues[i - 1] == values[i];
        }
      }
    }
  }

  /**
   * The forecast dictionary: exactly one key per forecast value, each key
   * the label of its business day, the first of them the first business day
   * strictly after the last training day.
   */
  lemma ForecastDictionary<V>(lastTraining: Ordinal, row: seq<V>)
    requires CleanPrediction(lastTraining, row).Success?
    ensures |ToMap(CleanPrediction(lastTraining, row).value.keys, row)| == |row|
    ensures forall i :: 0 <= i < |row| ==>
              ToMap(CleanPrediction(lastTraining, row).value.keys, row)[DateKey(BusinessDays(lastTraining + 1, |row|)[i])] == row[i]
    ensures |row| > 0 ==> BusinessDays(lastTraining + 1, |row|)[0] == RollForward(lastTraining + 1)
  {
    var keys := CleanPrediction(lastTraining, row).value.keys;
    assert keys == Labels(BusinessDays(lastTraining + 1, |row|));
    forall i, j | 0 <= i < j < |keys| ensures keys[i] != keys[j] {
      BelowAsymmetric(keys[i], keys[j]);
    }
    ToMapDistinct(keys, row);
  }
}
