/**
 * Building the training series (`GarchModel.wrangle_data`).
 *
 * The method reads at most `n_observations + 1` rows of the ticker's table,
 * sorts them by date, oldest first, turns the closing prices into percentage
 * changes and drops the undefined first change. Prices stay opaque: a return
 * is recorded as the pair of closes it is computed from, together with the
 * date it is indexed by.
 */
module Returns {
  import opened Wrappers
  import opened Calendar

  /** One stored row: its trading day and its closing price. */
  datatype Row<P> = Row(date: Ordinal, close: P)

  /** The percentage change indexed by `date`, computed from two consecutive closes. */
  datatype Return<P> = Return(date: Ordinal, previous: P, current: P)

  /**
   * Reading with a row limit: the first `limit` rows the table holds, or all
   * of them when it holds fewer.
   */
  function ReadTable<P>(table: seq<Row<P>>, limit: nat): (r: seq<Row<P>>)
    ensures |r| <= limit && r <= table
    ensures |r| == limit || r == table
  {
    if |table| <= limit then table else table[..limit]
  }

  /** Oldest first; rows of one date may come in any order. */
  predicate Ascending<P>(rows: seq<Row<P>>)
  {
    forall i, j :: 0 <= i < j < |rows| ==> rows[i].date <= rows[j].date
  }

  predicate StrictlyAscending<P>(rows: seq<Row<P>>)
  {
    forall i, j :: 0 <= i < j < |rows| ==> rows[i].date < rows[j].date
  }

  predicate DistinctDates<P>(rows: seq<Row<P>>)
  {
    forall i, j :: 0 <= i < j < |rows| ==> rows[i].date != rows[j].date
  }

  /** Put `x` into an ascending sequence before the first row not older than it. */
  function Insert<P>(x: Row<P>, s: seq<Row<P>>): (r: seq<Row<P>>)
    requires Ascending(s)
    ensures |r| == |s| + 1 && r[0] == (if |s| == 0 || x.date <= s[0].date then x else s[0])
    ensures Ascending(r)
    ensures multiset(r) == multiset(s) + multiset{x}
  {
    if |s| == 0 || x.date <= s[0].date then [x] + s
    else
      var rest := Insert(x, s[1..]);
      assert s == [s[0]] + s[1..];
      assert s[0].date <= rest[0].date;
      [s[0]] + rest
  }

  /** `sort_index(ascending=True)`: the rows, rearranged oldest first. */
  function SortByDate<P>(rows: seq<Row<P>>): (r: seq<Row<P>>)
    ensures |r| == |rows| && Ascending(r)
    ensures multiset(r) == multiset(rows)
  {
    if |rows| == 0 then []
    else
      assert rows == [rows[0]] + rows[1..];
      Insert(rows[0], SortByDate(rows[1..]))
  }

  /** `pct_change()`: undefined for the first row, else the change from the row before. */
  function PctChange<P>(rows: seq<Row<P>>): (r: seq<Option<Return<P>>>)
    ensures |r| == |rows|
  {
    seq(|rows|, i requires 0 <= i < |rows| =>
      if i == 0 then None else Some(Return(rows[i].date, rows[i - 1].close, rows[i].close)))
  }

  /** `dropna()`: the defined entries, in order. */
  function DropNa<T>(xs: seq<Option<T>>): (r: seq<T>)
    ensures |r| <= |xs|
    ensures |r| == |xs| <==> forall i :: 0 <= i < |xs| ==> xs[i].Some?
  {
    if |xs| == 0 then []
    else
      assert xs == [xs[0]] + xs[1..];
      if xs[0].Some? then [xs[0].value] + DropNa(xs[1..]) else DropNa(xs[1..])
  }

  /**
   * `wrangle_data`: the returns of the (at most `n_observations + 1`) rows
   * read, oldest first. Each return is computed from two neighbouring rows
   * of the sorted table, so there is one return fewer than rows read.
   */
  function WrangleData<P>(table: seq<Row<P>>, nObservations: nat): (r: seq<Return<P>>)
    ensures var rows := SortByDate(ReadTable(table, nObservations + 1));
            |r| == (if |rows| == 0 then 0 else |rows| - 1)
            && forall i :: 0 <= i < |r| ==> r[i] == Return(rows[i + 1].date, rows[i].close, rows[i + 1].close)
    ensures |r| <= nObservations
    ensures |table| > nObservations ==> |r| == nObservations
    ensures forall i, j :: 0 <= i < j < |r| ==> r[i].date <= r[j].date
    ensures forall i :: 0 <= i < |r| - 1 ==> r[i].current == r[i + 1].previous
  {
    var rows := SortByDate(ReadTable(table, nObservations + 1));
    ReturnsOfRows(rows);
    ReturnsOfSortedRows(rows);
    DropNa(PctChange(rows))
  }

  // ---------------------------------------------------------------------------
  // Properties

  /**
   * `dropna` works piecewise: it keeps a defined entry's value, drops an
   * undefined entry, and on a concatenation is the concatenation of its
   * results. These three facts fix it completely: the values of the defined
   * entries, in their order.
   */
  lemma {:induction false} DropNaAppend<T>(xs: seq<Option<T>>, ys: seq<Option<T>>)
    ensures DropNa(xs + ys) == DropNa(xs) + DropNa(ys)
    decreases |xs|
  {
    if |xs| > 0 {
      assert (xs + ys)[0] == xs[0];
      assert (xs + ys)[1..] == xs[1..] + ys;
      DropNaAppend(xs[1..], ys);
    } else {
      assert xs + ys == ys;
    }
  }

  lemma DropNaSingle<T>(v: T)
    ensures DropNa([Some(v)]) == [v]
    ensures DropNa<T>([None]) == []
  {
  }

  /** Dropping a leading undefined entry of an otherwise defined series keeps the rest in place. */
  lemma {:induction false} DropNaAfterFirst<T>(xs: seq<Option<T>>)
    requires |xs| > 0 && xs[0].None?
    requires forall i :: 0 < i < |xs| ==> xs[i].Some?
    ensures |DropNa(xs)| == |xs| - 1
    ensures forall i :: 0 <= i < |xs| - 1 ==> DropNa(xs)[i] == xs[i + 1].value
  {
    assert xs == [xs[0]] + xs[1..];
    DropNaAllDefined(xs[1..]);
  }

  lemma {:induction false} DropNaAllDefined<T>(xs: seq<Option<T>>)
    requires forall i :: 0 <= i < |xs| ==> xs[i].Some?
    ensures |DropNa(xs)| == |xs|
    ensures forall i :: 0 <= i < |xs| ==> DropNa(xs)[i] == xs[i].value
  {
    if |xs| > 0 {
      DropNaAllDefined(xs[1..]);
      assert DropNa(xs) == [xs[0].value] + DropNa(xs[1..]);
    }
  }

  /** Each return comes from two neighbouring rows, and only the first row yields none. */
  lemma ReturnsOfRows<P>(rows: seq<Row<P>>)
    ensures var r := DropNa(PctChange(rows));
            |r| == (if |rows| == 0 then 0 else |rows| - 1)
            && forall i :: 0 <= i < |r| ==> r[i] == Return(rows[i + 1].date, rows[i].close, rows[i + 1].close)
  {
    var xs := PctChange(rows);
    if |rows| > 0 {
      assert xs[0].None?;
      assert forall i :: 0 < i < |xs| ==> xs[i].Some?;
      DropNaAfterFirst(xs);
      var r := DropNa(xs);
      forall i | 0 <= i < |r| ensures r[i] == Return(rows[i + 1].date, rows[i].close, rows[i + 1].close) {
        assert r[i] == xs[i + 1].value;
      }
    } else {
      assert xs == [];
    }
  }

  /** The returns of rows sorted oldest first are themselves in date order, and chain. */
  lemma ReturnsOfSortedRows<P>(rows: seq<Row<P>>)
    requires Ascending(rows)
    ensures var r := DropNa(PctChange(rows));
            (forall i, j :: 0 <= i < j < |r| ==> r[i].date <= r[j].date)
            && (forall i :: 0 <= i < |r| - 1 ==> r[i].current == r[i + 1].previous)
  {
    var r := DropNa(PctChange(rows));
    ReturnsOfRows(rows);
    forall i, j | 0 <= i < j < |r| ensures r[i].date <= r[j].date {
      assert r[i].date == rows[i + 1].date && r[j].date == rows[j + 1].date;
    }
    forall i | 0 <= i < |r| - 1 ensures r[i].current == r[i + 1].previous {
      assert r[i] == Return(rows[i + 1].date, rows[i].close, rows[i + 1].close);
      assert r[i + 1] == Return(rows[i + 2].date, rows[i + 1].close, rows[i + 2].close);
    }
  }

  /** Sorting rows that are already oldest first changes nothing. */
  lemma {:induction false} SortAscendingUnchanged<P>(rows: seq<Row<P>>)
    requires Ascending(rows)
    ensures SortByDate(rows) == rows
  {
    if |rows| > 0 {
      assert Ascending(rows[1..]) by {
        forall i, j | 0 <= i < j < |rows| - 1 ensures rows[1..][i].date <= rows[1..][j].date {
          assert rows[1..][i] == rows[i + 1] && rows[1..][j] == rows[j + 1];
        }
      }
      SortAscendingUnchanged(rows[1..]);
      assert rows == [rows[0]] + rows[1..];
    }
  }

  /** Inserting a row of a new date into a strictly ascending sequence keeps it strictly ascending. */
  lemma {:induction false} InsertStrict<P>(x: Row<P>, s: seq<Row<P>>)
    requires StrictlyAscending(s)
    requires forall y :: y in s ==> y.date != x.date
    ensures StrictlyAscending(Insert(x, s))
  {
    if |s| > 0 && x.date > s[0].date {
      assert StrictlyAscending(s[1..]) by {
        forall i, j | 0 <= i < j < |s| - 1 ensures s[1..][i].date < s[1..][j].date {
          assert s[1..][i] == s[i + 1] && s[1..][j] == s[j + 1];
        }
      }
      InsertStrict(x, s[1..]);
      var rest := Insert(x, s[1..]);
      forall y | y in rest ensures s[0].date < y.date {
        assert y in multiset(s[1..]) + multiset{x};
        if y != x {
          var k :| 0 <= k < |s[1..]| && s[1..][k] == y;
          assert y == s[k + 1];
        }
      }
      assert Insert(x, s) == [s[0]] + rest;
    }
  }

  /** Rows with pairwise different dates sort into strictly ascending order. */
  lemma {:induction false} SortStrict<P>(rows: seq<Row<P>>)
    requires DistinctDates(rows)
    ensures StrictlyAscending(SortByDate(rows))
  {
    if |rows| > 0 {
      assert DistinctDates(rows[1..]) by {
        forall i, j | 0 <= i < j < |rows| - 1 ensures rows[1..][i].date != rows[1..][j].date {
          assert rows[1..][i] == rows[i + 1] && rows[1..][j] == rows[j + 1];
        }
      }
      SortStrict(rows[1..]);
      var sorted := SortByDate(rows[1..]);
      forall y | y in sorted ensures y.date != rows[0].date {
        assert y in multiset(rows[1..]);
        var k :| 0 <= k < |rows[1..]| && rows[1..][k] == y;
        assert y == rows[k + 1];
      }
      InsertStrict(rows[0], sorted);
    }
  }

  /**
   * When the table holds each trading day once, the returns are indexed by
   * strictly increasing dates.
   */
  lemma WrangleStrictlyAscending<P>(table: seq<Row<P>>, nObservations: nat)
    requires DistinctDates(table)
    ensures var r := WrangleData(table, nObservations);
            forall i, j :: 0 <= i < j < |r| ==> r[i].date < r[j].date
  {
    var read := ReadTable(table, nObservations + 1);
    assert DistinctDates(read) by {
      forall i, j | 0 <= i < j < |read| ensures read[i].date != read[j].date {
        assert read[i] == table[i] && read[j] == table[j];
      }
    }
    SortStrict(read);
    var rows, r := SortByDate(read), WrangleData(table, nObservations);
    forall i, j | 0 <= i < j < |r| ensures r[i].date < r[j].date {
      assert r[i].date == rows[i + 1].date && r[j].date == rows[j + 1].date;
    }
  }
}
