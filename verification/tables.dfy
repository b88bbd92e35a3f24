/**
 Generic semantics of the table queries the collection service issues: a row
 filter (the `.eq` and `.in` equality filters, the `.ilike` pattern filter,
 and `.delete()` with its complement) is `Filter`, and `.single()` is `Single`. A table is a sequence of rows in
 table order.
 */
module Tables {

  datatype Option<T> = None | Some(value: T)

  /** The rows of `rows` that satisfy `p`, in table order. */
  function Filter<T(!new)>(rows: seq<T>, p: T -> bool): (r: seq<T>)
    ensures |r| <= |rows|
    ensures forall x :: x in r <==> x in rows && p(x)
    ensures forall i :: 0 <= i < |r| ==> p(r[i])
  {
    if |rows| == 0 then []
    else
      var init := Filter(rows[..|rows| - 1], p);
      if p(rows[|rows| - 1]) then init + [rows[|rows| - 1]] else init
  }

  /** `.single()`: the row when exactly one row matched, nothing otherwise. */
  function Single<T(!new)>(rows: seq<T>): (r: Option<T>)
    ensures r.Some? <==> |rows| == 1
    ensures r.Some? ==> rows == [r.value]
  {
    if |rows| == 1 then Some(rows[0]) else None
  }

  /** At most one row of `rows` satisfies `p`: `p` selects by a unique key. */
  ghost predicate AtMostOne<T(!new)>(rows: seq<T>, p: T -> bool) {
    forall i, j :: 0 <= i < j < |rows| && p(rows[i]) ==> !p(rows[j])
  }

  /** No two rows of `rows` share a `key`: `key` is a unique key of the table. */
  ghost predicate DistinctKeys<T(!new), K>(rows: seq<T>, key: T -> K) {
    forall i, j :: 0 <= i < j < |rows| ==> key(rows[i]) != key(rows[j])
  }

  /** Filtering distributes over the concatenation of two tables. */
  lemma {:induction false} FilterAppend<T(!new)>(a: seq<T>, b: seq<T>, p: T -> bool)
    ensures Filter(a + b, p) == Filter(a, p) + Filter(b, p)
    decreases |b|
  {
    if |b| == 0 {
      assert a + b == a;
    } else {
      var b' := b[..|b| - 1];
      assert (a + b)[..|a + b| - 1] == a + b';
      FilterAppend(a, b', p);
    }
  }

  /** A filter every row passes keeps the whole table. */
  lemma {:induction false} FilterAll<T(!new)>(rows: seq<T>, p: T -> bool)
    requires forall x :: x in rows ==> p(x)
    ensures Filter(rows, p) == rows
    decreases |rows|
  {
    if |rows| > 0 {
      var init := rows[..|rows| - 1];
      assert forall x :: x in init ==> x in rows;
      FilterAll(init, p);
      assert init + [rows[|rows| - 1]] == rows;
    }
  }

  /** A filter no row passes leaves nothing. */
  lemma FilterNone<T(!new)>(rows: seq<T>, p: T -> bool)
    requires forall x :: x in rows ==> !p(x)
    ensures Filter(rows, p) == []
  {
  }

  /** Running the same filter twice is running it once. */
  lemma FilterIdempotent<T(!new)>(rows: seq<T>, p: T -> bool)
    ensures Filter(Filter(rows, p), p) == Filter(rows, p)
  {
  }

  /** A filter selecting by a unique key matches at most one row. */
  lemma {:induction false} FilterAtMostOne<T(!new)>(rows: seq<T>, p: T -> bool)
    requires AtMostOne(rows, p)
    ensures |Filter(rows, p)| <= 1
    decreases |rows|
  {
    if |rows| > 0 {
      var init := rows[..|rows| - 1];
      assert AtMostOne(init, p);
      FilterAtMostOne(init, p);
      if p(rows[|rows| - 1]) {
        forall x | x in init
          ensures !p(x)
        {
          var i :| 0 <= i < |init| && init[i] == x;
          assert rows[i] == x;
        }
        FilterNone(init, p);
      }
    }
  }

  /** Under a unique key, `.single()` finds a row exactly when one exists. */
  lemma SingleFindsUnique<T(!new)>(rows: seq<T>, p: T -> bool)
    requires AtMostOne(rows, p)
    ensures Single(Filter(rows, p)).Some? <==> exists x :: x in rows && p(x)
  {
    FilterAtMostOne(rows, p);
    var r := Filter(rows, p);
    if exists x :: x in rows && p(x) {
      var x :| x in rows && p(x);
      assert x in r;
    }
  }

  /** Deleting rows from a table keeps its unique keys unique. */
  lemma {:induction false} FilterDistinctKeys<T(!new), K>(rows: seq<T>, p: T -> bool, key: T -> K)
    requires DistinctKeys(rows, key)
    ensures DistinctKeys(Filter(rows, p), key)
    decreases |rows|
  {
    if |rows| > 0 {
      var init := rows[..|rows| - 1];
      var last := rows[|rows| - 1];
      assert DistinctKeys(init, key);
      FilterDistinctKeys(init, p, key);
      if p(last) {
        var f := Filter(init, p);
        forall i | 0 <= i < |f|
          ensures key(f[i]) != key(last)
        {
          assert f[i] in init;
          var k :| 0 <= k < |init| && init[k] == f[i];
          assert rows[k] == f[i];
        }
      }
    }
  }

  /** Inserting a row with a fresh key keeps the table's keys unique. */
  lemma AppendDistinctKeys<T(!new), K>(rows: seq<T>, x: T, key: T -> K)
    requires DistinctKeys(rows, key)
    requires forall y :: y in rows ==> key(y) != key(x)
    ensures DistinctKeys(rows + [x], key)
  {
  }

  /** Deleting by a filter the newest row fails, and every older row passes, undoes its insertion. */
  lemma FilterDropsAppended<T(!new)>(rows: seq<T>, x: T, p: T -> bool)
    requires forall y :: y in rows ==> p(y)
    requires !p(x)
    ensures Filter(rows + [x], p) == rows
  {
    assert (rows + [x])[..|rows|] == rows;
    FilterAll(rows, p);
  }
}
