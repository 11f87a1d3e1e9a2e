/**
 * The relational store behind the route handlers, as in-memory tables.
 * Every table of the schema has a serial primary key `id` followed by
 * its other columns; a table is a sequence of rows (in the order an
 * unordered SELECT returns them) together with the next serial value.
 */
module Tables {

  /** One row: its serial primary key and its remaining columns. */
  datatype Row<T> = Row(id: int, fields: T)

  /** The value of a table: its rows and the next value of its serial sequence. */
  datatype Store<T> = Store(rows: seq<Row<T>>, nextId: int)

  /** What the store reports when a statement is rejected. */
  datatype DbError = NotNullViolation

  /** The range of Postgres `integer`, the type of every `serial` key. */
  const MinInt4: int := -0x8000_0000
  const MaxInt4: int := 0x7fff_ffff

  predicate IsInt4(n: int) {
    MinInt4 <= n <= MaxInt4
  }

  /** The primary keys present in `rows`. */
  ghost function Ids<T(!new)>(rows: seq<Row<T>>): set<int> {
    set r | r in rows :: r.id
  }

  /**
   * The table's integrity: serial ids start at 1, every id was handed out
   * before (it lies below the counter), and the primary key is unique.
   */
  predicate WellFormed<T(!new)>(st: Store<T>) {
    && 1 <= st.nextId
    && (forall i :: 0 <= i < |st.rows| ==> 1 <= st.rows[i].id < st.nextId)
    && (forall i, j :: 0 <= i < j < |st.rows| ==> st.rows[i].id != st.rows[j].id)
  }

  /**
   * INSERT ... RETURNING: the new row gets the next serial id and goes
   * after the existing rows, which stay as they were.
   */
  function Insert<T(!new)>(st: Store<T>, f: T): (r: Store<T>)
    ensures |r.rows| == |st.rows| + 1 && r.rows[..|st.rows|] == st.rows
    ensures r.rows[|st.rows|] == Row(st.nextId, f)
    ensures WellFormed(st) ==> WellFormed(r) && st.nextId !in Ids(st.rows)
  {
    Store(st.rows + [Row(st.nextId, f)], st.nextId + 1)
  }

  /** DELETE ... WHERE id = `id`: the rows that survive, in their order. */
  function WithoutId<T(!new)>(rows: seq<Row<T>>, id: int): (r: seq<Row<T>>)
    ensures forall x :: multiset(r)[x] == if x.id == id then 0 else multiset(rows)[x]
    ensures forall x :: x in r <==> x in rows && x.id != id
    ensures |r| <= |rows|
  {
    if rows == [] then []
    else
      assert rows == [rows[0]] + rows[1..];
      if rows[0].id == id then WithoutId(rows[1..], id)
      else [rows[0]] + WithoutId(rows[1..], id)
  }

  /** The rows whose key is `id` (what a RETURNING clause after `WHERE id = id` yields). */
  function WithId<T(!new)>(rows: seq<Row<T>>, id: int): (r: seq<Row<T>>)
    ensures forall x :: x in r <==> x in rows && x.id == id
  {
    if rows == [] then []
    else if rows[0].id == id then [rows[0]] + WithId(rows[1..], id)
    else WithId(rows[1..], id)
  }

  /** UPDATE ... SET `f` WHERE id = `id`: every row with that key gets the new columns. */
  function SetWhereId<T(!new)>(rows: seq<Row<T>>, id: int, f: T): (r: seq<Row<T>>)
    ensures |r| == |rows|
    ensures forall i :: 0 <= i < |r| ==> r[i].id == rows[i].id
    ensures forall i :: 0 <= i < |r| ==> r[i] == if rows[i].id == id then Row(id, f) else rows[i]
  {
    if rows == [] then []
    else [if rows[0].id == id then Row(id, f) else rows[0]] + SetWhereId(rows[1..], id, f)
  }

  /** Deleting twice by the same key leaves what deleting once leaves. */
  lemma {:induction false} WithoutIdIdempotent<T(!new)>(rows: seq<Row<T>>, id: int)
    ensures WithoutId(WithoutId(rows, id), id) == WithoutId(rows, id)
  {
    if rows != [] {
      WithoutIdIdempotent(rows[1..], id);
    }
  }

  /** Deleting a key that is not present changes nothing. */
  lemma {:induction false} WithoutAbsentId<T(!new)>(rows: seq<Row<T>>, id: int)
    requires id !in Ids(rows)
    ensures WithoutId(rows, id) == rows
  {
    if rows != [] {
      assert rows[0] in rows;
      assert Ids(rows[1..]) <= Ids(rows) by {
        forall k | k in Ids(rows[1..]) ensures k in Ids(rows) {
          var x :| x in rows[1..] && x.id == k;
          assert x in rows;
        }
      }
      WithoutAbsentId(rows[1..], id);
      assert rows == [rows[0]] + rows[1..];
    }
  }

  /** Deleting rows keeps the table's integrity. */
  lemma {:induction false} WithoutIdWellFormed<T(!new)>(st: Store<T>, id: int)
    requires WellFormed(st)
    ensures WellFormed(Store(WithoutId(st.rows, id), st.nextId))
    decreases |st.rows|
  {
    if st.rows != [] {
      var x, tail := st.rows[0], st.rows[1..];
      assert WellFormed(Store(tail, st.nextId));
      WithoutIdWellFormed(Store(tail, st.nextId), id);
      var rest := WithoutId(tail, id);
      if x.id != id {
        forall y | y in rest ensures y.id != x.id {
          assert y in tail;
          var k :| 0 <= k < |tail| && tail[k] == y;
          assert st.rows[k + 1] == y;
        }
        ConsWellFormed(x, rest, st.nextId);
      }
    }
  }

  /** A row whose key is new and in range can go in front of a well-formed table. */
  lemma ConsWellFormed<T(!new)>(x: Row<T>, rest: seq<Row<T>>, nextId: int)
    requires WellFormed(Store(rest, nextId)) && 1 <= x.id < nextId
    requires forall y :: y in rest ==> y.id != x.id
    ensures WellFormed(Store([x] + rest, nextId))
  {
    var r := [x] + rest;
    forall i, j | 0 <= i < j < |r| ensures r[i].id != r[j].id {
      assert r[j] == rest[j - 1];
      if i == 0 {
        assert r[j] in rest;
      } else {
        assert r[i] == rest[i - 1];
      }
    }
  }

  /**
   * With a unique key, updating by the key of row `k` rewrites that row
   * alone: the row count and every other row stay the same.
   */
  lemma SetWhereIdOneRow<T(!new)>(st: Store<T>, k: int, f: T)
    requires WellFormed(st) && 0 <= k < |st.rows|
    ensures SetWhereId(st.rows, st.rows[k].id, f) == st.rows[k := Row(st.rows[k].id, f)]
  {
    var r := SetWhereId(st.rows, st.rows[k].id, f);
    forall i | 0 <= i < |r| ensures r[i] == st.rows[k := Row(st.rows[k].id, f)][i] {
      if i < k {
        assert st.rows[i].id != st.rows[k].id;
      } else if i > k {
        assert st.rows[k].id != st.rows[i].id;
      }
    }
  }

  /**
   * A table whose rows live here and are changed in place by the
   * statements the route handlers issue.
   */
  class Table<T(!new)> {
    var rows: seq<Row<T>>
    var nextId: int

    /** The table's current value. */
    function State(): Store<T>
      reads this
    {
      Store(rows, nextId)
    }

    predicate Valid()
      reads this
    {
      WellFormed(State())
    }

    /** A freshly created, empty table whose serial sequence starts at 1. */
    constructor ()
      ensures Valid() && rows == [] && nextId == 1
    {
      rows := [];
      nextId := 1;
    }

    /** INSERT INTO table VALUES (`f`) RETURNING *. */
    method InsertValues(f: T) returns (row: Row<T>)
      requires Valid()
      modifies this
      ensures Valid()
      ensures State() == Insert(old(State()), f)
      ensures row == Row(old(nextId), f) && row.id !in Ids(old(rows))
    {
      row := Row(nextId, f);
      rows := rows + [row];
      nextId := nextId + 1;
    }

    /**
     * DELETE FROM table WHERE id = `id`. A parameter outside the range of
     * the `integer` key column is rejected and the table stays as it was.
     */
    method DeleteWhereId(id: int) returns (ok: bool)
      requires Valid()
      modifies this
      ensures Valid()
      ensures ok == IsInt4(id)
      ensures rows == (if ok then WithoutId(old(rows), id) else old(rows)) && nextId == old(nextId)
    {
      if !IsInt4(id) {
        return false;
      }
      WithoutIdWellFormed(State(), id);
      rows := WithoutId(rows, id);
      ok := true;
    }

    /** UPDATE table SET `f` WHERE id = `id` RETURNING *. */
    method UpdateWhereId(id: int, f: T) returns (updated: seq<Row<T>>)
      requires Valid()
      modifies this
      ensures Valid()
      ensures rows == SetWhereId(old(rows), id, f) && nextId == old(nextId)
      ensures updated == WithId(rows, id)
    {
      rows := SetWhereId(rows, id, f);
      updated := WithId(rows, id);
    }
  }
}
