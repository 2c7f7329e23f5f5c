/** One SQLite table with an `INTEGER PRIMARY KEY AUTOINCREMENT` id column, as a value.
    The rows are kept in rowid order, which is the order of a scan and of `ORDER BY id`;
    `lastId` is the table's entry in `sqlite_sequence`, the largest id ever issued. */
module Tables {
  import opened Results

  type Id = int

  datatype Row<T> = Row(id: Id, fields: T)

  datatype Table<T> = Table(rows: seq<Row<T>>, lastId: int)

  /** Ids strictly increase along the rows, so no two rows share an id. */
  ghost predicate Ascending<T>(rows: seq<Row<T>>) {
    forall i, j :: 0 <= i < j < |rows| ==> rows[i].id < rows[j].id
  }

  /** Every id is positive and at most the largest id issued so far. */
  ghost predicate Valid<T>(t: Table<T>) {
    && Ascending(t.rows)
    && 0 <= t.lastId
    && forall r :: r in t.rows ==> 1 <= r.id <= t.lastId
  }

  /** Some row carries this id. */
  predicate HasId<T>(rows: seq<Row<T>>, id: Id) {
    exists i :: 0 <= i < |rows| && rows[i].id == id
  }

  /** A freshly created table (`CREATE TABLE`): no rows, no id issued yet. */
  function EmptyTable<T>(): (t: Table<T>)
    ensures Valid(t)
    ensures t.lastId == 0 && NextId(t) == 1
    ensures forall id :: !HasId(t.rows, id)
  {
    Table([], 0)
  }

  /** `SELECT ... WHERE id = ?`: the row with that id, if any. */
  function Find<T>(rows: seq<Row<T>>, id: Id): (r: Option<Row<T>>)
    ensures r.Some? <==> HasId(rows, id)
    ensures r.Some? ==> r.value in rows && r.value.id == id
  {
    if rows == [] then None
    else if rows[0].id == id then Some(rows[0])
    else
      assert HasId(rows, id) ==> HasId(rows[1..], id) by {
        if HasId(rows, id) {
          var i :| 0 <= i < |rows| && rows[i].id == id;
          assert rows[1..][i - 1] == rows[i];
        }
      }
      Find(rows[1..], id)
  }

  /** In a table whose ids are unique, the row Find returns is the one row with that id. */
  lemma FindUnique<T>(rows: seq<Row<T>>, x: Row<T>)
    requires Ascending(rows)
    requires x in rows
    ensures Find(rows, x.id) == Some(x)
  {
    var i :| 0 <= i < |rows| && rows[i] == x;
    assert HasId(rows, x.id);
    var r := Find(rows, x.id);
    assert r.Some? && r.value in rows && r.value.id == x.id;
    var j :| 0 <= j < |rows| && rows[j] == r.value;
    assert rows[i].id == rows[j].id;
    assert !(i < j) && !(j < i);
  }

  /** The rows kept by a SQL `WHERE` condition, in their table order. */
  function Where<T(!new)>(rows: seq<Row<T>>, keep: Row<T> -> bool): (r: seq<Row<T>>)
    ensures forall x :: x in r <==> x in rows && keep(x)
    ensures Ascending(rows) ==> Ascending(r)
    ensures |r| <= |rows|
    ensures (forall x :: x in rows ==> keep(x)) ==> r == rows
  {
    if rows == [] then []
    else
      var rest := Where(rows[1..], keep);
      if keep(rows[0]) then
        HeadBelowTail(rows);
        [rows[0]] + rest
      else rest
  }

  /** Where keeps each kept row as many times as the input holds it, and drops all others. */
  lemma {:induction false} WhereCount<T(!new)>(rows: seq<Row<T>>, keep: Row<T> -> bool)
    ensures forall x :: multiset(Where(rows, keep))[x] == if keep(x) then multiset(rows)[x] else 0
  {
    if rows != [] {
      WhereCount(rows[1..], keep);
      assert rows == [rows[0]] + rows[1..];
    }
  }

  /** Rows with ascending ids are pairwise distinct. */
  lemma {:induction false} AscendingDistinct<T>(rows: seq<Row<T>>)
    requires Ascending(rows)
    ensures forall x :: multiset(rows)[x] <= 1
  {
    if rows != [] {
      assert Ascending(rows[1..]);
      AscendingDistinct(rows[1..]);
      HeadBelowTail(rows);
      assert rows == [rows[0]] + rows[1..];
      assert rows[0] !in rows[1..];
    }
  }

  lemma HeadBelowTail<T>(rows: seq<Row<T>>)
    requires rows != []
    ensures Ascending(rows) ==> forall x :: x in rows[1..] ==> rows[0].id < x.id
  {
    if Ascending(rows) {
      forall x | x in rows[1..] ensures rows[0].id < x.id {
        var k :| 0 <= k < |rows[1..]| && rows[1..][k] == x;
        assert rows[k + 1] == x;
      }
    }
  }

  /** The id the next insert receives: one past the largest id ever issued. */
  function NextId<T>(t: Table<T>): (id: Id)
    ensures Valid(t) ==> 1 <= id && forall r :: r in t.rows ==> r.id < id
  {
    t.lastId + 1
  }

  /** `INSERT INTO t (...) VALUES (...)`: the new row, with a fresh id, goes last in rowid order. */
  function InsertRow<T>(t: Table<T>, f: T): (t': Table<T>)
    ensures t'.rows == t.rows + [Row(NextId(t), f)]
    ensures t'.lastId == NextId(t) > t.lastId
    ensures Valid(t) ==> Valid(t') && !HasId(t.rows, NextId(t))
    ensures forall id :: HasId(t'.rows, id) <==> HasId(t.rows, id) || id == NextId(t)
  {
    HasIdAppend(t.rows, Row(NextId(t), f));
    Table(t.rows + [Row(NextId(t), f)], NextId(t))
  }

  lemma HasIdAppend<T>(rows: seq<Row<T>>, r: Row<T>)
    ensures forall id :: HasId(rows + [r], id) <==> HasId(rows, id) || id == r.id
  {
    forall id ensures HasId(rows + [r], id) <==> HasId(rows, id) || id == r.id {
      if HasId(rows, id) {
        var i :| 0 <= i < |rows| && rows[i].id == id;
        assert (rows + [r])[i] == rows[i];
      }
      assert (rows + [r])[|rows|] == r;
    }
  }

  /** Assign `f` to every row whose id is `id`; every id stays where it is. */
  function Assign<T>(rows: seq<Row<T>>, id: Id, f: T): (r: seq<Row<T>>)
    ensures |r| == |rows|
    ensures forall i :: 0 <= i < |rows| ==> r[i].id == rows[i].id
    ensures forall i :: 0 <= i < |rows| ==> r[i].fields == if rows[i].id == id then f else rows[i].fields
  {
    if rows == [] then []
    else [if rows[0].id == id then Row(id, f) else rows[0]] + Assign(rows[1..], id, f)
  }

  /** `UPDATE t SET ... WHERE id = ?`: a full replace of the fields of the row with that id. */
  function UpdateRow<T(!new)>(t: Table<T>, id: Id, f: T): (t': Table<T>)
    ensures t'.lastId == t.lastId
    ensures Valid(t) ==> Valid(t')
    ensures forall x :: HasId(t'.rows, x) <==> HasId(t.rows, x)
    ensures forall r :: r in t'.rows <==> (r in t.rows && r.id != id) || (r == Row(id, f) && HasId(t.rows, id))
    ensures !HasId(t.rows, id) ==> t' == t
  {
    var rows := Assign(t.rows, id, f);
    assert forall k :: 0 <= k < |rows| ==> rows[k] == if t.rows[k].id == id then Row(id, f) else t.rows[k];
    assert !HasId(t.rows, id) ==> rows == t.rows;
    Table(rows, t.lastId)
  }

  /** `DELETE FROM t WHERE id = ?`: drop the row with that id; the id counter is untouched,
      so a deleted id is never issued again. */
  function DeleteRow<T(!new)>(t: Table<T>, id: Id): (t': Table<T>)
    ensures t'.lastId == t.lastId
    ensures forall r :: r in t'.rows <==> r in t.rows && r.id != id
    ensures Valid(t) ==> Valid(t')
    ensures !HasId(t'.rows, id)
    ensures !HasId(t.rows, id) ==> t' == t
  {
    Table(Where(t.rows, (r: Row<T>) => r.id != id), t.lastId)
  }

  /** A write to one table; a write that matches no row leaves the table as it is. */
  datatype Write<T> = Insert(fields: T) | Update(id: Id, fields: T) | Delete(id: Id)

  function Apply<T(!new)>(t: Table<T>, w: Write<T>): Table<T> {
    match w
    case Insert(f) => InsertRow(t, f)
    case Update(id, f) => UpdateRow(t, id, f)
    case Delete(id) => DeleteRow(t, id)
  }

  function ApplyAll<T(!new)>(t: Table<T>, ws: seq<Write<T>>): Table<T>
    decreases |ws|
  {
    if ws == [] then t else ApplyAll(Apply(t, ws[0]), ws[1..])
  }

  /** The ids handed out by the inserts among `ws`, in the order they were issued. */
  function Issued<T(!new)>(t: Table<T>, ws: seq<Write<T>>): seq<Id>
    decreases |ws|
  {
    if ws == [] then []
    else (if ws[0].Insert? then [NextId(t)] else []) + Issued(Apply(t, ws[0]), ws[1..])
  }

  /** AUTOINCREMENT: along any history of inserts, updates and deletes, every issued id is
      larger than every id issued before it (in particular, than any id since deleted), all of
      them lie between the starting counter and the final one, and the table stays valid. */
  lemma {:induction false} IdsNeverReused<T(!new)>(t: Table<T>, ws: seq<Write<T>>)
    requires Valid(t)
    ensures Valid(ApplyAll(t, ws))
    ensures forall i, j :: 0 <= i < j < |Issued(t, ws)| ==> Issued(t, ws)[i] < Issued(t, ws)[j]
    ensures forall i :: 0 <= i < |Issued(t, ws)| ==> t.lastId < Issued(t, ws)[i] <= ApplyAll(t, ws).lastId
    ensures t.lastId <= ApplyAll(t, ws).lastId
    decreases |ws|
  {
    if ws != [] {
      var t1 := Apply(t, ws[0]);
      IdsNeverReused(t1, ws[1..]);
      var head: seq<Id> := if ws[0].Insert? then [NextId(t)] else [];
      assert Issued(t, ws) == head + Issued(t1, ws[1..]);
      assert ws[0].Insert? ==> t1.lastId == NextId(t);
    }
  }
}
