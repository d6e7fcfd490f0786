/**
 * The `users` table and the one SQL statement each handler runs against it.
 * The table is a map from `ID` to its row; the statements' effects are given
 * by the functions InsertRows, UpdateRows and DeleteRows, and the class
 * Table performs them in place.
 */
module UsersTable {
  import opened Wrappers
  import opened Json

  /** A `CREATED_ON` timestamp; its value is opaque to the handlers. */
  datatype Timestamp = Timestamp(micros: int)

  /**
   * One row of `users`. The name columns hold whatever value was bound
   * (JSON null is SQL NULL); `CREATED_ON` may be NULL.
   */
  datatype Row = Row(
    id: string,
    firstName: JsonValue,
    lastName: JsonValue,
    username: JsonValue,
    createdOn: Option<Timestamp>)

  type Rows = map<string, Row>

  /** Every row is stored under its own `ID`. */
  ghost predicate Keyed(rows: Rows) {
    forall k :: k in rows ==> rows[k].id == k
  }

  /** Shape of the bind list of `INSERT ... VALUES (:1, :2, :3, :4)`: the `ID` first. */
  predicate InsertBinds(binds: seq<JsonValue>) {
    |binds| == 4 && binds[0].JString?
  }

  /** Shape of the bind list of `UPDATE ... SET ... = :1, :2, :3 WHERE ID = :4`: the `ID` last. */
  predicate UpdateBinds(binds: seq<JsonValue>) {
    |binds| == 4 && binds[3].JString?
  }

  /**
   * `INSERT INTO users (ID, FIRST_NAME, LAST_NAME, USERNAME) VALUES (:1, :2, :3, :4)`
   * into a table without that `ID`: exactly one new row, bound positionally,
   * with the column default's `CREATED_ON`.
   */
  function InsertRows(rows: Rows, binds: seq<JsonValue>, createdOn: Option<Timestamp>): (r: Rows)
    requires InsertBinds(binds)
    ensures r.Keys == rows.Keys + {binds[0].str}
    ensures r[binds[0].str] == Row(binds[0].str, binds[1], binds[2], binds[3], createdOn)
    ensures forall k :: k in rows && k != binds[0].str ==> r[k] == rows[k]
  {
    var id := binds[0].str;
    rows[id := Row(id, binds[1], binds[2], binds[3], createdOn)]
  }

  /**
   * `UPDATE users SET FIRST_NAME = :1, LAST_NAME = :2, USERNAME = :3 WHERE ID = :4`:
   * the matching row, if any, gets all three name columns from the binds,
   * null included; its `ID` and `CREATED_ON` and every other row stay.
   */
  function UpdateRows(rows: Rows, binds: seq<JsonValue>): (r: Rows)
    requires UpdateBinds(binds)
    ensures r.Keys == rows.Keys
    ensures var id := binds[3].str;
      id in rows ==> r[id] == Row(rows[id].id, binds[0], binds[1], binds[2], rows[id].createdOn)
    ensures forall k :: k in rows && k != binds[3].str ==> r[k] == rows[k]
  {
    var id := binds[3].str;
    if id in rows then
      rows[id := rows[id].(firstName := binds[0], lastName := binds[1], username := binds[2])]
    else
      rows
  }

  /** `DELETE FROM users WHERE ID = :1`: that row goes, every other row stays. */
  function DeleteRows(rows: Rows, id: string): (r: Rows)
    ensures r.Keys == rows.Keys - {id}
    ensures forall k :: k in r ==> r[k] == rows[k]
  {
    rows - {id}
  }

  /** `fetched` lists every row of `rows` exactly once, in some order. */
  ghost predicate Enumerates(fetched: seq<Row>, rows: Rows) {
    && |fetched| == |rows|
    && (forall i :: 0 <= i < |fetched| ==> fetched[i].id in rows && rows[fetched[i].id] == fetched[i])
    && (forall i, j :: 0 <= i < j < |fetched| ==> fetched[i].id != fetched[j].id)
    && rows.Keys == Ids(fetched)
  }

  /** The `ID`s of a sequence of rows. */
  function Ids(fetched: seq<Row>): set<string> {
    set i | 0 <= i < |fetched| :: fetched[i].id
  }

  /** The statements keep every row under its own `ID`. */
  lemma StatementsKeepKeyed(rows: Rows, binds: seq<JsonValue>, createdOn: Option<Timestamp>, id: string)
    requires Keyed(rows)
    ensures InsertBinds(binds) ==> Keyed(InsertRows(rows, binds, createdOn))
    ensures UpdateBinds(binds) ==> Keyed(UpdateRows(rows, binds))
    ensures Keyed(DeleteRows(rows, id))
  {
  }

  /** Updating an `ID` that is not in the table changes nothing. */
  lemma UpdateMissingIsNoOp(rows: Rows, binds: seq<JsonValue>)
    requires UpdateBinds(binds) && binds[3].str !in rows
    ensures UpdateRows(rows, binds) == rows
  {
  }

  /** Deleting an `ID` that is not in the table changes nothing. */
  lemma DeleteMissingIsNoOp(rows: Rows, id: string)
    requires id !in rows
    ensures DeleteRows(rows, id) == rows
  {
  }

  /** Deleting the same `ID` twice leaves the table as deleting it once. */
  lemma DeleteIdempotent(rows: Rows, id: string)
    ensures DeleteRows(DeleteRows(rows, id), id) == DeleteRows(rows, id)
  {
  }

  /** The table, updated in place by the statements the handlers execute. */
  class Table {
    var rows: Rows

    ghost predicate Valid()
      reads this
    {
      Keyed(rows)
    }

    constructor ()
      ensures Valid() && rows == map[]
    {
      rows := map[];
    }

    /**
     * Executes the INSERT. An `ID` already present violates the table's
     * primary key: the driver raises (`ok` is false) and nothing changes.
     */
    method Insert(binds: seq<JsonValue>, createdOn: Option<Timestamp>) returns (ok: bool)
      requires Valid() && InsertBinds(binds)
      modifies this
      ensures Valid()
      ensures ok <==> binds[0].str !in old(rows)
      ensures rows == if ok then InsertRows(old(rows), binds, createdOn) else old(rows)
    {
      ok := binds[0].str !in rows;
      if ok {
        StatementsKeepKeyed(rows, binds, createdOn, binds[0].str);
        rows := InsertRows(rows, binds, createdOn);
      }
    }

    /** Executes the UPDATE; it succeeds whether or not a row matched. */
    method Update(binds: seq<JsonValue>)
      requires Valid() && UpdateBinds(binds)
      modifies this
      ensures Valid()
      ensures rows == UpdateRows(old(rows), binds)
    {
      StatementsKeepKeyed(rows, binds, None, binds[3].str);
      rows := UpdateRows(rows, binds);
    }

    /** Executes the DELETE; it succeeds whether or not a row matched. */
    method Delete(id: string)
      requires Valid()
      modifies this
      ensures Valid()
      ensures rows == DeleteRows(old(rows), id)
    {
      StatementsKeepKeyed(rows, [], None, id);
      rows := DeleteRows(rows, id);
    }

    /** `SELECT ... WHERE ID = :1` and `fetchone()`: the row with that `ID`, or none. */
    method SelectOne(id: string) returns (row: Option<Row>)
      requires Valid()
      ensures row.Some? <==> id in rows
      ensures row.Some? ==> row.value == rows[id] && row.value.id == id
    {
      row := if id in rows then Some(rows[id]) else None;
    }

    /**
     * `SELECT ...` without a `WHERE` and `fetchall()`: every row exactly once,
     * in an order the query does not fix.
     */
    method SelectAll() returns (fetched: seq<Row>)
      requires Valid()
      ensures Enumerates(fetched, rows)
    {
      var pending := rows.Keys;
      fetched := [];
      while pending != {}
        invariant pending <= rows.Keys
        invariant |fetched| + |pending| == |rows.Keys|
        invariant forall i :: 0 <= i < |fetched| ==>
          fetched[i].id in rows && rows[fetched[i].id] == fetched[i] && fetched[i].id !in pending
        invariant forall i, j :: 0 <= i < j < |fetched| ==> fetched[i].id != fetched[j].id
        invariant forall k :: k in rows && k !in pending ==> exists i :: 0 <= i < |fetched| && fetched[i].id == k
        decreases pending
      {
        var k :| k in pending;
        ghost var before := fetched;
        fetched := fetched + [rows[k]];
        pending := pending - {k};
        assert fetched[|before|].id == k;
        assert forall i :: 0 <= i < |before| ==> fetched[i] == before[i];
      }
      assert rows.Keys == Ids(fetched);
      assert |rows| == |rows.Keys|;
    }
  }
}
