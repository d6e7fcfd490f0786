/**
 * The Read function: with an identifier in the path, one row or a soft
 * "User not found"; without one, every row. `CREATED_ON` is turned into its
 * ISO 8601 text when it is not NULL. The table is only read.
 */
module ReadFunc {
  import opened Wrappers
  import opened Json
  import opened Requests
  import opened Paths
  import opened UsersTable

  const NotFoundMessage: string := "User not found"

  /** `datetime.isoformat()`, left abstract. */
  type IsoFormat = Timestamp -> string

  /** Which query `handler` runs for a request path. */
  datatype Route = ReadAll | ReadOne(id: string)

  /** `handler`: `if not user_id` dispatches to read-all, otherwise to read-one. */
  function RouteOf(path: string): Route {
    var userId := ExtractUserId(path);
    if MissingUserId(userId) then ReadAll else ReadOne(userId.value)
  }

  /** Read-one is chosen exactly for an extracted identifier, and for exactly that identifier. */
  lemma RouteIsUserId(path: string)
    ensures RouteOf(path) == ReadAll <==> ExtractUserId(path).None?
    ensures forall id :: RouteOf(path) == ReadOne(id) <==> ExtractUserId(path) == Some(id)
  {
    UserIdWellFormed(path);
  }

  /** The `CREATED_ON` value after `if result.get("CREATED_ON")`: converted when not NULL. */
  function CreatedOnJson(createdOn: Option<Timestamp>, iso: IsoFormat): JsonValue {
    match createdOn
    case None => JNull
    case Some(t) => JString(iso(t))
  }

  /** A fetched row as the JSON object the response carries, keyed by column name. */
  function RowObject(row: Row, iso: IsoFormat): JsonValue {
    JObject(map[
      "ID" := JString(row.id),
      "FIRST_NAME" := row.firstName,
      "LAST_NAME" := row.lastName,
      "USERNAME" := row.username,
      "CREATED_ON" := CreatedOnJson(row.createdOn, iso)])
  }

  /**
   * The object has exactly the five selected columns; the identifier and the
   * names are passed through untouched and `CREATED_ON` is its ISO text, or
   * null when the column is NULL.
   */
  lemma RowObjectFields(row: Row, iso: IsoFormat)
    ensures var v := RowObject(row, iso);
      && v.JObject?
      && v.fields.Keys == {"ID", "FIRST_NAME", "LAST_NAME", "USERNAME", "CREATED_ON"}
      && v.fields["ID"] == JString(row.id)
      && v.fields["FIRST_NAME"] == row.firstName
      && v.fields["LAST_NAME"] == row.lastName
      && v.fields["USERNAME"] == row.username
      && (row.createdOn.Some? ==> v.fields["CREATED_ON"] == JString(iso(row.createdOn.value)))
      && (row.createdOn.None? ==> v.fields["CREATED_ON"] == JNull)
  {
  }

  /** The response of `read_user` for a table: the row's object, or the not-found message. */
  function ReadOneResponse(rows: Rows, id: string, iso: IsoFormat): JsonValue {
    if id in rows then RowObject(rows[id], iso) else Message(NotFoundMessage)
  }

  /**
   * Read-one answers "User not found" exactly when no row has the identifier,
   * and otherwise that row's object: a found row is never mistaken for the message.
   */
  lemma ReadOneFoundOrNot(rows: Rows, id: string, iso: IsoFormat)
    ensures ReadOneResponse(rows, id, iso) == Message(NotFoundMessage) <==> id !in rows
    ensures id in rows ==> ReadOneResponse(rows, id, iso) == RowObject(rows[id], iso)
  {
    if id in rows {
      assert "ID" in RowObject(rows[id], iso).fields;
      assert "ID" !in Message(NotFoundMessage).fields;
    }
  }

  /** `read_user`: a missing row is answered, not raised. */
  method ReadUser(table: Table, id: string, iso: IsoFormat) returns (response: JsonValue)
    requires table.Valid()
    ensures id in table.rows ==> response == RowObject(table.rows[id], iso)
    ensures id !in table.rows ==> response == Message(NotFoundMessage)
  {
    var row := table.SelectOne(id);
    match row
    case Some(r) => response := RowObject(r, iso);
    case None => response := Message(NotFoundMessage);
  }

  /** The objects `read_all_users` answers with for rows fetched in this order: one per row, converted. */
  function RowObjects(fetched: seq<Row>, iso: IsoFormat): (objects: seq<JsonValue>)
    ensures |objects| == |fetched|
    ensures forall i :: 0 <= i < |fetched| ==> objects[i] == RowObject(fetched[i], iso)
  {
    seq(|fetched|, i requires 0 <= i < |fetched| => RowObject(fetched[i], iso))
  }

  /** The loop of `read_all_users`: every fetched row converted, in fetch order. */
  method ConvertRows(fetched: seq<Row>, iso: IsoFormat) returns (objects: seq<JsonValue>)
    ensures |objects| == |fetched|
    ensures forall i :: 0 <= i < |fetched| ==> objects[i] == RowObject(fetched[i], iso)
    ensures objects == RowObjects(fetched, iso)
  {
    objects := [];
    var i := 0;
    while i < |fetched|
      invariant 0 <= i <= |fetched|
      invariant |objects| == i
      invariant forall j :: 0 <= j < i ==> objects[j] == RowObject(fetched[j], iso)
    {
      objects := objects + [RowObject(fetched[i], iso)];
      i := i + 1;
    }
  }

  /** `read_all_users`: the table's rows in the order the query returned them, each converted. */
  method ReadAllUsers(table: Table, iso: IsoFormat) returns (response: JsonValue)
    requires table.Valid()
    ensures response.JArray?
    ensures exists fetched :: Enumerates(fetched, table.rows) && response.items == RowObjects(fetched, iso)
  {
    var fetched := table.SelectAll();
    var objects := ConvertRows(fetched, iso);
    response := JArray(objects);
  }

  /** Each object answered for `fetched` is the object of a row of the table. */
  ghost predicate EachObjectIsRow(objects: seq<JsonValue>, fetched: seq<Row>, rows: Rows, iso: IsoFormat)
    requires |objects| == |fetched|
  {
    forall i :: 0 <= i < |fetched| ==> fetched[i].id in rows && objects[i] == RowObject(rows[fetched[i].id], iso)
  }

  /** Every row of the table has its object among those answered. */
  ghost predicate EveryRowAnswered(objects: seq<JsonValue>, rows: Rows, iso: IsoFormat) {
    forall id :: id in rows ==> exists i :: 0 <= i < |objects| && objects[i] == RowObject(rows[id], iso)
  }

  /**
   * Read-all answers with as many objects as the table has rows: each object
   * is some row's, and every row has its object.
   */
  lemma ReadAllCoversTable(fetched: seq<Row>, rows: Rows, iso: IsoFormat)
    requires Enumerates(fetched, rows)
    ensures |RowObjects(fetched, iso)| == |rows|
    ensures EachObjectIsRow(RowObjects(fetched, iso), fetched, rows, iso)
    ensures EveryRowAnswered(RowObjects(fetched, iso), rows, iso)
  {
    EachObjectIsARow(fetched, rows, iso);
    EveryRowHasItsObject(fetched, rows, iso);
  }

  lemma EachObjectIsARow(fetched: seq<Row>, rows: Rows, iso: IsoFormat)
    requires Enumerates(fetched, rows)
    ensures EachObjectIsRow(RowObjects(fetched, iso), fetched, rows, iso)
  {
  }

  lemma EveryRowHasItsObject(fetched: seq<Row>, rows: Rows, iso: IsoFormat)
    requires Enumerates(fetched, rows)
    ensures EveryRowAnswered(RowObjects(fetched, iso), rows, iso)
  {
    var objects := RowObjects(fetched, iso);
    forall id | id in rows
      ensures exists i :: 0 <= i < |objects| && objects[i] == RowObject(rows[id], iso)
    {
      assert id in Ids(fetched);
      var i :| 0 <= i < |fetched| && fetched[i].id == id;
      assert objects[i] == RowObject(fetched[i], iso);
    }
  }

  /** One invocation of the Read function; it never changes the table. */
  method Handler(table: Table, path: string, iso: IsoFormat) returns (out: Outcome)
    requires table.Valid()
    ensures out.Returned?
    ensures RouteOf(path).ReadOne? ==> out.body == ReadOneResponse(table.rows, RouteOf(path).id, iso)
    ensures RouteOf(path) == ReadAll ==>
      out.body.JArray? &&
      exists fetched :: Enumerates(fetched, table.rows) && out.body.items == RowObjects(fetched, iso)
  {
    match RouteOf(path)
    case ReadAll =>
      var response := ReadAllUsers(table, iso);
      out := Returned(response);
    case ReadOne(id) =>
      var response := ReadUser(table, id, iso);
      out := Returned(response);
  }
}
