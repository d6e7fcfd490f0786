/**
 * Properties that span handlers: what a read returns after a create, an
 * update or a delete, and the create / read / delete / read round of a
 * single user.
 */
module Scenarios {
  import opened Wrappers
  import opened Json
  import opened Requests
  import opened Paths
  import opened UsersTable
  import CreateFunc
  import ReadFunc
  import UpdateFunc
  import DeleteFunc

  /**
   * After an accepted create of a fresh identifier, reading that path selects
   * the new row and returns the three names exactly as the payload gave them,
   * a column being modelled as storing the JSON value bound to it.
   */
  lemma CreateThenRead(rows: Rows, path: string, body: seq<byte>, decode: Decoder,
                      createdOn: Option<Timestamp>, iso: ReadFunc.IsoFormat)
    requires CreateFunc.CreateRequest(path, body, decode).Success?
    requires ExtractUserId(path).value !in rows
    ensures var id := ExtractUserId(path).value;
      var fields := decode(body).value.fields;
      var after := InsertRows(rows, CreateFunc.CreateRequest(path, body, decode).value, createdOn);
      var v := ReadFunc.ReadOneResponse(after, id, iso);
      && ReadFunc.RouteOf(path) == ReadFunc.ReadOne(id)
      && v.JObject?
      && v.fields["ID"] == JString(id)
      && v.fields["FIRST_NAME"] == fields["first_name"]
      && v.fields["LAST_NAME"] == fields["last_name"]
      && v.fields["USERNAME"] == fields["username"]
  {
    var id := ExtractUserId(path).value;
    var binds := CreateFunc.CreateRequest(path, body, decode).value;
    CreateFunc.CreateAccepted(path, body, decode);
    ReadFunc.RouteIsUserId(path);
    var after := InsertRows(rows, binds, createdOn);
    ReadFunc.RowObjectFields(after[id], iso);
  }

  /**
   * After an accepted update of an existing row, reading it returns the
   * payload's names, null for each one the payload left out.
   */
  lemma UpdateThenRead(rows: Rows, path: string, body: seq<byte>, decode: Decoder, iso: ReadFunc.IsoFormat)
    requires UpdateFunc.UpdateRequest(path, body, decode).Success?
    requires ExtractUserId(path).value in rows
    ensures var id := ExtractUserId(path).value;
      var fields := decode(body).value.fields;
      var after := UpdateRows(rows, UpdateFunc.UpdateRequest(path, body, decode).value);
      var v := ReadFunc.ReadOneResponse(after, id, iso);
      && v.JObject?
      && v.fields["FIRST_NAME"] == Get(fields, "first_name")
      && v.fields["LAST_NAME"] == Get(fields, "last_name")
      && v.fields["USERNAME"] == Get(fields, "username")
      && v.fields["CREATED_ON"] == ReadFunc.CreatedOnJson(rows[id].createdOn, iso)
  {
    var id := ExtractUserId(path).value;
    var payload := decode(body).value;
    UpdateFunc.UpdateBindValues(path, payload);
    var after := UpdateRows(rows, UpdateFunc.UpdateRequest(path, body, decode).value);
    ReadFunc.RowObjectFields(after[id], iso);
  }

  /** After an accepted delete, reading the same path answers "User not found". */
  lemma DeleteThenRead(rows: Rows, path: string, iso: ReadFunc.IsoFormat)
    requires DeleteFunc.DeleteTarget(path).Success?
    ensures var id := DeleteFunc.DeleteTarget(path).value;
      && ReadFunc.RouteOf(path) == ReadFunc.ReadOne(id)
      && ReadFunc.ReadOneResponse(DeleteRows(rows, id), id, iso) == Message(ReadFunc.NotFoundMessage)
  {
    ReadFunc.RouteIsUserId(path);
  }

  /**
   * Create `{"first_name": "Alice", "last_name": "Lee", "username": "alee"}` at
   * `/users/42`, read it back, delete it, and read it again.
   */
  lemma AliceRoundTrip(rows: Rows, body: seq<byte>, decode: Decoder,
                       createdOn: Option<Timestamp>, iso: ReadFunc.IsoFormat)
    requires body != []
    requires decode(body) == Some(JObject(map[
      "first_name" := JString("Alice"), "last_name" := JString("Lee"), "username" := JString("alee")]))
    requires "42" !in rows
    ensures CreateFunc.CreateRequest(AlicePath, body, decode) == Success(AliceBinds)
    ensures var created := InsertRows(rows, AliceBinds, createdOn);
      && ReadFunc.RouteOf(AlicePath) == ReadFunc.ReadOne("42")
      && ReadFunc.ReadOneResponse(created, "42", iso) ==
           ReadFunc.RowObject(Row("42", JString("Alice"), JString("Lee"), JString("alee"), createdOn), iso)
      && DeleteFunc.DeleteTarget(AlicePath) == Success("42")
      && ReadFunc.ReadOneResponse(DeleteRows(created, "42"), "42", iso) == Message(ReadFunc.NotFoundMessage)
  {
    AlicePathYields42();
    AliceCreated(AlicePath, body, decode);
    AliceReadAndDeleted(rows, createdOn, iso);
  }

  /** The request path `/users/42`. */
  const AlicePath: string := [Slash] + UsersSegment + [Slash] + "42"

  lemma AlicePathYields42()
    ensures ExtractUserId(AlicePath) == Some("42")
  {
    assert Slash !in "42";
    UsersPathYieldsId("42");
  }

  const AliceBinds: seq<JsonValue> := [JString("42"), JString("Alice"), JString("Lee"), JString("alee")]

  lemma AliceCreated(path: string, body: seq<byte>, decode: Decoder)
    requires ExtractUserId(path) == Some("42")
    requires body != []
    requires decode(body) == Some(JObject(map[
      "first_name" := JString("Alice"), "last_name" := JString("Lee"), "username" := JString("alee")]))
    ensures CreateFunc.CreateRequest(path, body, decode) == Success(AliceBinds)
  {
    var fields := map["first_name" := JString("Alice"), "last_name" := JString("Lee"), "username" := JString("alee")];
    var names := [fields["first_name"], fields["last_name"], fields["username"]];
    assert names == [JString("Alice"), JString("Lee"), JString("alee")];
    assert CreateFunc.NamesPresent(fields) by {
      assert Truthy(names[0]) && Truthy(names[1]) && Truthy(names[2]);
    }
    assert CreateFunc.CreateRequest(path, body, decode) == Success([JString("42")] + names) by {
      assert decode(body).value.fields == fields;
      assert ExtractUserId(path).value == "42";
      CreateFunc.CreateAccepted(path, body, decode);
      var binds := CreateFunc.CreateRequest(path, body, decode).value;
      assert binds == [JString("42"), fields["first_name"], fields["last_name"], fields["username"]];
      assert binds == [JString("42")] + names;
    }
  }

  lemma AliceReadAndDeleted(rows: Rows, createdOn: Option<Timestamp>, iso: ReadFunc.IsoFormat)
    requires "42" !in rows
    ensures var created := InsertRows(rows, AliceBinds, createdOn);
      && ReadFunc.RouteOf(AlicePath) == ReadFunc.ReadOne("42")
      && ReadFunc.ReadOneResponse(created, "42", iso) ==
           ReadFunc.RowObject(Row("42", JString("Alice"), JString("Lee"), JString("alee"), createdOn), iso)
      && DeleteFunc.DeleteTarget(AlicePath) == Success("42")
      && ReadFunc.ReadOneResponse(DeleteRows(created, "42"), "42", iso) == Message(ReadFunc.NotFoundMessage)
  {
    AlicePathYields42();
    ReadFunc.RouteIsUserId(AlicePath);
  }
}
