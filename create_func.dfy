/**
 * The Create function: decode the body, take the identifier from the path,
 * require truthy `first_name`, `last_name` and `username`, and only then run
 * one INSERT with the binds `[user_id, first_name, last_name, username]`.
 */
module CreateFunc {
  import opened Wrappers
  import opened Json
  import opened Requests
  import opened Paths
  import opened UsersTable

  const MissingUserIdMessage: string := "Missing required fields: user_id"
  const MissingNamesMessage: string := "Missing required fields: first_name, last_name, username"
  const CreatedMessage: string := "User created successfully"

  /** The three name fields are present in the object and truthy. */
  predicate NamesPresent(fields: map<string, JsonValue>) {
    Truthy(Get(fields, "first_name")) && Truthy(Get(fields, "last_name")) && Truthy(Get(fields, "username"))
  }

  /**
   * `create_user` up to the statement: the INSERT binds, or the exception
   * raised before any connection is acquired.
   */
  function ValidateCreate(path: string, payload: JsonValue): (r: Result<seq<JsonValue>, Error>)
    ensures ExtractUserId(path).None? ==> r == Failure(ValueError(MissingUserIdMessage))
    ensures ExtractUserId(path).Some? && !payload.JObject? ==> r == Failure(AttributeError)
    ensures ExtractUserId(path).Some? && payload.JObject? && !NamesPresent(payload.fields) ==>
      r == Failure(ValueError(MissingNamesMessage))
    ensures r.Success? <==> ExtractUserId(path).Some? && payload.JObject? && NamesPresent(payload.fields)
    ensures r.Success? ==> InsertBinds(r.value) && r.value == [
      JString(ExtractUserId(path).value),
      payload.fields["first_name"], payload.fields["last_name"], payload.fields["username"]]
    ensures r.Success? ==> r.value[0].str != [] && forall i :: 1 <= i < 4 ==> Truthy(r.value[i])
  {
    var userId := ExtractUserId(path);
    // An extracted identifier is never empty, so `if not user_id` fails only without one.
    UserIdWellFormed(path);
    if MissingUserId(userId) then Failure(ValueError(MissingUserIdMessage))
    else if !payload.JObject? then Failure(AttributeError)
    else
      var firstName := Get(payload.fields, "first_name");
      var lastName := Get(payload.fields, "last_name");
      var username := Get(payload.fields, "username");
      if !Truthy(firstName) || !Truthy(lastName) || !Truthy(username) then
        Failure(ValueError(MissingNamesMessage))
      else
        Success([JString(userId.value), firstName, lastName, username])
  }

  /** `handler` then `create_user`: all checks first, the INSERT only when they pass. */
  function CreateRequest(path: string, body: seq<byte>, decode: Decoder): Result<seq<JsonValue>, Error> {
    match ParseBody(body, decode)
    case Failure(e) => Failure(e)
    case Success(payload) => ValidateCreate(path, payload)
  }

  /** An empty body is rejected before the path or the payload is looked at. */
  lemma EmptyBodyRejected(path: string, decode: Decoder)
    ensures CreateRequest(path, [], decode) == Failure(KeyError(NoKeysInPayload))
  {
  }

  /**
   * A create is accepted exactly when the body decodes to an object with the
   * three names truthy and the path carries an identifier; the binds are then
   * the identifier and the three names, in that order.
   */
  lemma CreateAccepted(path: string, body: seq<byte>, decode: Decoder)
    ensures CreateRequest(path, body, decode).Success? <==>
      body != [] && decode(body).Some? && ExtractUserId(path).Some? &&
      decode(body).value.JObject? && NamesPresent(decode(body).value.fields)
    ensures CreateRequest(path, body, decode).Success? ==>
      var fields := decode(body).value.fields;
      CreateRequest(path, body, decode).value ==
        [JString(ExtractUserId(path).value), fields["first_name"], fields["last_name"], fields["username"]]
  {
  }

  /**
   * One invocation of the Create function. A rejected request raises and
   * leaves the table as it was; an accepted one inserts exactly its row.
   * `createdOn` is what the `CREATED_ON` column default yields.
   */
  method Handler(table: Table, path: string, body: seq<byte>, decode: Decoder, createdOn: Option<Timestamp>)
    returns (out: Outcome)
    requires table.Valid()
    modifies table
    ensures table.Valid()
    ensures match CreateRequest(path, body, decode)
      case Failure(e) => out == Raised(e) && table.rows == old(table.rows)
      case Success(binds) =>
        if binds[0].str in old(table.rows) then
          out == Raised(DatabaseError) && table.rows == old(table.rows)
        else
          out == Returned(Message(CreatedMessage)) && table.rows == InsertRows(old(table.rows), binds, createdOn)
  {
    var request := CreateRequest(path, body, decode);
    if request.Failure? {
      return Raised(request.error);
    }
    var binds := request.value;
    var ok := table.Insert(binds, createdOn);
    if ok {
      out := Returned(Message(CreatedMessage));
    } else {
      out := Raised(DatabaseError);
    }
  }
}
