/**
 * The Update function: startup (required settings, the wallet source, the
 * `sqlnet.ora` patch) and the handler, which overwrites all three name
 * columns of the row named by the path with whatever the payload holds,
 * null for an absent key.
 */
module UpdateFunc {
  import opened Wrappers
  import opened Json
  import opened Requests
  import opened Paths
  import opened UsersTable
  import Text

  // ---------------------------------------------------------------- startup

  /** Where the wallet archive comes from: a bucket object, or generated from the database. */
  datatype WalletSource = Bucket(bucket: string, objectName: string) | AutonomousDb(ocid: string)

  /** Connection settings of the Update function. */
  datatype UpdateSettings = UpdateSettings(user: string, password: string, service: string, wallet: WalletSource)

  /**
   * The configuration block run when the container starts: `DBUSER`,
   * `DBPWD_CYPHER` and `DBSVC` in that order, then the wallet source, the
   * bucket pair taking precedence over `ADB_OCID`.
   */
  function LoadSettings(env: Environment): (r: Result<UpdateSettings, string>)
    ensures "DBUSER" !in env ==> r == Failure("ERROR: Missing configuration key DBUSER")
    ensures "DBUSER" in env && "DBPWD_CYPHER" !in env ==> r == Failure("ERROR: Missing configuration key DBPWD_CYPHER")
    ensures "DBUSER" in env && "DBPWD_CYPHER" in env && "DBSVC" !in env ==>
      r == Failure("ERROR: Missing configuration key DBSVC")
    ensures r.Success? ==>
      r.value.user == env["DBUSER"] && r.value.password == env["DBPWD_CYPHER"] && r.value.service == env["DBSVC"]
  {
    if "DBUSER" !in env then Failure("ERROR: Missing configuration key DBUSER")
    else if "DBPWD_CYPHER" !in env then Failure("ERROR: Missing configuration key DBPWD_CYPHER")
    else if "DBSVC" !in env then Failure("ERROR: Missing configuration key DBSVC")
    else if "DBWALLET_BUCKET" in env && "DBWALLET_OBJECT" in env then
      Success(UpdateSettings(env["DBUSER"], env["DBPWD_CYPHER"], env["DBSVC"],
        Bucket(env["DBWALLET_BUCKET"], env["DBWALLET_OBJECT"])))
    else if "ADB_OCID" in env then
      Success(UpdateSettings(env["DBUSER"], env["DBPWD_CYPHER"], env["DBSVC"], AutonomousDb(env["ADB_OCID"])))
    else Failure("ERROR: Missing configuration key DBWALLET_BUCKET with DBWALLET_OBJECT, or ADB_OCID")
  }

  /** The three connection keys are all set. */
  predicate HasConnectionKeys(env: Environment) {
    "DBUSER" in env && "DBPWD_CYPHER" in env && "DBSVC" in env
  }

  /**
   * With the connection keys set, the bucket is chosen exactly when both bucket
   * keys are set, the database otherwise exactly when `ADB_OCID` is, and
   * startup fails when neither is available. Without them startup fails.
   */
  lemma WalletSourceSelection(env: Environment)
    ensures !HasConnectionKeys(env) ==> LoadSettings(env).Failure?
    ensures HasConnectionKeys(env) ==>
      var r := LoadSettings(env);
      && (r.Success? && r.value.wallet.Bucket? <==> "DBWALLET_BUCKET" in env && "DBWALLET_OBJECT" in env)
      && (r.Success? && r.value.wallet.AutonomousDb? <==>
            !("DBWALLET_BUCKET" in env && "DBWALLET_OBJECT" in env) && "ADB_OCID" in env)
      && (r.Failure? <==> !("DBWALLET_BUCKET" in env && "DBWALLET_OBJECT" in env) && "ADB_OCID" !in env)
      && (r.Success? && r.value.wallet.Bucket? ==>
            r.value.wallet == Bucket(env["DBWALLET_BUCKET"], env["DBWALLET_OBJECT"]))
      && (r.Success? && r.value.wallet.AutonomousDb? ==> r.value.wallet == AutonomousDb(env["ADB_OCID"]))
  {
  }

  /** The directory the wallet archive is extracted into. */
  const WalletDir: string := "/tmp/dbwallet"

  /** The default directory the downloaded `sqlnet.ora` points at. */
  const Placeholder: string := "DIRECTORY=\"?/network/admin\""

  /** What it is rewritten to: the extraction directory. */
  const Replacement: string := "DIRECTORY=\"" + WalletDir + "\""

  /** The new text of `sqlnet.ora`: `text.replace(Placeholder, Replacement)`. */
  function PatchSqlnet(text: string): string {
    Text.Replace(text, Placeholder, Replacement)
  }

  /**
   * The original file is its placeholder-free pieces joined by the placeholder,
   * and the patched file is the same pieces joined by the replacement: every
   * placeholder is rewritten and nothing else changes.
   */
  lemma PatchReplacesEveryPlaceholder(text: string)
    ensures var pieces := Text.Split(text, Placeholder);
      && Text.Join(pieces, Placeholder) == text
      && (forall i :: 0 <= i < |pieces| ==> !Text.Occurs(pieces[i], Placeholder))
      && PatchSqlnet(text) == Text.Join(pieces, Replacement)
  {
    Text.SplitJoin(text, Placeholder);
    Text.SplitPiecesFree(text, Placeholder);
    Text.ReplaceIsJoinOfSplit(text, Placeholder, Replacement);
  }

  /** A file without the placeholder is written back unchanged. */
  lemma PatchWithoutPlaceholder(text: string)
    requires !Text.Occurs(text, Placeholder)
    ensures PatchSqlnet(text) == text
  {
    Text.ReplaceWithoutPattern(text, Placeholder, Replacement);
  }

  // ---------------------------------------------------------------- handler

  const MissingUserIdMessage: string := "Missing required fields: user_id"
  const UpdatedMessage: string := "User updated successfully"

  /**
   * `update_user` up to the statement: the binds `[first_name, last_name,
   * username, user_id]`, each name `payload.get(...)`, or the exception raised.
   */
  function ValidateUpdate(path: string, payload: JsonValue): (r: Result<seq<JsonValue>, Error>)
    ensures ExtractUserId(path).None? ==> r == Failure(ValueError(MissingUserIdMessage))
    ensures ExtractUserId(path).Some? && !payload.JObject? ==> r == Failure(AttributeError)
    ensures r.Success? <==> ExtractUserId(path).Some? && payload.JObject?
    ensures r.Success? ==> UpdateBinds(r.value) && r.value[3] == JString(ExtractUserId(path).value)
  {
    var userId := ExtractUserId(path);
    UserIdWellFormed(path);
    if MissingUserId(userId) then Failure(ValueError(MissingUserIdMessage))
    else if !payload.JObject? then Failure(AttributeError)
    else
      var firstName := Get(payload.fields, "first_name");
      var lastName := Get(payload.fields, "last_name");
      var username := Get(payload.fields, "username");
      Success([firstName, lastName, username, JString(userId.value)])
  }

  /** `handler` then `update_user`. */
  function UpdateRequest(path: string, body: seq<byte>, decode: Decoder): Result<seq<JsonValue>, Error> {
    match ParseBody(body, decode)
    case Failure(e) => Failure(e)
    case Success(payload) => ValidateUpdate(path, payload)
  }

  /** An empty body is rejected before the path or the payload is looked at. */
  lemma EmptyBodyRejected(path: string, decode: Decoder)
    ensures UpdateRequest(path, [], decode) == Failure(KeyError(NoKeysInPayload))
  {
  }

  /**
   * An update is accepted exactly when the body decodes to an object and the
   * path carries an identifier; the names need not be present.
   */
  lemma UpdateAccepted(path: string, body: seq<byte>, decode: Decoder)
    ensures UpdateRequest(path, body, decode).Success? <==>
      body != [] && decode(body).Some? && ExtractUserId(path).Some? && decode(body).value.JObject?
    ensures UpdateRequest(path, body, decode).Success? ==>
      var fields := decode(body).value.fields;
      UpdateRequest(path, body, decode).value ==
        [Get(fields, "first_name"), Get(fields, "last_name"), Get(fields, "username"),
         JString(ExtractUserId(path).value)]
  {
  }

  /**
   * The bind values are the three names in column order and then the
   * identifier; a name absent from the payload (or JSON null) binds null.
   */
  lemma UpdateBindValues(path: string, payload: JsonValue)
    requires ValidateUpdate(path, payload).Success?
    ensures var binds := ValidateUpdate(path, payload).value;
      && binds == [Get(payload.fields, "first_name"), Get(payload.fields, "last_name"),
                   Get(payload.fields, "username"), JString(ExtractUserId(path).value)]
      && ("first_name" !in payload.fields ==> binds[0] == JNull)
      && ("last_name" !in payload.fields ==> binds[1] == JNull)
      && ("username" !in payload.fields ==> binds[2] == JNull)
  {
  }

  /**
   * A payload carrying only `first_name` sets the first name and writes null
   * over the last name and the username of an existing row.
   */
  lemma PartialPayloadNullsOtherNames(rows: Rows, path: string, first: JsonValue)
    requires ExtractUserId(path).Some? && ExtractUserId(path).value in rows
    ensures var binds := ValidateUpdate(path, JObject(map["first_name" := first])).value;
      var row := UpdateRows(rows, binds)[ExtractUserId(path).value];
      row.firstName == first && row.lastName == JNull && row.username == JNull
  {
  }

  /**
   * One invocation of the Update function. Every rejection raises before the
   * statement and leaves the table alone; otherwise the UPDATE runs, whether
   * or not a row has that identifier, and success is reported.
   */
  method Handler(table: Table, path: string, body: seq<byte>, decode: Decoder) returns (out: Outcome)
    requires table.Valid()
    modifies table
    ensures table.Valid()
    ensures match UpdateRequest(path, body, decode)
      case Failure(e) => out == Raised(e) && table.rows == old(table.rows)
      case Success(binds) =>
        out == Returned(Message(UpdatedMessage)) && table.rows == UpdateRows(old(table.rows), binds)
  {
    var request := UpdateRequest(path, body, decode);
    if request.Failure? {
      return Raised(request.error);
    }
    table.Update(request.value);
    out := Returned(Message(UpdatedMessage));
  }
}
