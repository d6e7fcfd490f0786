/**
 * What the four handlers share: the request body as bytes, the abstract JSON
 * decoder, the exceptions a handler raises, the outcome of one invocation,
 * and the connection settings read from the environment at startup.
 */
module Requests {
  import opened Wrappers
  import opened Json

  newtype byte = x: int | 0 <= x < 256

  /** `json.loads`: None when the bytes are not a JSON document. */
  type Decoder = seq<byte> -> Option<JsonValue>

  /** The exceptions a handler lets escape to the platform. */
  datatype Error =
    | KeyError(message: string)    // raised for an empty body
    | InvalidJson                  // raised by json.loads
    | AttributeError               // `.get` on a payload that is not a JSON object
    | ValueError(message: string)  // a failed validation
    | DatabaseError                // raised by the driver while executing the statement

  /** An invocation either returns a JSON response body or raises. */
  datatype Outcome = Returned(body: JsonValue) | Raised(error: Error)

  const NoKeysInPayload: string := "No keys in payload"

  /** The body handling of the Create and Update handlers: reject an empty body, then decode it. */
  function ParseBody(body: seq<byte>, decode: Decoder): (r: Result<JsonValue, Error>)
    ensures body == [] ==> r == Failure(KeyError(NoKeysInPayload))
    ensures body != [] && decode(body).None? ==> r == Failure(InvalidJson)
    ensures r.Success? <==> body != [] && decode(body).Some?
    ensures r.Success? ==> r.value == decode(body).value
  {
    if body == [] then Failure(KeyError(NoKeysInPayload))
    else match decode(body)
      case None => Failure(InvalidJson)
      case Some(payload) => Success(payload)
  }

  /** The process environment: `os.getenv(k) != None` exactly when `k in env`. */
  type Environment = map<string, string>

  /** Connection settings of the Create, Read and Delete functions. */
  datatype DbSettings = DbSettings(user: string, password: string, dsn: string)

  /**
   * Startup of the Create, Read and Delete functions: `DB_USER`, `DB_PASSWORD`
   * and `DSN` are required, checked in that order, and the first one missing
   * aborts startup with its message (which names the key without underscores).
   */
  function LoadDbSettings(env: Environment): (r: Result<DbSettings, string>)
    ensures r.Success? <==> "DB_USER" in env && "DB_PASSWORD" in env && "DSN" in env
    ensures r.Success? ==> r.value == DbSettings(env["DB_USER"], env["DB_PASSWORD"], env["DSN"])
    ensures "DB_USER" !in env ==> r == Failure("ERROR: Missing configuration key DBUSER")
    ensures "DB_USER" in env && "DB_PASSWORD" !in env ==> r == Failure("ERROR: Missing configuration key DBPASSWORD")
    ensures "DB_USER" in env && "DB_PASSWORD" in env && "DSN" !in env ==> r == Failure("ERROR: Missing configuration key DSN")
  {
    if "DB_USER" !in env then Failure("ERROR: Missing configuration key DBUSER")
    else if "DB_PASSWORD" !in env then Failure("ERROR: Missing configuration key DBPASSWORD")
    else if "DSN" !in env then Failure("ERROR: Missing configuration key DSN")
    else Success(DbSettings(env["DB_USER"], env["DB_PASSWORD"], env["DSN"]))
  }
}
