# fn-crud-atp in Dafny

This project models the four serverless functions of fn-crud-atp: Create, Read, Update and Delete.
Each is one handler over a single `users` table in an Oracle Autonomous Database. Every function
takes a user identifier from the request URL with the same rule, and has its own request checks. Each
then runs exactly one SQL statement. The Update function also has a startup sequence. It reads its
connection settings, chooses where its TLS wallet comes from, and patches the wallet's `sqlnet.ora`.

Modules, one per concern:

- `Wrappers`: `Option` and `Result`.
- `Json`: JSON values, Python truthiness (`if not x`), `dict.get` with a null default, and the
  `{"message": ...}` response body.
- `Text`: Python's `str.split(sep)`, `sep.join(parts)` and `str.replace(pattern, replacement)` on
  strings. It also proves that join undoes split; for a one-character separator, split also undoes join on
  separator-free pieces; and that `replace` is a join of the split.
- `Paths`: `path.strip('/').split('/')` and the rule "the second-to-last segment is `users`, so the
  last one is the identifier". The rule is restated without segments (`UserIdCharacterisation`), and
  its edge cases are proved.
- `UsersTable`: the table as a class `Table` whose field `rows: map<string, Row>` maps `ID` to its row.
  The INSERT, UPDATE and DELETE statements are methods that change `rows`. Each is specified by a
  function (`InsertRows`, `UpdateRows`, `DeleteRows`) of the old rows. The two SELECTs are methods
  that only read.
- `Requests`: the request body as bytes, the JSON decoder as a parameter, the exceptions a handler
  raises, and the outcome of one invocation. It also holds the empty-body check and the startup
  settings shared by Create, Read and Delete.
- `CreateFunc`, `ReadFunc`, `UpdateFunc`, `DeleteFunc`: one module per function. Each has its pure
  validation up to the statement, and a `Handler` method that runs the statement on a `Table`.
- `Scenarios`: properties that span functions, such as a read after a create, an update or a delete,
  and the create / read / delete / read round trip of user `42`.

Each `Handler` states its full outcome for every request. A rejected request raises the error the
source raises and leaves the table unchanged. An accepted one returns the source's message, and its
new table is the statement function applied to the old table. The Read handler has no `modifies`
clause, so the verifier checks that a read never changes the table.

Behaviour of the code worth stating:

- Create requires the three names to be truthy in Python's sense, not merely present and non-empty.
  A name of `0`, `false`, `[]` or `{}` is rejected, and an object or a number such as `1` is accepted.
- The Update function reads `DBUSER`, `DBPWD_CYPHER` and `DBSVC`. It needs either both
  `DBWALLET_BUCKET` and `DBWALLET_OBJECT`, or `ADB_OCID`; it does not need all of them.
- The startup errors of Create, Read and Delete name the keys `DBUSER` and `DBPASSWORD`, although the
  variables read are `DB_USER` and `DB_PASSWORD`.
- Read converts `CREATED_ON` to ISO text only when the column is not NULL, and returns null otherwise.
- No primary key on `ID` is visible in the code. The model assumes one: an INSERT of an existing `ID`
  raises a database error and changes nothing.

## Model

| member | source | states |
|---|---|---|
| Json.FalsyValues | create-func/func.py:56 | `Truthy`, the test behind `if not x`, is false exactly for null, `false`, zero, `""`, `[]` and `{}` |
| Json.GetAbsentIsNull | create-func/func.py:52-54 | `Get` (`payload.get(key)`) returns a present key's value, and null exactly when the key is absent or holds null |
| Text.Split | update-func/func.py:112 | `split` yields at least one piece, and the first piece is a prefix of the string |
| Text.SplitJoin | update-func/func.py:112 | joining the pieces of a split with the same separator gives back the original string |
| Text.SplitPiecesFree | update-func/func.py:112 | no piece of a split contains the separator |
| Text.SplitOfJoin | update-func/func.py:112 | for one-character separators, split is the inverse of join on separator-free pieces |
| Text.ReplaceIsJoinOfSplit | update-func/func.py:82 | `Replace`: `s.replace(p, n)` equals `n.join(s.split(p))`: every occurrence is rewritten and nothing else |
| Text.JoinSnoc | update-func/func.py:82 | `Join`: joining after appending one piece appends the separator and that piece |
| Text.ReplaceWithoutPattern | update-func/func.py:82 | a string without the pattern is returned unchanged |
| Paths.StripLeading | update-func/func.py:112 | `lstrip('/')` removes a run of slashes and keeps a suffix that does not start with one |
| Paths.StripTrailing | update-func/func.py:112 | `rstrip('/')` removes a run of slashes and keeps a prefix that does not end with one |
| Paths.Strip | update-func/func.py:112 | `strip('/')` neither starts nor ends with a slash |
| Paths.StripShape | update-func/func.py:112 | `strip('/')` is the middle of the path, between runs of slashes, and neither starts nor ends with a slash |
| Paths.StripIdempotent | update-func/func.py:112 | stripping twice is stripping once |
| Paths.Segments | update-func/func.py:112 | splitting the stripped path gives at least one segment |
| Paths.ExtractIsEndsInUser | update-func/func.py:111-114 | `ExtractUserId` yields `id` exactly when the segments number at least two, the second-to-last is `users` and the last is `id` |
| Paths.MissingIffNoId | update-func/func.py:116-117 | `MissingUserId` (`if not user_id`) holds exactly when no identifier was extracted |
| Paths.UserIdWellFormed | update-func/func.py:112-114 | an extracted identifier is never empty and never contains a slash |
| Paths.UserIdCharacterisation | update-func/func.py:111-114 | `ExtractUserId`: an identifier `id` is extracted iff the stripped path is `users/<id>` or ends in `/users/<id>`, with `id` free of slashes |
| Paths.UsersPathYieldsId | create-func/func.py:44-47 | `/users/<id>` yields `id` for every non-empty, slash-free `id` |
| Paths.PrefixedPathYieldsId | read-func/func.py:37-40 | whatever the prefix, slashes included, `/<prefix>/users/<id>/` yields `id` for every non-empty, slash-free `id` |
| Paths.CollectionPathHasNoId | read-func/func.py:37-40 | `/users/`, `/users` and the empty path carry no identifier |
| Paths.DoubleSlashHasNoId | delete-func/func.py:37-40 | `/users//<id>` carries no identifier, because the segment before `id` is empty |
| Requests.ParseBody | create-func/func.py:31-34 | an empty body raises `KeyError('No keys in payload')`, undecodable JSON raises, and otherwise the decoded payload is used |
| Requests.LoadDbSettings | delete-func/func.py:9-18 | startup succeeds iff `DB_USER`, `DB_PASSWORD` and `DSN` are all set; they are checked in that order, and each failure has its own message |
| UsersTable.InsertRows | create-func/func.py:59-63 | the INSERT adds exactly the row with the binds in column order `[ID, FIRST_NAME, LAST_NAME, USERNAME]`; every other row stays |
| UsersTable.UpdateRows | update-func/func.py:123-128 | the UPDATE sets all three names of the matching row from the binds, null included; its `ID`, its `CREATED_ON` and every other row stay |
| UsersTable.DeleteRows | delete-func/func.py:54-58 | the DELETE removes exactly the row with that `ID`; every other row stays |
| UsersTable.StatementsKeepKeyed | create-func/func.py:59-63 | all three statements keep every row stored under its own `ID` |
| UsersTable.UpdateMissingIsNoOp | update-func/func.py:123-138 | updating an `ID` that is not in the table changes nothing |
| UsersTable.DeleteMissingIsNoOp | delete-func/func.py:54-68 | deleting an `ID` that is not in the table changes nothing |
| UsersTable.DeleteIdempotent | delete-func/func.py:54-63 | deleting the same `ID` twice gives the same table as deleting it once |
| UsersTable.Table.Insert | create-func/func.py:70-73 | executes the INSERT in place: it succeeds iff the `ID` is new, and the rows become `InsertRows` of the old rows; otherwise nothing changes |
| UsersTable.Table.Update | update-func/func.py:130-133 | executes the UPDATE in place; the rows become `UpdateRows` of the old rows |
| UsersTable.Table.Delete | delete-func/func.py:60-63 | executes the DELETE in place; the rows become `DeleteRows` of the old rows |
| UsersTable.Table.SelectOne | read-func/func.py:53-64 | `fetchone` finds a row iff the `ID` is in the table, and then returns that row |
| UsersTable.Table.SelectAll | read-func/func.py:88-97 | `fetchall` returns every row exactly once, in some order, with as many rows as the table holds |
| CreateFunc.ValidateCreate | create-func/func.py:43-63 | no identifier raises "Missing required fields: user_id"; a non-object payload raises at `.get`; a falsy name raises the missing-fields message; otherwise the binds are `[id, first_name, last_name, username]`, all truthy |
| CreateFunc.EmptyBodyRejected | create-func/func.py:31-33 | `CreateRequest`: an empty body is rejected with `KeyError` whatever the path |
| CreateFunc.CreateAccepted | create-func/func.py:29-63 | `CreateRequest`: a create is accepted iff the body decodes to an object with three truthy names and the path carries an identifier; the binds are then the identifier and the names in order |
| CreateFunc.Handler | create-func/func.py:29-81 | a rejected request raises before any statement and leaves the table unchanged; an accepted one inserts exactly its row and returns "User created successfully" |
| ReadFunc.RouteIsUserId | read-func/func.py:36-45 | `RouteOf`: read-all is chosen iff no identifier is extracted; read-one is chosen for exactly the extracted identifier |
| ReadFunc.RowObjectFields | read-func/func.py:63-68 | `RowObject` with `CreatedOnJson`: the response object has exactly the five selected columns; `ID` and the names pass through, and `CREATED_ON` becomes its ISO text, or null when NULL |
| ReadFunc.ReadOneFoundOrNot | read-func/func.py:64-80 | `ReadOneResponse` is "User not found" exactly when no row has the `ID`, and that row's object otherwise |
| ReadFunc.ReadUser | read-func/func.py:51-80 | an existing row is returned as its object; a missing one is answered with `{"message": "User not found"}` instead of raising |
| ReadFunc.RowObjects | read-func/func.py:97-101 | one object per fetched row, in fetch order, each that row's `RowObject` |
| ReadFunc.ConvertRows | read-func/func.py:99-101 | the loop converts every fetched row, in fetch order |
| ReadFunc.ReadAllUsers | read-func/func.py:86-107 | the response is an array of the converted objects of a complete enumeration of the table |
| ReadFunc.ReadAllCoversTable | read-func/func.py:97-107 | read-all returns as many objects as the table has rows; each object is some row's (`EachObjectIsRow`), and every row has its object (`EveryRowAnswered`) |
| ReadFunc.Handler | read-func/func.py:34-48 | the Read function always returns, dispatches by the extracted identifier, and cannot modify the table |
| UpdateFunc.LoadSettings | update-func/func.py:43-65 | `DBUSER`, `DBPWD_CYPHER` and `DBSVC` are required in that order, each with its own message; a success carries their values |
| UpdateFunc.WalletSourceSelection | update-func/func.py:55-65 | the bucket is chosen iff both bucket keys are set; otherwise the database is chosen iff `ADB_OCID` is set; otherwise startup fails |
| UpdateFunc.PatchReplacesEveryPlaceholder | update-func/func.py:81-84 | `PatchSqlnet`: the patched `sqlnet.ora` is the original with every `DIRECTORY="?/network/admin"` rewritten to `DIRECTORY="/tmp/dbwallet"`, and nothing else changed |
| UpdateFunc.PatchWithoutPlaceholder | update-func/func.py:81-84 | a `sqlnet.ora` without the placeholder is written back unchanged |
| UpdateFunc.ValidateUpdate | update-func/func.py:110-121 | no identifier raises "Missing required fields: user_id" and a non-object payload raises; otherwise the update is accepted with the identifier as the last bind |
| UpdateFunc.UpdateAccepted | update-func/func.py:96-128 | `UpdateRequest`: accepted exactly when the body decodes to an object and the path carries an identifier; the binds are then the three `get`s and the identifier |
| UpdateFunc.EmptyBodyRejected | update-func/func.py:98-100 | `UpdateRequest`: an empty body is rejected with `KeyError` whatever the path |
| UpdateFunc.UpdateBindValues | update-func/func.py:119-128 | the binds are `[first_name, last_name, username, user_id]`, and a name absent from the payload binds null |
| UpdateFunc.PartialPayloadNullsOtherNames | update-func/func.py:119-133 | a payload with only `first_name` sets it and writes null over the other two names of the row |
| UpdateFunc.Handler | update-func/func.py:96-138 | a rejected request raises and leaves the table unchanged; otherwise the UPDATE runs, matched or not, and "User updated successfully" is returned |
| DeleteFunc.DeleteTarget | delete-func/func.py:36-43 | the delete fails with "Missing required field: user_id" iff no identifier is extracted; otherwise it targets exactly that non-empty identifier |
| DeleteFunc.Handler | delete-func/func.py:34-68 | a path without an identifier raises and deletes nothing; otherwise the row, if any, is removed and "User deleted successfully" is returned |
| Scenarios.CreateThenRead | create-func/func.py:59-63 | after an accepted create of a new identifier, reading that path returns the three names as the payload gave them |
| Scenarios.UpdateThenRead | update-func/func.py:119-133 | after an accepted update of an existing row, reading it returns the payload's names, null for each one left out, and the old `CREATED_ON` |
| Scenarios.DeleteThenRead | delete-func/func.py:54-63 | after an accepted delete, reading the same path answers "User not found" |
| Scenarios.AliceRoundTrip | create-func/func.py:59-78 | creating Alice at `/users/42`, reading her back, deleting her and reading again gives the created binds, her row object, the delete target `42`, and "User not found" |

## Left out

- The `oracledb` driver (pool creation, acquire and release, cursors, commit, `init_oracle_client`) is
  an external library. It is replaced by the `Table` class.
- Database errors other than a duplicate INSERT, such as connectivity, pool exhaustion or
  constraint checks on other columns, are not modelled. They need the real database engine.
- The driver's conversion of bind values is not modelled. A JSON value bound to a column is stored
  as that value, with JSON null as SQL NULL.
- The `CREATED_ON` value of a new row comes from a column default that is not in the source. It is
  a parameter of `CreateFunc.Handler`, so "not earlier than the create" is not stated.
- `datetime.isoformat` is an uninterpreted parameter `IsoFormat`.
- JSON parsing is the parameter `Decoder`, with `None` for a document `json.loads` rejects. JSON
  serialisation of the response, the `fdk` `Response` object and its `Content-Type` header are
  not modelled. A response body is a `JsonValue`.
- JSON numbers are Dafny `real`s, so NaN and infinities are not represented.
- The `data` argument defaulting to `None`, where `data.getvalue()` would fail, is not modelled.
  A request always has a body.
- Object Storage download, wallet generation by the database service, the chunked download loops,
  zip extraction and the directory listing are network and file I/O.
- The random wallet password (update-func/func.py:27) is nondeterministic and unused afterwards.
- The module-level flags `wallet_from_bucket` and `wallet_from_adb` are assigned once at startup. They are
  modelled as the `WalletSource` value of the loaded settings.
- Reading and writing `sqlnet.ora` is file I/O. The rewrite is `UpdateFunc.PatchSqlnet` on the
  file's contents.
- The in-place rewrite of `CREATED_ON` in each fetched dictionary (read-func/func.py:68 and 99-101)
  is modelled by building the converted objects, because a fetched dictionary is not shared with
  anything else.
- `UsersTable.Table.SelectAll` leaves the order of `fetchall` unspecified: the query has no
  `ORDER BY`, and the model does not fix an order either.
- Timers, all `print` logging (including the password logging at read-func/func.py:21 and
  delete-func/func.py:21) and the startup checks' `raise` terminating the process are not modelled.
  Startup failure is a `Failure` value.
- Concurrency between invocations is left to the platform and the driver. Each invocation is one
  atomic statement on the table.
