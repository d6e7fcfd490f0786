/**
 * The Delete function: the identifier from the path, then one DELETE by
 * that identifier, reported as a success whether or not a row matched.
 */
module DeleteFunc {
  import opened Wrappers
  import opened Json
  import opened Requests
  import opened Paths
  import opened UsersTable

  const MissingUserIdMessage: string := "Missing required field: user_id"
  const DeletedMessage: string := "User deleted successfully"

  /** `handler`: the identifier to delete, or the exception for a path without one. */
  function DeleteTarget(path: string): (r: Result<string, Error>)
    ensures r.Failure? <==> ExtractUserId(path).None?
    ensures r.Failure? ==> r.error == ValueError(MissingUserIdMessage)
    ensures r.Success? ==> Some(r.value) == ExtractUserId(path) && r.value != []
  {
    var userId := ExtractUserId(path);
    UserIdWellFormed(path);
    if MissingUserId(userId) then Failure(ValueError(MissingUserIdMessage)) else Success(userId.value)
  }

  /**
   * One invocation of the Delete function. Any body is ignored. Without an
   * identifier it raises and deletes nothing; otherwise that row, if any, is
   * removed and success is reported either way.
   */
  method Handler(table: Table, path: string) returns (out: Outcome)
    requires table.Valid()
    modifies table
    ensures table.Valid()
    ensures match DeleteTarget(path)
      case Failure(e) => out == Raised(e) && table.rows == old(table.rows)
      case Success(id) => out == Returned(Message(DeletedMessage)) && table.rows == DeleteRows(old(table.rows), id)
  {
    var target := DeleteTarget(path);
    if target.Failure? {
      return Raised(target.error);
    }
    table.Delete(target.value);
    out := Returned(Message(DeletedMessage));
  }
}
