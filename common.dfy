/** Optional values and handler outcomes shared by every module. */
module Common {

  /** Python's `None` or a value; JavaScript's `null` or a value. */
  datatype Option<+T> = None | Some(value: T) {
    function GetOr(default: T): T {
      match this
      case Some(v) => v
      case None => default
    }
  }

  /** What a request handler answers: a JSON body, or an HTTP error status. */
  datatype Outcome<+T> = Ok(value: T) | Err(status: nat)

  const BadRequest: nat := 400
  const NotFound: nat := 404
  const ServerError: nat := 500
}
