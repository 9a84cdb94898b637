/** What the route handlers of server/src/app.js exchange with their callers. */
module Http {
  import opened Wrappers
  import opened Schema

  /** The error responses the handlers send, with their messages. */
  datatype Failure =
    | BadRequest(message: string)
    | Unauthorized(message: string)
    | Forbidden(message: string)
    | NotFound(message: string)
    | Conflict(message: string)
    | InternalError
  {
    /** The HTTP status code; `InternalError` is the fallback error handler's 500. */
    function Code(): int {
      match this
      case BadRequest(_) => 400
      case Unauthorized(_) => 401
      case Forbidden(_) => 403
      case NotFound(_) => 404
      case Conflict(_) => 409
      case InternalError => 500
    }
  }

  /** The identity a verified bearer token carries (`req.user`). */
  datatype Claims = Claims(id: int, email: string, role: Role)

  /** What a handler leaves behind: the database after the statements it ran, and its response. */
  datatype Step<T> = Step(db: Db, response: Result<T, Failure>)
}
