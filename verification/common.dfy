/** Shared vocabulary of the model: optional values, the error kinds the
    services raise, and a failure-compatible result type. */
module Common {

  /** Identifiers (users, tasks, projects, workspaces) are opaque strings. */
  type Id = string

  /** The id of a user account, shared by tasks and refresh tokens. */
  type UserId = Id

  datatype Option<+T> = None | Some(value: T)

  /** The exception kinds thrown by the services and guards:
      BadRequestException, NotFoundException, ForbiddenException and the
      401 raised by the JWT guard. */
  datatype Err = BadRequest | NotFound | Forbidden | Unauthenticated

  /** Either a value or the error kind that aborted the operation. A failed
      operation carries no store, so a failure never changes state. */
  datatype Result<+T> = Success(value: T) | Failure(error: Err) {

    predicate IsFailure() {
      Failure?
    }

    function PropagateFailure<U>(): Result<U>
      requires Failure?
    {
      Failure(error)
    }

    function Extract(): T
      requires Success?
    {
      value
    }
  }

  /** JavaScript truthiness of an optional string: `undefined`, `null` and
      the empty string are falsy, every other string is truthy. */
  predicate Truthy(s: Option<string>) {
    s.Some? && s.value != ""
  }
}
