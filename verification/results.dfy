/** Failure-carrying datatypes used across the model: an optional value (a
    TypeScript `T | undefined` or `T | null`), a value-or-error (a promise that
    resolves or rejects with a value), and a pass-or-error (a `Promise<void>`
    that resolves or rejects). */
module Results {

  datatype Option<+T> = None | Some(value: T) {
    /** The wrapped value, or `default` when there is none. */
    function GetOr(default: T): T {
      match this
      case Some(v) => v
      case None => default
    }
  }

  datatype Result<+T, +E> = Success(value: T) | Failure(error: E)

  datatype Outcome<+E> = Pass | Fail(error: E)
}
