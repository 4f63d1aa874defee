/** Failure-carrying result types shared by every component of the model. */
module Wrappers {

  /** A value that may be missing: `undefined` / `null` on the JavaScript side. */
  datatype Option<+T> = None | Some(value: T) {

    /** The value, or `default` when it is missing (JavaScript's `x ?? default`). */
    function GetOr(default: T): T {
      match this
      case Some(v) => v
      case None => default
    }
  }

  /** The outcome of an operation that can throw: either a value or an error. */
  datatype Result<+R, +E> = Success(value: R) | Failure(error: E) {

    predicate IsFailure() {
      Failure?
    }
  }

  /** What a `localStorage.getItem` followed by `JSON.parse` can produce. */
  datatype Stored<+T> =
    | Missing          // no item, or the empty string (falsy)
    | Unparseable      // `JSON.parse` throws
    | Parsed(value: T)
}
