/** Failure-carrying values shared by the whole model. */
module Wrappers {

  /** A value that may be absent: a Java `null`, a JavaScript `undefined`, a missing key. */
  datatype Option<+T> = None | Some(value: T) {

    /** The value, or `default` when absent. */
    function GetOr(default: T): T {
      match this
      case Some(v) => v
      case None => default
    }
  }

  /** The outcome of an operation that throws instead of returning. */
  datatype Result<+T, +E> = Success(value: T) | Failure(error: E)

  /** How a promise returned by a native bridge call settles. The rejection
      reason is never inspected by the callers, so it carries nothing. */
  datatype Reply<+T> = Resolved(value: T) | Rejected
}
