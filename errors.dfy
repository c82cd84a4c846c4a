/**
 * Go's `error` values as the registry sees them: an opaque message, and the
 * outcome of a call that returns either nil (`Pass`) or a non-nil error.
 */
module Errors {

  /** A non-nil Go error; only its message matters to the registry. */
  datatype Error = Error(message: string)

  /** The `error` result of a Go call: nil is `Pass`, anything else is `Fail`. */
  datatype Outcome = Pass | Fail(error: Error)
}
