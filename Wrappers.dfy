/** Option for nullable values and Outcome for operations that may throw. */
module Wrappers {

  /** A value that may be null. */
  datatype Option<+T> = None | Some(value: T)

  /** The result of an operation that completes or throws an exception described by `error`. */
  datatype Outcome<+E> = Pass | Fail(error: E)
}
