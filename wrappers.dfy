/** Failure-compatible result types shared by the codec and path-store modules. */
module Wrappers {

  /** A value that may be absent (Python's `None`, a lookup miss). */
  datatype Option<+T> = None | Some(value: T)

  /** The outcome of an operation that can fail: a Go panic, a Python exception,
      a rejected configuration token. */
  datatype Result<+T, +E> = Success(value: T) | Failure(error: E)
}
