/** Option and Result: the model's stand-ins for Java's `null` returns and thrown exceptions. */
module Wrappers {

  /** A value that may be absent (Java: a reference that may be `null`). */
  datatype Option<+T> = None | Some(value: T)

  /** A computation that either produced a value or raised a fault. */
  datatype Result<+R, +E> = Success(value: R) | Failure(error: E)
}
