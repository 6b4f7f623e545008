/** Present/absent values and success/failure outcomes, used for Java's
    nullable references, Optional results and thrown exceptions. */
module Wrappers {

  /** A value that may be absent (a Java null or an empty Optional). */
  datatype Option<+T> = None | Some(value: T)

  /** The outcome of an operation that returns a value or throws. */
  datatype Result<+R, +E> = Ok(value: R) | Err(error: E)

  /** The outcome of an operation that returns nothing (void) or throws. */
  datatype Outcome<+E> = Pass | Fail(error: E)
}
