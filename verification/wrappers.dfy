/** The optional value that stands in for Java's nullable references, and the
    outcome of a Java call that may throw. */
module Wrappers {

  datatype Option<+T> = None | Some(value: T)

  /** A call either returns a value or throws an exception that propagates
      to its caller. */
  datatype Throws<+T> = Returned(value: T) | Thrown
}
