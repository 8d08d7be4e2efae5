/** The exceptions the graph classes throw, and the shapes in which a call either
    returns normally or throws one of them. */
module Exceptions {

  /** The three unchecked exception types the graph classes raise. */
  datatype Exception = IllegalArgument | IndexOutOfBounds | UnsupportedOperation

  /** Completion of a `void` operation: it returns normally or throws. */
  datatype Outcome = Normal | Thrown(exception: Exception)

  /** Completion of a value-returning operation. */
  datatype Result<+T> = Return(value: T) | Raise(exception: Exception)

  datatype Option<+T> = None | Some(value: T)
}
