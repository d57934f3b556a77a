/** The Java exceptions the modelled code throws, and a result type for
    operations that either return a value or throw one of them. */
module Exceptions {

  /** The unchecked exceptions raised by the modelled code (its own `throw`
      statements and the index checks of `ArrayList`/arrays it relies on). */
  datatype Exception =
    | IllegalArgument
    | IllegalState
    | IndexOutOfBounds
    | NegativeArraySize
    | NullPointer

  /** A value, or the exception that ended the computation. */
  datatype Result<T> = Ok(value: T) | Throw(exception: Exception)

  /** A computation without a value that either completes or throws. */
  datatype Outcome = Done | Raise(exception: Exception)

  /** A reference that may be `null`. */
  datatype Option<T> = None | Some(value: T)
}
