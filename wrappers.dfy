/** Option and Result, the two shapes every nullable Java reference and every
    fallible store command takes in this model. */
module Wrappers {

  /** A Java reference: `None` stands for `null`. */
  datatype Option<+T> = None | Some(value: T)

  /** The outcome of a store command or a parse: a value, or the error that
      the Java code would see as an exception. */
  datatype Result<+T, +E> = Success(value: T) | Failure(error: E)
}
