/** Option and Result values used in place of Java's nulls and exceptions. */
module Wrappers {

  datatype Option<T> = None | Some(value: T)

  /** The outcome of an operation that either yields a value or raises an error. */
  datatype Result<T, E> = Ok(value: T) | Err(error: E)
}
