/** Value-or-nothing and value-or-error carriers shared by the other modules. */
module Wrappers {

  /** Python's `None` or a value. */
  datatype Option<T> = None | Some(value: T)

  /** A computed value, or the error a Python function would raise or return instead. */
  datatype Result<T, E> = Success(value: T) | Failure(error: E)
}
