/** Option and Result datatypes used throughout the registry model. */
module Wrappers {

  /** An optional value. In the registry, `None` stands for Python's `None`:
      a value that may be stored under a key, and that `dict.get` returns for a
      missing key. */
  datatype Option<+T> = None | Some(value: T)

  /** The outcome of an operation that either returns a value or raises. */
  datatype Result<+T, +E> = Success(value: T) | Failure(error: E)
}
