/** Optional values and results with an error, used for nullable fields and failing operations. */
module Wrappers {

  /** A nullable value: `None` stands for SQL NULL / Python `None`. */
  datatype Option<+T> = None | Some(value: T)

  /** The outcome of an operation that either produces a value or fails with an error. */
  datatype Result<+T, +E> = Success(value: T) | Failure(error: E)
}
