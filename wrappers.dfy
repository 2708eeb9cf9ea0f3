/** Optional values and results with an error, used for nullable columns, lookups and thrown errors. */
module Wrappers {

  /** A nullable value: SQL NULL, a JavaScript `undefined`, or an empty `RETURNING` set. */
  datatype Option<+T> = None | Some(value: T)

  /** A value or the error the operation throws. */
  datatype Result<+T, +E> = Success(value: T) | Failure(error: E)
}
