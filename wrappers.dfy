/** Optional values and results, standing for Kotlin's nullable types and for
    the exceptions the database raises. */
module Wrappers {

  /** A Kotlin `T?`: `None` is `null`. */
  datatype Option<+T> = None | Some(value: T)

  /** The outcome of a query that the database may refuse. */
  datatype Result<+T, +E> = Ok(value: T) | Err(error: E)
}
