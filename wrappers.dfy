/** Optional values, and failure-carrying return values for the storage
    port: a query either yields a value or a storage error, a command
    either passes or fails. */
module Wrappers {

  datatype Option<+T> = None | Some(value: T)

  datatype Result<+T, +E> = Success(value: T) | Failure(error: E)

  datatype Outcome<+E> = Pass | Fail(error: E)
}
