/** Optional values, results and the two exception kinds the ledger raises. */
module Errors {

  datatype Option<T> = None | Some(value: T)

  /** The Python exceptions of the core: a `ValueError` with its message, or the
      `KeyError` raised when a task dict lacks a key that is read with `task[key]`. */
  datatype Error = ValueError(message: string) | KeyError(key: string)

  /** Either a value or the exception that took its place. */
  datatype Result<T> = Ok(value: T) | Err(error: Error)

  /** A call that returns nothing, or the exception it raised. */
  datatype Outcome = Pass | Fail(error: Error)
}
