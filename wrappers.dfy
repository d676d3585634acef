/** Option and Result values standing for Python's None and raised exceptions. */
module Wrappers {

  datatype Option<+T> = None | Some(value: T)

  /** An operation that either returns a value or raises an exception named by `error`. */
  datatype Result<+T> = Ok(value: T) | Err(error: PyError)

  /** The exceptions the modelled code can raise. */
  datatype PyError =
    | AssertionError              // a failed `assert` statement
    | KeyError(key: string)       // `d[key]` on a dict without `key`
}
