/** Optional values, and results that either hold a value or name the Python exception raised. */
module Wrappers {

  datatype Option<T> = None | Some(value: T)

  /** The exceptions the modelled code can raise. */
  datatype Exception = IndexError | TypeError | AttributeError | ValueError

  datatype Result<T> = Ok(value: T) | Raise(error: Exception)
}
