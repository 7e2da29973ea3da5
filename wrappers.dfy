/** Optional values and success-or-error results, used for PHP's nullable
    results and for the exceptions the logger throws. */
module Wrappers {

  datatype Option<+T> = None | Some(value: T)

  datatype Result<+T, +E> = Ok(value: T) | Err(error: E)
}
