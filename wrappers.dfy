/** Optional values and results with an error, used for pandas' missing
    values (NaN) and for the exceptions the two programs raise. */
module Wrappers {

  datatype Option<+T> = None | Some(value: T)

  datatype Result<+T, +E> = Ok(value: T) | Err(error: E)
}
