/** Optional values and results with an error, used in place of Go's
    (value, ok) and (value, err) returns. */
module Wrappers {

  datatype Option<+T> = None | Some(value: T)

  datatype Result<+T, +E> = Ok(value: T) | Err(error: E)
}
