/** Optional values and results with an error, used for nullable columns,
    lookups that may find nothing, and operations that may throw. */
module Wrappers {

  datatype Option<+T> = None | Some(value: T)

  datatype Result<+T, +E> = Ok(value: T) | Err(error: E)
}
