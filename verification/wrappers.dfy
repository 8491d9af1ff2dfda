/** Optional values and results with an error, used wherever the script can
    come up empty-handed or raise. */
module Wrappers {

  datatype Option<T> = None | Some(value: T)

  datatype Result<T, E> = Ok(value: T) | Err(error: E)
}
