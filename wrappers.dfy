/** Optional values and results with an error, used for the source's NULL
    returns and its boolean success flags. */
module Wrappers {

  datatype Option<T> = None | Some(value: T)

  datatype Result<T, E> = Ok(value: T) | Err(error: E)
}
