/** Optional values and error-carrying results, used wherever the source
    returns nothing, raises, or exits. */
module Wrappers {

  datatype Option<T> = None | Some(value: T)

  datatype Result<T, E> = Ok(value: T) | Err(error: E)
}
