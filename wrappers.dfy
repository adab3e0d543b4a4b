/** Optional values (the source's nullable references) and results that carry
    either a value or the exception the source would have thrown. */
module Wrappers {

  datatype Option<+T> = None | Some(value: T)

  datatype Result<+T, +E> = Ok(value: T) | Err(error: E)
}
