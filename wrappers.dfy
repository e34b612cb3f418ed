/** Optional values and results carrying an error, as used by the model's
    foreign calls (hashing) and by the grouping step. */
module Wrappers {

  datatype Option<+T> = None | Some(value: T)

  datatype Result<+T, +E> = Ok(value: T) | Err(error: E)
}
