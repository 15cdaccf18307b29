/** Optional values and error results shared by the whole model.
    `None` stands for pandas' missing value (NaN / None) wherever a column may be empty. */
module Wrappers {

  datatype Option<+T> = None | Some(value: T)

  datatype Result<+T, +E> = Ok(value: T) | Err(error: E)
}
