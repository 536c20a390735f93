/** Optional values and results with an error, as returned by lookups and
    by the cell-selection scan. */
module Wrappers {

  datatype Option<+T> = None | Some(value: T)

  datatype Result<+T, +E> = Ok(value: T) | Err(error: E)
}
