/** Option and Result, used for the absent-key lookups and the parse errors of the comparator. */
module Wrappers {

  datatype Option<T> = None | Some(value: T)

  datatype Result<T, E> = Ok(value: T) | Err(error: E)
}
