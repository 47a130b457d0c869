/** Results that may be missing, and results that may be errors. */
module Wrappers {

  datatype Option<T> = None | Some(value: T)

  datatype Outcome<T, E> = Ok(value: T) | Err(error: E)
}
