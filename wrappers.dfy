/** Option and Result: the absent value (Python's None) and a value-or-exception outcome. */
module Wrappers {

  datatype Option<+T> = None | Some(value: T)

  /** A computation that either yields a value or raises (ValueError, FileNotFoundError, ...). */
  datatype Result<+T> = Ok(value: T) | Err(error: string)
}
