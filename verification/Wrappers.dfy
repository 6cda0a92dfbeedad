/** Results of operations that can fail, and of lookups that can miss. */
module Wrappers {

  datatype Option<+T> = None | Some(value: T)

  /** A Go `(value, error)` pair of which exactly one half is meaningful. */
  datatype Result<+T> = Ok(value: T) | Err
}
