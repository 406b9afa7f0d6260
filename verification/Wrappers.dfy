/** Results of operations that may have none or may throw. */
module Wrappers {
  datatype Option<T> = None | Some(value: T)

  datatype Result<T> = Ok(value: T) | Thrown
}
