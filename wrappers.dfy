/** Option stands for a Java reference that may be null (or an empty `Optional`);
    Result for a call that either returns a value or throws. */
module Wrappers {
  datatype Option<+T> = None | Some(value: T)

  datatype Result<+T, +E> = Ok(value: T) | Err(error: E)
}
