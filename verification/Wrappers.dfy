/** Outcomes of operations that may find nothing or may throw. */
module Wrappers {

  datatype Option<+T> = None | Some(value: T)

  /** `Err` stands for the exception the client throws. */
  datatype Result<+T, +E> = Ok(value: T) | Err(error: E)
}
