/** Option and Result, shared by every other module. */
module Wrappers {

  datatype Option<+T> = None | Some(value: T)

  /** `Err` stands for an exception thrown by the program. */
  datatype Result<+T> = Ok(value: T) | Err
}
