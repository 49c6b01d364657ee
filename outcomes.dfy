/** Option and Result, the failure-carrying values the engine returns. */
module Outcomes {

  datatype Option<+T> = None | Some(value: T)

  /** `Err` stands for an exception that leaves the Java method early. */
  datatype Result<+T, +E> = Ok(value: T) | Err(error: E)
}
