/** Failure-carrying result types shared by the word store and the quiz session. */
module Wrappers {

  /** An optional value: the word store answers `None` where the Python code
      returns the looked-up word itself as a "not found" sentinel. */
  datatype Option<+T> = None | Some(value: T)

  /** Either a value or the error the Python code would raise. */
  datatype Result<+T, +E> = Ok(value: T) | Err(error: E)
}
