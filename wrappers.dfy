/** Failure-carrying results: the toolkit signals failure by throwing
    `std::runtime_error`/`std::out_of_range` or by returning NaN. */
module Wrappers {

  /** A value, or nothing (the C++ code returns NaN in that case). */
  datatype Option<+T> = None | Some(value: T)

  /** A value, or the error the C++ code would have thrown. */
  datatype Result<+T, +E> = Ok(value: T) | Err(error: E)
}
