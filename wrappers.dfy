/** Failure-carrying results: the model's replacement for the `die`/`exit(1)`
    calls of the C code. */
module Wrappers {

  /** A value, or the reason there is none. */
  datatype Result<+T, +E> = Ok(value: T) | Err(error: E)

  /** Success without a value, or the reason for failure. */
  datatype Outcome<+E> = Pass | Fail(error: E)
}
