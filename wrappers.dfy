/** Option and Result types used across the model in place of NULL returns and of the
    calculator's `isErr`/`lastErr` error fields. */
module Wrappers {

  datatype Option<+T> = None | Some(value: T)

  datatype Result<+T, +E> = Ok(value: T) | Err(error: E) {
    predicate IsFailure() { Err? }
  }
}
