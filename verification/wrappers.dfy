/** The three result shapes the model returns: an optional value, a value or
    an error (which `:-` propagates), and a pass-or-fail outcome. */
module Wrappers {

  /** An optional value, as Rust's `Option`. */
  datatype Option<+T> = None | Some(value: T)

  /** A value or an error, as Rust's `Result`. */
  datatype Result<+T, +E> = Ok(value: T) | Err(error: E) {
    predicate IsFailure() {
      Err?
    }

    function PropagateFailure<U>(): Result<U, E>
      requires Err?
    {
      Err(error)
    }

    function Extract(): T
      requires Ok?
    {
      value
    }
  }

  /** Success, or failure carrying an error: Rust's `Result<(), E>`. */
  datatype Outcome<+E> = Pass | Fail(error: E)
}
