/** Option and the outcome of a call that may panic. */
module Wrappers {

  datatype Option<+T> = None | Some(value: T)

  /** How a Rust call ends: it returns a value, or it panics (a failed
      `expect` or `unwrap`) with the message that the panic carries. */
  datatype Outcome<+T> = Returned(value: T) | Panicked(message: string)

  /** The message of `Option::unwrap` on `None`. */
  const UnwrapOnNone := "called `Option::unwrap()` on a `None` value"
}
