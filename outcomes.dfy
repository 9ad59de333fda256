/** How an operation of the recorder ends: with a value, or with a panic that
    aborts the process (an indexing or arithmetic fault, a failed `expect`, an
    explicit `panic!`). */
module Outcomes {

  /** What made the process panic. */
  datatype Cause =
    | MissingVariable    // `expect` on an unset environment variable
    | IndexOutOfBounds   // a slice or vector index past the end
    | Underflow          // `len() - 1` on an empty buffer (with overflow checks on)
    | BadTimeFormat      // the explicit `panic!` of the format check

  /** A value that may be absent, such as an unset environment variable. */
  datatype Option<T> = None | Some(value: T)

  datatype Outcome<T> = Ok(value: T) | Panic(cause: Cause)
}
