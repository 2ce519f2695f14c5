/** Small shared datatypes. */
module Wrappers {

  /** A value that may be absent (Rust's `Option`, JavaScript's `undefined`). */
  datatype Option<+T> = None | Some(value: T)

  /** How an operation that may `panic!` ended. */
  datatype Status = Done | Panicked(message: string)
}
