/** Small value types shared by every module of the model. */
module Prelude {

  /** A value that may be absent: JavaScript's `undefined`/`null` next to a present value. */
  datatype Option<+T> = None | Some(value: T)

  /** The outcome of an operation that returns nothing but may be rejected. */
  datatype Outcome<+E> = Pass | Fail(error: E)
}
