/** Small failure-carrying datatypes shared by the other modules. */
module Wrappers {

  /** A value that may be missing; used for JavaScript's `undefined` results. */
  datatype Option<+T> = None | Some(value: T)

  /** Success, or a thrown error. */
  datatype Outcome<+E> = Pass | Fail(error: E)

  /** A computed value, or a thrown error. */
  datatype Result<+R, +E> = Ok(value: R) | Err(error: E)
}
