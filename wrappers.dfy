/** The optional-value and result datatypes shared by the SIRUTA model. */
module Wrappers {

  /** Python's optional value: `None` or a present value. */
  datatype Option<+T> = None | Some(value: T)

  /** A computation that either produced a value or raised with a message. */
  datatype Result<+R, +E> = Success(value: R) | Failure(error: E)
}
