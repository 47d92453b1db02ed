/** The two result shapes shared by every component. */
module Wrappers {

  datatype Option<+T> = None | Some(value: T)

  /** A raised exception of the program is a `Failure` that carries its stable code. */
  datatype Result<+T, +E> = Success(value: T) | Failure(error: E)
}
