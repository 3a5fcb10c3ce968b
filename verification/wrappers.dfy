/** Failure-carrying values shared by the other modules. */
module Wrappers {

  /** Python's optional value: `None` or a present value. */
  datatype Option<+T> = None | Some(value: T)

  /** The Python exceptions the modelled code can raise. */
  datatype PyError =
    | IndexError  // indexing an empty list with `[-1]`
    | TypeError   // joining `None` as if it were a list of strings

  /** A computation that either returns a value or raises. */
  datatype Result<+T> = Ok(value: T) | Err(error: PyError)
}
