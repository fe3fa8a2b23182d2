/** Option and Result, used by the formatter, the resolver and the plan lookup. */
module Wrappers {

  /** JavaScript's null or undefined on one side, a value on the other. */
  datatype Option<+T> = None | Some(value: T)

  /** A computation that either produces a value or throws an error. */
  datatype Result<+T, +E> = Ok(value: T) | Err(error: E)
}
