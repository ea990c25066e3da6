/** The exceptions the percolation core throws, as values. */
module Errors {

  /** IllegalArgument for a size that is not positive; IndexOutOfBounds for a node
      index or grid coordinate outside its range, carrying the name the message
      gives it ("i" or "j") and the offending value. */
  datatype Error =
    | IllegalArgument
    | IndexOutOfBounds(name: string, value: int)

  /** The outcome of an operation that returns nothing when it succeeds. */
  datatype Outcome = Pass | Fail(error: Error)

  /** The outcome of an operation that returns a value when it succeeds. */
  datatype Result<T> = Ok(value: T) | Err(error: Error)
}
