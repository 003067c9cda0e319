/** Error values standing for the exceptions the programs throw, and the
    result types operations return instead of throwing. */
module Outcomes {

  datatype Error =
    | IllegalArgument(message: string)  // a rejected argument (IllegalArgumentException)
    | OutOfDraws                        // the injected random draws ran out before the loop ended

  /** The result of an operation that returns a value or fails. */
  datatype Result<T> = Ok(value: T) | Err(error: Error)

  /** The result of an operation that returns nothing or fails. */
  datatype Outcome = Pass | Fail(error: Error)
}
