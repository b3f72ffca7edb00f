/** Failure-carrying results used across the model. */
module Wrappers {

  datatype Option<+T> = None | Some(value: T)

  /** The errors the modelled code can raise instead of returning normally. */
  datatype Error =
    | NumberFormat        // Integer.parseInt on text that is not a decimal int
    | DivisionByZero      // an int `%` or `/` whose divisor is 0
    | IndexOutOfBounds    // an array read outside the array
    | Malformed           // text the C++ reader cannot take apart

  datatype Result<+T> = Ok(value: T) | Err(error: Error)
}
