/** The error kinds the container library can raise, and the wrappers that
    carry either a value or one of them. */
module Outcomes {

  /** `OutOfRange` is the library's one exception kind (`std::out_of_range`).
      `DivideByZero` marks an integer division by zero, which C++ leaves
      undefined; the model reports it instead of continuing. */
  datatype Error = OutOfRange | DivideByZero

  datatype Result<+T> = Ok(value: T) | Err(error: Error)

  datatype Option<+T> = None | Some(value: T)

  /** The outcome of an operation that returns nothing but may throw. */
  datatype Outcome = Done | Fail(error: Error)
}
