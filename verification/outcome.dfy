/** The outcome of an operation that can fail. */
module Outcome {

  /** The one error the multiplications raise: the left operand's column
      count differs from the right operand's row count. */
  datatype Error = DimensionMismatch

  datatype Result<T> = Ok(value: T) | Err(error: Error)
}
