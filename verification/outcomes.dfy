/** Failure-carrying results shared by the models: the C++ sources throw
    `std::out_of_range` and `std::invalid_argument`, and `new T[n]` throws
    `std::bad_array_new_length` for a negative `n`; here those become values. */
module Outcomes {

  /** The exceptions the modelled code throws. */
  datatype Error = OutOfRange | InvalidArgument | BadArrayNewLength

  /** A value, or the exception that replaced it. */
  datatype Result<T> = Ok(value: T) | Err(error: Error)

  /** A void operation that either completed or threw. */
  datatype Outcome = Done | Failed(error: Error)

  /** A possibly-null pointer to a value. */
  datatype Option<T> = None | Some(value: T)
}
