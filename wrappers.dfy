/** Result and Option types for the operations that report failure by a
    return value or by throwing (std::underflow_error in the source). */
module Wrappers {
  datatype Option<+T> = None | Some(value: T)

  /** The exceptions the modelled containers throw. */
  datatype Error = Underflow

  datatype Result<+T> = Ok(value: T) | Err(error: Error)
}
