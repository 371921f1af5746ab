/** Option and Result values standing for the optional values and the exceptions of the source. */
module Wrappers {

  datatype Option<+T> = None | Some(value: T)

  /** `Err` carries the message of the exception (`slcross::error` or `std::runtime_error`) that the source throws. */
  datatype Result<+T> = Ok(value: T) | Err(message: string)
}
