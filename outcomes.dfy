/** Option and Result values used for the scripts' "not found" and exception paths. */
module Outcomes {

  datatype Option<+T> = None | Some(value: T)

  /** `Err` carries the message of the exception the script raises. */
  datatype Result<+T> = Ok(value: T) | Err(message: string)
}
