/** Option and Result values used for the allocator's fallible operations. */
module Wrappers {

  datatype Option<+T> = None | Some(value: T)

  /** `Err` carries the panic message of an operation that aborts. */
  datatype Result<+T> = Ok(value: T) | Err(error: string)
}
