/** Failure-carrying results shared by the whole model.  Each Java exception the
    modelled code can raise becomes one `Error` value. */
module Wrappers {

  datatype Option<T> = None | Some(value: T)

  /** The exceptions raised by the modelled code. */
  datatype Error =
    | IllegalArgument    // java.lang.IllegalArgumentException
    | NotFound           // ResourceNotFoundException
    | IndexOutOfBounds   // ArrayIndexOutOfBoundsException / IndexOutOfBoundsException
    | NumberFormat       // java.lang.NumberFormatException
    | EmptyResource      // EmptyResourceException
    | NullPointer        // java.lang.NullPointerException (unboxing a null Boolean or Float)

  datatype Result<T> = Ok(value: T) | Err(error: Error)
}
