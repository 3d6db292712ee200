/** Option, Result and Outcome for the exceptions the finance tracker raises. */
module Wrappers {

  datatype Option<+T> = None | Some(value: T) {
    /** The carried value, or `default` when absent. */
    function GetOr(default: T): T {
      match this
      case Some(v) => v
      case None => default
    }
  }

  /** The Python exceptions the core raises, with their messages. */
  datatype Error =
    | ValueError(message: string)
      /** A missing attribute, such as `strip` on an object that is not a string. */
    | AttributeError(message: string)
      /** The TypeError or ValueError `float(x)` raises on a value it cannot convert. */
    | ConversionError

  /** A value, or the exception raised instead of returning it. */
  datatype Result<+T> = Ok(value: T) | Err(error: Error)

  /** Either nothing was raised, or the exception that was. */
  datatype Outcome = Pass | Fail(error: Error)
}
