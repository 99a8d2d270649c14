/** Option and Result: the model's stand-ins for None and for raised exceptions. */
module Wrappers {

  datatype Option<+T> = None | Some(value: T)

  /** The exceptions the modelled code can raise, by the Python class that would be raised. */
  datatype Error =
    | ValueError(reason: string)      // a text that does not parse
    | AttributeError(reason: string)  // `.group()` on a failed search, a missing attribute
    | IndexError(reason: string)      // indexing a too-short tuple
    | NameError(reason: string)       // a class that the selected schema version does not define
    | TypeError(reason: string)       // a value of an unexpected JSON type

  datatype Result<+T> = Ok(value: T) | Err(error: Error)
}
