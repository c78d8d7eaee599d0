/** Option and Result wrappers shared by every module of the model. */
module Common {

  datatype Option<+T> = None | Some(value: T)

  /** The Python exceptions raised by the modelled code. */
  datatype Error =
    | IndexError      // an index, or `[0]` of an empty list
    | KeyError        // a missing dictionary or label key
    | ValueError      // a date or an integer that does not parse, an invalid path suffix
    | TypeError       // an operation applied to a value of the wrong kind
    | AttributeError  // a method looked up on a value that does not have it

  /** The outcome of an operation that may raise one of the exceptions above. */
  datatype Result<+T> = Ok(value: T) | Err(error: Error)
}
