/** Errors raised by the vocabulary layer and a Result type for them. */
module Results {

  /** The Python exceptions the modelled code can raise. */
  datatype Error =
    | KeyError              // a dictionary lookup on an absent key
    | AttributeError(name: string)  // an attribute or method that does not exist

  datatype Result<+T> = Ok(value: T) | Err(error: Error)
}
