/** Outcomes of Python operations: a value, or the exception the call raises. */
module Wrappers {

  datatype Option<+T> = None | Some(value: T)

  /** The exception kinds raised along the modelled paths. */
  datatype PyError =
    | ImmutableError   // cryostasis.ImmutableError: a denied mutation
    | TypeError
    | IndexError
    | AttributeError

  datatype Result<+T> = Ok(value: T) | Err(error: PyError)
}
