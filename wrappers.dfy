/** Option and Result values shared by the other modules. */
module Wrappers {
  datatype Option<+T> = None | Some(value: T)

  /** The outcome of a call that can throw: the value, or the `name` of the
      error object (`error.name` in the source). */
  datatype Result<+T> = Ok(value: T) | Err(name: string)
}
