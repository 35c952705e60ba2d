/** Types shared by the model: an absent value, a value or a raised exception, and a slice of a child vector. */
module Wrappers {

  datatype Option<+T> = None | Some(value: T)

  datatype Result<+T, +E> = Ok(value: T) | Err(error: E)

  datatype ListEntry = ListEntry(offset: nat, length: nat)
}
