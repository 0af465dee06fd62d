/// The optional value and the result the library returns from its validating
/// constructors, bounds-checked lookups and parser.
module Wrappers {

  datatype Option<+T> = None | Some(value: T)

  datatype Result<+T, +E> = Ok(value: T) | Err(error: E)
}
