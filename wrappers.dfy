/** Helper datatypes shared by the other modules. */
module Wrappers {

  datatype Option<+T> = None | Some(value: T)

  datatype Result<+T, +E> = Success(value: T) | Failure(error: E)

  /** The two Python exceptions the scanner can raise on its own. */
  datatype Error =
    | IndexError   // `fields[i]` with `i == len(fields)`: more value tokens than field names
    | ValueError   // `max()` over the keys of an empty dictionary
}
