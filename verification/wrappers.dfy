/** Option and Result, used where the vault returns "nothing" or an error
    that the C# code expresses with null or an exception. */
module Wrappers {

  datatype Option<+T> = None | Some(value: T)

  datatype Result<+T, +E> = Ok(value: T) | Err(error: E)
}
