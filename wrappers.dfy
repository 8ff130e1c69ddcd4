/** Option and Result, the two failure-carrying values the model uses for the
    scripts' "no match" and exception paths. */
module Wrappers {

  datatype Option<+T> = None | Some(value: T)

  datatype Result<+R, +E> = Ok(value: R) | Err(error: E)
}
