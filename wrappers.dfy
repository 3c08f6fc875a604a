/** Option and Result, as the Rust standard library shapes them. */
module Wrappers {

  datatype Option<+T> = None | Some(value: T)

  /** A fallible constructor's outcome; the error is Rust's `&'static str` message. */
  datatype Result<+T> = Ok(value: T) | Err(error: string)
}
