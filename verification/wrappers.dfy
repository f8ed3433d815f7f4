/** The two wrapper types of the model: `Option` for attribute values and
    generated `Option<&str>` results, `Result` for the macro's rejection of
    input that is not an enum. */
module Wrappers {

  /** An optional value, as Rust's `Option`. */
  datatype Option<+T> = None | Some(value: T)

  /** Either a value or an error, standing in for a value or a `panic!`. */
  datatype Result<+R, +E> = Success(value: R) | Failure(error: E)
}
