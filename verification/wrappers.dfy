/** Datatypes used throughout the model: `Option` stands for
    Python's `None`/NaN "no value", `Result` for an operation that may raise. */
module Wrappers {

  datatype Option<+T> = None | Some(value: T)

  datatype Result<+T, +E> = Ok(value: T) | Err(error: E)
}
