/** The wrappers used throughout the model: an optional value
    (a missing Redis field or JS `undefined`) and a result that is either a
    value or the error a resolver throws. */
module Wrappers {

  datatype Option<+T> = None | Some(value: T)

  datatype Result<+T, +E> = Ok(value: T) | Err(error: E)
}
