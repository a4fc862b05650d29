/** Option and Result, the two failure-carrying wrappers the model uses for
    `std::optional` and `std::expected`. */
module Wrappers {

  /** `std::optional<T>`: no value, or one value. */
  datatype Option<+T> = None | Some(value: T)

  /** `std::expected<T, E>`: a value, or the error that prevented it. */
  datatype Result<+T, +E> = Ok(value: T) | Err(error: E)
}
