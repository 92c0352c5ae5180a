/** Wrappers used across the model: Ruby's `nil`-or-value
    results and raised exceptions become `Option` and `Result`. */
module Wrappers {

  datatype Option<+T> = None | Some(value: T)

  datatype Result<+T, +E> = Success(value: T) | Failure(error: E)
}
