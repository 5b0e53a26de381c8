/** Plain wrappers used across the model: `Option` for values the source
    represents as `null` or `undefined`, `Result` for calls that may throw. */
module Wrappers {

  datatype Option<+T> = None | Some(value: T)

  datatype Result<+R, +E> = Success(value: R) | Failure(error: E)
}
