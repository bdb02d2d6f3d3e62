/** Wrappers shared by the other modules: `Option` stands in for a pointer
    that may be null, `Result` for a boolean success flag whose failure path
    carries the reason. */
module Wrappers {

  datatype Option<+T> = None | Some(value: T)

  datatype Result<+R, +E> = Success(value: R) | Failure(error: E)
}
