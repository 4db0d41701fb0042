/** Failure-carrying results: `Option` stands for the codec's `string | null`
    returns, `Result` for the error taxonomy of the strict decoder. */
module Wrappers {

  datatype Option<+T> = None | Some(value: T)

  datatype Result<+T, +E> = Success(value: T) | Failure(error: E)
}
