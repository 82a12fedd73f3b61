/** Option and Result, used for the decoders and for the outcome of writing an FDF file. */
module Wrappers {

  datatype Option<+T> = None | Some(value: T)

  datatype Result<+T, +E> = Success(value: T) | Failure(error: E)
}
