/** The outcome of building a board: the board, or the failure message. */
module Wrappers {
  datatype Result<+T, +E> = Success(value: T) | Failure(error: E)
}
