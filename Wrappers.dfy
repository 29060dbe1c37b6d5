/** Option and Result, the two failure-carrying wrappers used throughout the model. */
module Wrappers {

  /** A value that may be absent: Kotlin's nullable `T?`. */
  datatype Option<+T> = None | Some(value: T)

  /** The outcome of an operation that can fail with an error `E` (an exception in the source). */
  datatype Result<+T, +E> = Success(value: T) | Failure(error: E)
  {
    function ToOption(): Option<T>
    {
      match this
      case Success(v) => Some(v)
      case Failure(_) => None
    }
  }
}
