/** The outcome of an operation that the cipher program can abandon with an exception. */
module Results {

  /** `Success` carries the value the operation returns; `Failure` names the exception it raises. */
  datatype Result<+T, +E> = Success(value: T) | Failure(error: E)
}
