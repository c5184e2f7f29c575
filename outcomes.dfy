/** Success or failure of an operation that can raise a Python exception. */
module Outcomes {

  datatype Result<T, E> = Success(value: T) | Failure(error: E)
}
