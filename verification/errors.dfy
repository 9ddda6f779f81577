/** Error codes shared by every operation of the image library, and the
    value-or-error wrapper used where an operation produces a fresh value. */
module CvErrors {

  /** The status every operation returns. `NoError` is success; the macro that
      reports an error and returns it becomes an early return in the model. */
  datatype CVError = NoError | Memory | Input | FileAccess | Unknown

  /** A fresh value, or the error that stopped its computation. */
  datatype Result<+T> = Success(value: T) | Failure(error: CVError)
}
