/** Failure-carrying wrappers shared by the modules of the model.
- Option<T> stands for a Python value that may be `None`.
- Result<T> stands for a computation that either returns a value or raises an
  exception whose `str(e)` text is the error.
 */
module Wrappers {

  datatype Option<+T> = None | Some(value: T)

  datatype Result<+T> = Success(value: T) | Failure(error: string)
}
