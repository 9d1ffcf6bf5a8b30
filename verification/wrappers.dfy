/** Option and Result: the model's stand-ins for Python's `None` defaults and raised exceptions. */
module Wrappers {

  /** A value that may be absent, like a DICOM attribute missing from a dataset. */
  datatype Option<+T> = None | Some(value: T) {

    /** The value, or `default` when absent (Python's `dict.get(key, default)`). */
    function GetOr(default: T): T {
      match this
      case Some(v) => v
      case None => default
    }
  }

  /** Either a value or the text of the exception that would have been raised instead. */
  datatype Result<+R> = Success(value: R) | Failure(error: string)
}
