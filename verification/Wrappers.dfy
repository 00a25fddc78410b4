/** Values that may be missing, and computations that may fail. */
module Wrappers {
  datatype Option<T> = None | Some(value: T) {
    function GetOr(default: T): T {
      match this case None => default case Some(v) => v
    }
  }

  datatype Result<T> = Success(value: T) | Exception
}
