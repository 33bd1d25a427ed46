/** Optional values and success/failure results, used where the editor's
    dictionaries may lack a key or a handler raises. */
module Wrappers {

  datatype Option<+T> = None | Some(value: T) {

    /** The wrapped value, or `default` when there is none (Python's `dict.get(k, default)`). */
    function GetOr(default: T): T {
      match this
      case Some(v) => v
      case None => default
    }
  }

  /** `Failure` stands for a handler that raised: the document it was working on is left as it was. */
  datatype Result<+T, +E> = Success(value: T) | Failure(error: E)
}
