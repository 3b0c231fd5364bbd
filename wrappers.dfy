/** Failure-carrying values: the Python code raises exceptions, the model returns them. */
module Wrappers {

  datatype Option<+T> = None | Some(value: T) {
    function GetOr(default: T): T {
      match this
      case Some(v) => v
      case None => default
    }
  }

  datatype Result<+R, +E> = Ok(value: R) | Err(error: E)

  /** Python's `if category:` on an optional string: given and non-empty. */
  predicate Requested(category: Option<string>) {
    category.Some? && category.value != []
  }
}
