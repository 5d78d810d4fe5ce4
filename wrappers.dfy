/** Optional values and results shared by every module of the model. */
module Wrappers {
  /** Kotlin's nullable `T?` and Python's `None`. */
  datatype Option<T> = None | Some(value: T) {
    /** Kotlin's elvis operator `this ?: fallback`. */
    function OrElse(fallback: T): T {
      if Some? then value else fallback
    }
  }

  datatype Result<T, E> = Ok(value: T) | Err(error: E)
}
