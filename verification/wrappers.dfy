/** Optional values, standing in for JavaScript's `null`/`undefined`/`NaN` results. */
module Wrappers {

  /** `None` is an absent value (a `null` slot, a missing field, a `NaN` from `parseInt`). */
  datatype Option<T> = None | Some(value: T) {

    /** `x ?? fallback`: the wrapped value when there is one. */
    function ValueOr(fallback: T): T {
      if Some? then value else fallback
    }
  }

  /** Either a value or the reason the operation refused to act. */
  datatype Result<R, E> = Ok(value: R) | Err(error: E)
}
