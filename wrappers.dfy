/**
 * Optional values and results, standing for TypeScript's `undefined`/`null`
 * and for thrown exceptions.
 */
module Wrappers {

  /** `None` is `undefined` or `null`; `Some(v)` is a present value. */
  datatype Option<+T> = None | Some(value: T) {

    /** The value of `this ?? default`. */
    function GetOr(default: T): (r: T)
      ensures Some? ==> r == value
      ensures None? ==> r == default
    {
      match this
      case Some(v) => v
      case None => default
    }
  }

  /** `Err(e)` is an exception `e` thrown by the operation; `Ok(v)` its normal return. */
  datatype Result<+T, +E> = Ok(value: T) | Err(error: E)
}
