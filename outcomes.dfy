/** Failure-compatible wrappers and the exceptions the modelled code can raise. */
module Outcomes {

  /** Python's `None` versus a present value. */
  datatype Option<+T> = None | Some(value: T)

  /** A Python call either returns a value or raises one of the exceptions below. */
  datatype Result<+T> = Success(value: T) | Failure(error: Error) {
    predicate IsFailure() { Failure? }

    function PropagateFailure<U>(): Result<U>
      requires Failure?
    {
      Failure(error)
    }

    function Extract(): T
      requires Success?
    {
      value
    }
  }

  /** The Python exceptions raised on the modelled paths. */
  datatype Error =
    | KeyError(key: string)         // `d[k]` with `k` missing
    | AttributeError(name: string)  // attribute missing, or `.replace` on a non-string
    | TypeError                     // comparing or adding values of unrelated types
    | ValueError                    // `int()`/`float()` of a malformed string, a date out of range
    | OverflowError                 // adding days past years 1..9999
    | IndexError                    // `s[0]` of an empty string, `list.pop(0)` of an empty list
}
