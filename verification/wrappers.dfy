/** Failure-carrying datatypes shared by the whole model.

    The library signals failure with Python exceptions; the model returns them
    as values. `Error` names the exception class the library raises. */
module Wrappers {

  /** Present-or-absent value: Python's `None` versus a value. */
  datatype Option<+T> = None | Some(value: T) {

    /** The wrapped value, or `default` when absent. */
    function GetOr(default: T): T {
      match this
      case Some(v) => v
      case None => default
    }
  }

  /** The Python exception classes the modelled code can raise. */
  datatype Error =
    | ValueError          // length mismatch, value outside the series, list.index miss
    | IndexError          // list or array subscript out of range
    | TypeError           // arithmetic on None
    | ZeroDivisionError   // integer division by zero
    | KeyError            // dict subscript with an absent key
    | MissingValue(key: string)  // a mandatory metadata entry is None

  /** A computed value or the exception raised instead. */
  datatype Result<+T> = Success(value: T) | Failure(error: Error) {

    predicate IsFailure() {
      Failure?
    }

    function PropagateFailure<U>(): Result<U>
      requires Failure?
    {
      Failure(error)
    }

    function Extract(): T
      requires Success?
    {
      value
    }
  }

  /** Python subscript resolution: `xs[i]` on a sequence of length `len`
      reads position `i`, or `len + i` for a negative `i`. */
  function PyIndex(len: nat, i: int): (r: Option<nat>)
    ensures r.Some? <==> -(len as int) <= i < len
    ensures r.Some? ==> r.value < len
  {
    if 0 <= i < len then Some(i)
    else if -(len as int) <= i < 0 then Some(len + i)
    else None
  }
}
