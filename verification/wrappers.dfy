/** Failure-aware value wrappers shared by the whole model.
    - Option<T>: a value that may be absent (a pandas cell that may be NaN,
      a data frame result that may be None).
    - Result<T, E>: a value or the error a Python function would raise.
 */
module Wrappers {

  datatype Option<+T> = None | Some(value: T)

  datatype Result<+T, +E> = Success(value: T) | Failure(error: E)

  /** The Python idiom `None if len(df) == 0 else df`. */
  function NonEmpty<T>(s: seq<T>): (r: Option<seq<T>>)
    ensures r.None? <==> |s| == 0
    ensures r.Some? ==> r.value == s
  {
    if |s| == 0 then None else Some(s)
  }

  /** True when `x` is a row of the (possibly absent) result table `o`. */
  predicate Reported<T(==)>(o: Option<seq<T>>, x: T) {
    o.Some? && x in o.value
  }
}
