/** Optional values and results with an error, used for the wallet daemon's
    possibly missing JSON fields and for the exceptions the client throws. */
module Wrappers {

  datatype Option<+T> = None | Some(value: T)

  datatype Result<+R, +E> = Success(value: R) | Failure(error: E)

  /** A JSON list field that may be absent: `empty()` and a `foreach` over a
      missing field both behave as over an empty list. */
  function Listed<T>(o: Option<seq<T>>): seq<T>
  {
    match o
    case None => []
    case Some(l) => l
  }
}
