/** Option and Result datatypes used for omitted request fields and binding failures. */
module Wrappers {

  /** A value that may be absent, as an omitted JSON property or query parameter is. */
  datatype Option<+T> = None | Some(value: T) {

    /** Falls back to `fallback` for an omitted value; keeps a present one as it is. */
    function GetOr(fallback: T): T {
      if Some? then value else fallback
    }
  }

  /** Either a value or an error describing why there is none. */
  datatype Result<+R, +E> = Success(value: R) | Failure(error: E)
}
