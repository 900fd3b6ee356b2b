/**
 * The request records the calculation endpoints accept. Records in the
 * original are immutable (`init`-only properties), so plain datatypes model
 * them: no operation can change the request it is given.
 */
module Requests {
  import opened BoundedInts
  import opened Wrappers

  /**
   * BaseMathRequest: two operands. AddRequest, SubtractRequest,
   * MultiplyRequest and DivideRequest derive from it without adding members,
   * so this one datatype stands for all five.
   */
  datatype MathRequest = MathRequest(value1: int32, value2: int32)

  /** The bounds of a random draw, lower inclusive and upper exclusive. */
  datatype RandomValueRequest = RandomValueRequest(min: int32, max: int32)

  /** Member initialisers of RandomValueRequest. */
  const DEFAULT_MIN: int32 := 0
  const DEFAULT_MAX: int32 := 100

  /** The members of a math request, named in binding failures. */
  datatype MathField = Value1 | Value2

  /**
   * Binds a math request from the members present in a request body. Both
   * members are `required`: the request exists exactly when both are given,
   * and otherwise the failure names every member that is missing.
   */
  function BindMathRequest(value1: Option<int32>, value2: Option<int32>): (r: Result<MathRequest, set<MathField>>)
    ensures r.Success? <==> value1.Some? && value2.Some?
    ensures r.Success? ==> r.value.value1 == value1.value && r.value.value2 == value2.value
    ensures r.Failure? ==> r.error != {}
    ensures r.Failure? ==> (Value1 in r.error <==> value1.None?) && (Value2 in r.error <==> value2.None?)
  {
    if value1.Some? && value2.Some? then
      Success(MathRequest(value1.value, value2.value))
    else
      Failure((if value1.None? then {Value1} else {}) + (if value2.None? then {Value2} else {}))
  }

  /**
   * Binds a random-value request from the members present in a request body;
   * an omitted member keeps its initialiser.
   */
  function BindRandomValueRequest(min: Option<int32>, max: Option<int32>): (r: RandomValueRequest)
    ensures r.min == (if min.Some? then min.value else 0)
    ensures r.max == (if max.Some? then max.value else 100)
  {
    RandomValueRequest(min.GetOr(DEFAULT_MIN), max.GetOr(DEFAULT_MAX))
  }

  /** A request with both members omitted asks for a non-empty range, [0, 100). */
  lemma DefaultRandomValueRequestIsNonEmpty()
    ensures BindRandomValueRequest(None, None).min < BindRandomValueRequest(None, None).max
  {
  }
}
