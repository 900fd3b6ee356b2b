/**
 * The calculation controller: four arithmetic endpoints over a math request
 * and two endpoints that draw a random value. Every endpoint is stateless and
 * is modelled as a function (or, for the random draw, a method) from request
 * to response; logging is not modelled.
 */
module Calculation {
  import opened BoundedInts
  import opened Requests
  import opened Wrappers

  /** Exceptions that escape an endpoint and become server errors. */
  datatype Exception =
    | OverflowException            // int.MinValue / -1
    | ArgumentOutOfRangeException  // Random.Next with min > max

  /** What an endpoint answers: `Ok(new { result })`, `BadRequest(message)`, or an escaped exception. */
  datatype Response = Ok(result: int32) | BadRequest(message: string) | Unhandled(exception: Exception)

  const DIVIDE_BY_ZERO_MESSAGE: string := "Only Chuck Norris can divide by zero."

  /** POST calculation/add: the sum, wrapped into the `int` range on overflow. */
  function Add(request: MathRequest): (r: Response)
    ensures r.Ok?
    ensures Congruent32(r.result, request.value1 + request.value2)
    ensures InInt32Range(request.value1 + request.value2) ==> r.result == request.value1 + request.value2
    ensures request.value1 + request.value2 > INT32_MAX ==> r.result == request.value1 + request.value2 - TWO_TO_THE_32
    ensures request.value1 + request.value2 < INT32_MIN ==> r.result == request.value1 + request.value2 + TWO_TO_THE_32
  {
    var sum := request.value1 + request.value2;
    WrapOnce(sum);
    Ok(Wrap(sum))
  }

  /** POST calculation/subtract: the difference, wrapped into the `int` range on overflow. */
  function Subtract(request: MathRequest): (r: Response)
    ensures r.Ok?
    ensures Congruent32(r.result, request.value1 - request.value2)
    ensures InInt32Range(request.value1 - request.value2) ==> r.result == request.value1 - request.value2
    ensures request.value1 - request.value2 > INT32_MAX ==> r.result == request.value1 - request.value2 - TWO_TO_THE_32
    ensures request.value1 - request.value2 < INT32_MIN ==> r.result == request.value1 - request.value2 + TWO_TO_THE_32
  {
    var difference := request.value1 - request.value2;
    WrapOnce(difference);
    Ok(Wrap(difference))
  }

  /** POST calculation/multiply: the product, reduced into the `int` range modulo 2^32. */
  function Multiply(request: MathRequest): (r: Response)
    ensures r.Ok?
    ensures Congruent32(r.result, request.value1 * request.value2)
    ensures InInt32Range(request.value1 * request.value2) ==> r.result == request.value1 * request.value2
  {
    Ok(Wrap(request.value1 * request.value2))
  }

  /**
   * POST calculation/divide: a zero divisor is answered with a fixed message;
   * otherwise the quotient truncated toward zero. The one quotient that does
   * not fit an `int`, int.MinValue / -1, throws.
   */
  function Divide(request: MathRequest): (r: Response)
    ensures r.BadRequest? <==> request.value2 == 0
    ensures r.BadRequest? ==> r.message == DIVIDE_BY_ZERO_MESSAGE
    ensures r.Unhandled? <==> request.value1 == INT32_MIN && request.value2 == -1
    ensures r.Unhandled? ==> r.exception == OverflowException
    ensures r.Ok? ==> IsTruncatedQuotient(request.value1, request.value2, r.result)
  {
    if request.value2 == 0 then
      BadRequest(DIVIDE_BY_ZERO_MESSAGE)
    else if request.value1 == INT32_MIN && request.value2 == -1 then
      Unhandled(OverflowException)
    else
      QuotientFits(request.value1, request.value2);
      Ok(TruncDiv(request.value1, request.value2))
  }

  /** Every truncated quotient of two `int`s is an `int`, except int.MinValue / -1. */
  lemma QuotientFits(a: int32, b: int32)
    requires b != 0
    ensures InInt32Range(TruncDiv(a, b)) <==> !(a == INT32_MIN && b == -1)
  {
  }

  /**
   * System.Random.Next(minValue, maxValue) on a freshly created generator,
   * given the generator's next 32-bit sample `draw`. An empty range yields
   * `min`; a reversed range throws.
   */
  function RandomNext(min: int32, max: int32, draw: nat): (r: Response)
    ensures r.Unhandled? <==> min > max
    ensures r.Unhandled? ==> r.exception == ArgumentOutOfRangeException
    ensures !r.BadRequest?
    ensures min == max ==> r == Ok(min)
    ensures min < max ==> r.Ok? && min <= r.result < max
  {
    if min > max then Unhandled(ArgumentOutOfRangeException)
    else if min == max then Ok(min)
    else Ok(min + draw % (max - min))
  }

  /** Every value of a non-empty range is drawn by some sample. */
  lemma RandomNextReaches(min: int32, max: int32, v: int32) returns (draw: nat)
    requires min <= v < max
    ensures RandomNext(min, max, draw) == Ok(v)
  {
    draw := v - min;
    SmallRemainder(draw, max - min);
  }

  lemma SmallRemainder(x: nat, n: int)
    requires x < n
    ensures x % n == x
  {
  }

  /** The bounds a random-value query asks for: omitted parameters default to [0, 100). */
  function QueryBounds(min: Option<int32>, max: Option<int32>): (bounds: (int32, int32))
    ensures bounds.0 == (if min.Some? then min.value else 0)
    ensures bounds.1 == (if max.Some? then max.value else 100)
  {
    (min.GetOr(0), max.GetOr(100))
  }

  /** Draws from a fresh generator: any 32-bit sample may come out. */
  method NextFromFreshGenerator(min: int32, max: int32) returns (r: Response)
    ensures exists draw: nat :: r == RandomNext(min, max, draw)
    ensures r.Unhandled? <==> min > max
    ensures r.Unhandled? ==> r.exception == ArgumentOutOfRangeException
    ensures min <= max ==> r.Ok? && min <= r.result && (r.result < max || r.result == min == max)
  {
    var draw: nat :| draw < TWO_TO_THE_32;
    r := RandomNext(min, max, draw);
  }

  /** GET calculation/randomvalue?min=&max= */
  method RandomValue(min: Option<int32>, max: Option<int32>) returns (r: Response)
    ensures var (lo, hi) := QueryBounds(min, max);
      && (r.Unhandled? <==> lo > hi)
      && (r.Unhandled? ==> r.exception == ArgumentOutOfRangeException)
      && (lo <= hi ==> r.Ok? && lo <= r.result && (r.result < hi || r.result == lo == hi))
  {
    var bounds := QueryBounds(min, max);
    r := NextFromFreshGenerator(bounds.0, bounds.1);
  }

  /** POST calculation/randomvalueinrange */
  method RandomValueInRange(request: RandomValueRequest) returns (r: Response)
    ensures r.Unhandled? <==> request.min > request.max
    ensures r.Unhandled? ==> r.exception == ArgumentOutOfRangeException
    ensures request.min <= request.max ==> r.Ok? && request.min <= r.result
    ensures request.min < request.max ==> r.result < request.max
    ensures request.min == request.max ==> r.result == request.min
  {
    r := NextFromFreshGenerator(request.min, request.max);
  }
}
