# Calculation service model

A Dafny model of the calculation controller of the OpenAPI sample web API.
The controller has four arithmetic endpoints: add, subtract, multiply and divide.
Each takes a math request with two `int` operands.
It also has two endpoints that draw a random `int` from a range.
The bounds come either from query parameters or from a request body.

The model is purely functional:

- `wrappers.dfy` holds `Option` and `Result`. They model omitted request members and binding failures.
- `bounded_ints.dfy` (module `BoundedInts`) models the C# `int`.
  - `int32` is a subset type of `int`.
  - `Wrap` reduces a value modulo 2^32 into the signed range. C# arithmetic does this in the default unchecked context.
  - `TruncDiv` is C#'s integer division, which truncates toward zero. Dafny's Euclidean `/` rounds differently.
- `requests.dfy` (module `Requests`) holds the request records.
  - `BaseMathRequest` and its four member-less subtypes become one datatype.
  - `RandomValueRequest` keeps the member initialisers 0 and 100.
  - The records are immutable, so no operation can modify its input.
- `calculation.dfy` (module `Calculation`) holds the endpoints.
  - Each endpoint returns a `Response`: `Ok(result)`, `BadRequest(message)`, or `Unhandled(exception)` for an exception that escapes the action.
  - The random endpoints are methods. A fresh generator is created on every call and may yield any sample. Only the range and boundary behaviour of `Random.Next(min, max)` is fixed.
- `laws.dfy` (module `CalculationLaws`) relates the endpoints to each other.
  - Wrapped `int` arithmetic is the ring of integers modulo 2^32.
  - Truncating division is odd in its dividend, and it agrees with Euclidean division on non-negative dividends.

Points of C# semantics the model makes explicit:

- Add, subtract and multiply use unchecked `int` arithmetic, so they wrap around modulo 2^32.
- Divide stores an `int / int` quotient in a `double`. The result is therefore the quotient truncated toward zero, widened exactly, and the model uses an `int32`.
- `Random.Next` returns `min` when `min == max` and throws `ArgumentOutOfRangeException` when `min > max`. Otherwise the value lies in `[min, max)`.
- `int.MinValue / -1` throws `OverflowException` in C#. The zero-divisor guard does not catch this case. The model has it as a second failure outcome of divide.

## Model

| member | source | states |
|---|---|---|
| Requests.BindMathRequest | OliverScheer.OpenApiSample/Models/Requests.cs:3-7 | a math request exists exactly when both required members are present; it then carries them unchanged; otherwise the failure names exactly the missing members |
| Requests.BindRandomValueRequest | OliverScheer.OpenApiSample/Models/Requests.cs:17-21 | an omitted Min is 0 and an omitted Max is 100; a present member is kept as given |
| Requests.DefaultRandomValueRequestIsNonEmpty | OliverScheer.OpenApiSample/Models/Requests.cs:19-20 | a request with both members omitted has Min < Max |
| BoundedInts.Wrap | OliverScheer.OpenApiSample/Controllers/CalculationController.cs:17 | storing a value in an unchecked int gives an int with the same bit pattern (congruent modulo 2^32); a value already in range is unchanged |
| BoundedInts.WrapUnique | OliverScheer.OpenApiSample/Controllers/CalculationController.cs:17 | any int congruent to x modulo 2^32 is Wrap(x), so Wrap is determined by its contract |
| BoundedInts.WrapOnce | OliverScheer.OpenApiSample/Controllers/CalculationController.cs:17-26 | a sum or difference of two ints that overflows is off by exactly 2^32, downward above the range and upward below it |
| BoundedInts.TruncDiv | OliverScheer.OpenApiSample/Controllers/CalculationController.cs:52 | the int quotient leaves a remainder shorter than the divisor that is zero or has the dividend's sign; its magnitude times the divisor's does not exceed the dividend's |
| BoundedInts.TruncatedQuotientUnique | OliverScheer.OpenApiSample/Controllers/CalculationController.cs:52 | at most one quotient has a truncated remainder, so TruncDiv is determined by its contract |
| BoundedInts.TruncDivOfNonNegative | OliverScheer.OpenApiSample/Controllers/CalculationController.cs:52 | for a non-negative dividend, C# division equals Euclidean division |
| BoundedInts.TruncDivDiffersFromEuclidean | OliverScheer.OpenApiSample/Controllers/CalculationController.cs:52 | -7 / 2 is -3 in C#, not the Euclidean -4 |
| Calculation.Add | OliverScheer.OpenApiSample/Controllers/CalculationController.cs:15-20 | add always answers Ok with the sum modulo 2^32: the sum itself when it fits, sum - 2^32 above the range, sum + 2^32 below it |
| Calculation.Subtract | OliverScheer.OpenApiSample/Controllers/CalculationController.cs:24-29 | subtract always answers Ok with the difference modulo 2^32: the difference itself when it fits, otherwise off by exactly 2^32 |
| Calculation.Multiply | OliverScheer.OpenApiSample/Controllers/CalculationController.cs:33-38 | multiply always answers Ok with the int congruent to the product modulo 2^32, which is the product itself when it fits |
| Calculation.Divide | OliverScheer.OpenApiSample/Controllers/CalculationController.cs:42-55 | BadRequest with exactly the fixed message iff the divisor is 0; OverflowException iff int.MinValue / -1; otherwise Ok with the quotient truncated toward zero |
| Calculation.QuotientFits | OliverScheer.OpenApiSample/Controllers/CalculationController.cs:52 | the truncated quotient of two ints fits an int exactly when it is not int.MinValue / -1 |
| Calculation.RandomNext | OliverScheer.OpenApiSample/Controllers/CalculationController.cs:62 | Random.Next throws ArgumentOutOfRangeException iff min > max, returns min when min == max, and otherwise returns a value in [min, max) |
| Calculation.RandomNextReaches | OliverScheer.OpenApiSample/Controllers/CalculationController.cs:62 | every value in a non-empty [min, max) is returned for some sample, so the possible results are exactly the range |
| Calculation.QueryBounds | OliverScheer.OpenApiSample/Controllers/CalculationController.cs:59 | omitted query parameters default to min 0 and max 100 |
| Calculation.NextFromFreshGenerator | OliverScheer.OpenApiSample/Controllers/CalculationController.cs:61-62 | a fresh generator's answer is Random.Next for some sample; it throws ArgumentOutOfRangeException iff min > max and otherwise lies in the range |
| Calculation.RandomValue | OliverScheer.OpenApiSample/Controllers/CalculationController.cs:59-65 | GET randomvalue draws within the defaulted query bounds, exactly the lower bound when they are equal, and throws ArgumentOutOfRangeException iff the lower bound exceeds the upper |
| Calculation.RandomValueInRange | OliverScheer.OpenApiSample/Controllers/CalculationController.cs:69-75 | POST randomvalueinrange answers a value in [Min, Max), exactly Min when Min == Max, and throws iff Min > Max |
| CalculationLaws.SubtractThenAdd | OliverScheer.OpenApiSample/Controllers/CalculationController.cs:15-29 | adding b back to a - b gives a, even across an overflow |
| CalculationLaws.AddThenSubtract | OliverScheer.OpenApiSample/Controllers/CalculationController.cs:15-29 | subtracting b from a + b gives a, even across an overflow |
| CalculationLaws.AddAssociative | OliverScheer.OpenApiSample/Controllers/CalculationController.cs:17 | wrapped addition is associative |
| CalculationLaws.MultiplyDistributesOverAdd | OliverScheer.OpenApiSample/Controllers/CalculationController.cs:15-38 | wrapped multiplication distributes over wrapped addition |
| CalculationLaws.MultiplyByMinusOneNegates | OliverScheer.OpenApiSample/Controllers/CalculationController.cs:35 | multiplying by -1 equals subtracting from 0; it is plain negation except that int.MinValue * -1 is int.MinValue |
| CalculationLaws.DivideByMinusOne | OliverScheer.OpenApiSample/Controllers/CalculationController.cs:42-55 | dividing by -1 throws exactly for int.MinValue, where multiplying wraps, and agrees with multiplying by -1 otherwise |
| CalculationLaws.DivideExact | OliverScheer.OpenApiSample/Controllers/CalculationController.cs:52 | when the divisor divides the dividend, divide answers the exact quotient |
| CalculationLaws.TruncDivOddInDividend | OliverScheer.OpenApiSample/Controllers/CalculationController.cs:52 | negating the dividend negates the quotient, so rounding is toward zero |
| CalculationLaws.SampleResponses | OliverScheer.OpenApiSample/Controllers/CalculationController.cs:15-55 | add(2, 3) is 5; divide(10, 0) is the fixed BadRequest; divide(9, 3) is 3 |

## Left out

- Logging: the `LogDebug` and `LogError` calls and the reflective method-name lookup are observability side effects. They do not affect results.
- HTTP: routing, JSON serialisation of `new { result }`, and status codes. `Ok`, `BadRequest` and an escaped exception are the three `Response` constructors.
- Requests.BindMathRequest: framework model binding is reduced to "both required members present". Malformed JSON and the exact shape of the framework's validation error are not modelled.
- Calculation.RandomNext: maps a sample to `min + sample % (max - min)`, which is not System.Random's algorithm. Only the range and boundary rules of `Random.Next(min, max)` are stated. Its pseudo-random sequence and its distribution are not modelled.
- Statelessness of the random endpoints is structural: the methods read and write no state. No member states it as a contract.
- The `double` result of divide: it only ever holds an exactly widened `int`, so the model uses `int32` and no floating point.
- A build with overflow checking enabled would make add, subtract and multiply throw. The project file is not part of this model, so the default unchecked context is assumed.
- `Program.cs`: hosting, OpenAPI, Scalar and security-scheme configuration, static files, Razor pages, and the time and hello-world endpoints. None of it is calculation logic.
