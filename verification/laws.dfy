/**
 * Algebraic laws of the calculation endpoints. With unchecked overflow the
 * `int` endpoints form the ring of integers modulo 2^32, so add and subtract
 * undo each other and the usual laws hold even across an overflow; divide is
 * truncating division, which is odd in its dividend and agrees with Dafny's
 * Euclidean division only on non-negative dividends.
 */
module CalculationLaws {
  import opened BoundedInts
  import opened Requests
  import opened Calculation

  function AddInt(a: int32, b: int32): int32 {
    Add(MathRequest(a, b)).result
  }

  function SubtractInt(a: int32, b: int32): int32 {
    Subtract(MathRequest(a, b)).result
  }

  function MultiplyInt(a: int32, b: int32): int32 {
    Multiply(MathRequest(a, b)).result
  }

  /** Adding back what was subtracted restores the minuend, overflow or not. */
  lemma SubtractThenAdd(a: int32, b: int32)
    ensures AddInt(SubtractInt(a, b), b) == a
  {
  }

  /** Subtracting what was added restores the first operand, overflow or not. */
  lemma AddThenSubtract(a: int32, b: int32)
    ensures SubtractInt(AddInt(a, b), b) == a
  {
  }

  /** Addition is associative even when an intermediate sum overflows. */
  lemma AddAssociative(a: int32, b: int32, c: int32)
    ensures AddInt(AddInt(a, b), c) == AddInt(a, AddInt(b, c))
  {
    WrapCongruent(AddInt(a, b) + c, a + AddInt(b, c));
  }

  /** Multiplication distributes over addition modulo 2^32. */
  lemma MultiplyDistributesOverAdd(a: int32, b: int32, c: int32)
    ensures MultiplyInt(a, AddInt(b, c)) == AddInt(MultiplyInt(a, b), MultiplyInt(a, c))
  {
    var bc: int := AddInt(b, c);
    var ab: int := MultiplyInt(a, b);
    var ac: int := MultiplyInt(a, c);
    // a * bc == a * (b + c) == a * b + a * c == ab + ac, each modulo 2^32
    CongruentMul(bc, b + c, a);
    assert bc * a == a * bc && (b + c) * a == a * b + a * c;
    CongruentAdd(ab, a * b, ac);
    CongruentAdd(ac, a * c, a * b);
    assert Congruent32(ab + ac, a * b + a * c) by {
      CongruentTransitive(ab + ac, a * b + ac, a * b + a * c);
    }
    CongruentSymmetric(ab + ac, a * b + a * c);
    CongruentTransitive(a * bc, a * b + a * c, ab + ac);
    WrapCongruent(a * bc, ab + ac);
  }

  /** Multiplying by -1 negates with wrap-around: int.MinValue * -1 is int.MinValue. */
  lemma MultiplyByMinusOneNegates(a: int32)
    ensures MultiplyInt(a, -1) == SubtractInt(0, a)
    ensures a != INT32_MIN ==> MultiplyInt(a, -1) == -a
    ensures MultiplyInt(INT32_MIN, -1) == INT32_MIN
  {
  }

  /** Divide by -1 throws exactly where multiply by -1 silently wraps, and agrees elsewhere. */
  lemma DivideByMinusOne(a: int32)
    ensures Divide(MathRequest(a, -1)).Unhandled? <==> a == INT32_MIN
    ensures a != INT32_MIN ==> Divide(MathRequest(a, -1)) == Ok(MultiplyInt(a, -1))
  {
  }

  /** An exact division returns the exact quotient. */
  lemma DivideExact(a: int32, b: int32, k: int32)
    requires b != 0 && a == k * b
    ensures Divide(MathRequest(a, b)) == Ok(k)
  {
    assert IsTruncatedQuotient(a, b, k);
    TruncatedQuotientUnique(a, b, k, Divide(MathRequest(a, b)).result);
  }

  /** Negating the dividend negates the quotient: rounding is toward zero, not toward minus infinity. */
  lemma TruncDivOddInDividend(a: int, b: int)
    requires b != 0
    ensures TruncDiv(-a, b) == -TruncDiv(a, b)
  {
  }

  /** Sample responses of add and divide. */
  lemma SampleResponses()
    ensures Add(MathRequest(2, 3)) == Ok(5)
    ensures Divide(MathRequest(10, 0)) == BadRequest("Only Chuck Norris can divide by zero.")
    ensures Divide(MathRequest(9, 3)) == Ok(3)
  {
  }
}
