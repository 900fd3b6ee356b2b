/**
 * The C# `int` type: signed 32-bit two's-complement integers. Arithmetic in
 * an unchecked context (the C# default) wraps modulo 2^32, and integer
 * division truncates toward zero, unlike Dafny's Euclidean `/` and `%`.
 */
module BoundedInts {

  const TWO_TO_THE_32: int := 0x1_0000_0000
  const INT32_MIN: int := -0x8000_0000
  const INT32_MAX: int := 0x7FFF_FFFF

  /** The values of a C# `int`. */
  type int32 = x: int | INT32_MIN <= x <= INT32_MAX

  /** `x` is a value of a C# `int`: the constraint of `int32`, as a predicate on unbounded integers. */
  predicate InInt32Range(x: int) {
    INT32_MIN <= x <= INT32_MAX
  }

  /** `x` and `y` denote the same 32-bit pattern. */
  predicate Congruent32(x: int, y: int) {
    (x - y) % TWO_TO_THE_32 == 0
  }

  /**
   * Two's-complement reduction: the result of storing the mathematical value
   * `x` in a C# `int` without an overflow check.
   */
  function Wrap(x: int): (r: int32)
    ensures Congruent32(x, r)
    ensures InInt32Range(x) ==> r == x
  {
    (x - INT32_MIN) % TWO_TO_THE_32 + INT32_MIN
  }

  /** Two values with the same 32-bit pattern differ by a multiple of 2^32. */
  lemma CongruentWitness(x: int, y: int) returns (k: int)
    requires Congruent32(x, y)
    ensures x == y + k * TWO_TO_THE_32
  {
    k := (x - y) / TWO_TO_THE_32;
  }

  /** Wrap is the ONLY int32 with the bit pattern of `x`. */
  lemma WrapUnique(x: int, y: int32)
    requires Congruent32(x, y)
    ensures Wrap(x) == y
  {
  }

  /**
   * A value at most 2^31 outside the `int` range, as any sum or difference of
   * two `int`s is, wraps around exactly once.
   */
  lemma WrapOnce(x: int)
    requires -TWO_TO_THE_32 <= x < TWO_TO_THE_32
    ensures x > INT32_MAX ==> Wrap(x) == x - TWO_TO_THE_32
    ensures x < INT32_MIN ==> Wrap(x) == x + TWO_TO_THE_32
  {
  }

  /** Wrapping an operand first does not change the wrapped result. */
  lemma WrapCongruent(x: int, y: int)
    requires Congruent32(x, y)
    ensures Wrap(x) == Wrap(y)
  {
    var k := CongruentWitness(x, y);
    var w := Wrap(y);
    var j := CongruentWitness(y, w);
    assert x - w == (k + j) * TWO_TO_THE_32;
    WrapUnique(x, w);
  }

  /** Congruence is an equivalence relation that addition of any integer preserves. */
  lemma CongruentSymmetric(x: int, y: int)
    requires Congruent32(x, y)
    ensures Congruent32(y, x)
  {
    var k := CongruentWitness(x, y);
    assert y - x == (-k) * TWO_TO_THE_32;
  }

  lemma CongruentTransitive(x: int, y: int, z: int)
    requires Congruent32(x, y) && Congruent32(y, z)
    ensures Congruent32(x, z)
  {
    var k := CongruentWitness(x, y);
    var j := CongruentWitness(y, z);
    assert x - z == (k + j) * TWO_TO_THE_32;
  }

  lemma CongruentAdd(x: int, y: int, c: int)
    requires Congruent32(x, y)
    ensures Congruent32(x + c, y + c)
  {
    assert (x + c) - (y + c) == x - y;
  }

  /** Congruence is preserved by multiplication with any integer. */
  lemma CongruentMul(x: int, y: int, c: int)
    requires Congruent32(x, y)
    ensures Congruent32(x * c, y * c)
  {
    var k := CongruentWitness(x, y);
    assert x * c - y * c == (k * c) * TWO_TO_THE_32;
  }

  function Abs(x: int): nat {
    if x < 0 then -x else x
  }

  /**
   * `q` is the quotient of `a / b` as C# computes it: the remainder
   * `a - q * b` is smaller than the divisor in magnitude and is zero or has
   * the sign of the dividend.
   */
  predicate IsTruncatedQuotient(a: int, b: int, q: int) {
    var r := a - q * b;
    Abs(r) < Abs(b) && (r == 0 || (r < 0 <==> a < 0))
  }

  /** Integer division rounding toward zero, as C#'s `/` on `int` operands. */
  function TruncDiv(a: int, b: int): (q: int)
    requires b != 0
    ensures IsTruncatedQuotient(a, b, q)
    ensures Abs(q) <= Abs(a)
    ensures Abs(q) * Abs(b) <= Abs(a)
  {
    DivisionOfMagnitudes(Abs(a), Abs(b));
    SignedDivision(a, b, Abs(a) / Abs(b), Abs(a) % Abs(b));
    var m: int := Abs(a) / Abs(b);
    var q: int := if (a < 0) == (b < 0) then m else -m;
    assert Abs(q) == m;
    q
  }

  /** Euclidean division of non-negative numbers. */
  lemma DivisionOfMagnitudes(A: int, B: int)
    requires A >= 0 && B > 0
    ensures A == (A / B) * B + A % B && 0 <= A % B < B
  {
  }

  /** Restores the signs of a division of magnitudes `|a| == m * |b| + rem`. */
  lemma SignedDivision(a: int, b: int, m: int, rem: int)
    requires b != 0 && m >= 0 && 0 <= rem < Abs(b)
    requires Abs(a) == m * Abs(b) + rem
    ensures IsTruncatedQuotient(a, b, if (a < 0) == (b < 0) then m else -m)
    ensures m <= Abs(a) && m * Abs(b) <= Abs(a)
  {
    var B: int := Abs(b);
    MulMonotone(m, B);
    NegateProduct(m, B);
    var q: int := if (a < 0) == (b < 0) then m else -m;
    var r: int := a - q * b;
    if a >= 0 && b > 0 {
      assert r == rem;
    } else if a >= 0 {
      assert q * b == m * B;
      assert r == rem;
    } else if b < 0 {
      assert q * b == -(m * B);
      assert r == -rem;
    } else {
      assert q * b == -(m * B);
      assert r == -rem;
    }
  }

  lemma MulMonotone(m: int, B: int)
    requires m >= 0 && B >= 1
    ensures m * B >= m
  {
  }

  lemma NegateProduct(m: int, B: int)
    ensures (-m) * B == -(m * B) == m * (-B)
    ensures (-m) * (-B) == m * B
  {
  }

  /** There is only one truncated quotient, so TruncDiv is fully determined by its contract. */
  lemma TruncatedQuotientUnique(a: int, b: int, q1: int, q2: int)
    requires b != 0
    requires IsTruncatedQuotient(a, b, q1) && IsTruncatedQuotient(a, b, q2)
    ensures q1 == q2
  {
    var r1 := a - q1 * b;
    var r2 := a - q2 * b;
    assert r2 - r1 == (q1 - q2) * b;
    // Both remainders lie on the same side of zero and are shorter than b,
    // so their difference, a multiple of b, is shorter than b too.
    assert Abs(r2 - r1) < Abs(b);
    MulAtLeastDivisor(q1 - q2, b);
  }

  /** A non-zero multiple of `b` is at least as long as `b`. */
  lemma MulAtLeastDivisor(d: int, b: int)
    ensures d != 0 ==> Abs(d * b) >= Abs(b)
  {
  }

  /** For a non-negative dividend truncation and Euclidean division agree. */
  lemma TruncDivOfNonNegative(a: int, b: int)
    requires a >= 0 && b != 0
    ensures TruncDiv(a, b) == a / b
  {
  }

  /** For a negative dividend and an inexact quotient they do not: -7 / 2 is -3 in C#, -4 in Dafny. */
  lemma TruncDivDiffersFromEuclidean()
    ensures TruncDiv(-7, 2) == -3
    ensures -7 / 2 == -4
  {
  }
}
