/** Scalar helpers the polynomial code relies on: natural powers, the sign
    function, the division used where the source may divide by zero, square
    roots as supplied by the caller, and complex roots as real/imaginary pairs. */
module Numerics {

  /** The product of two reals, named as a function: equal factors then give
      equal products by congruence alone, which keeps the proofs about sums
      of products linear. */
  function Mul(a: real, b: real): real
  {
    a * b
  }

  lemma MulAssoc(a: real, b: real, c: real)
    ensures Mul(Mul(a, b), c) == Mul(a, Mul(b, c))
  {
  }

  lemma MulComm(a: real, b: real)
    ensures Mul(a, b) == Mul(b, a)
  {
  }

  /** Distribution over a sum s == b + c given by its value. */
  lemma MulDist(a: real, s: real, b: real, c: real)
    requires s == b + c
    ensures Mul(a, s) == Mul(a, b) + Mul(a, c)
  {
  }

  lemma MulDistRight(s: real, b: real, c: real, a: real)
    requires s == b + c
    ensures Mul(s, a) == Mul(b, a) + Mul(c, a)
  {
  }

  lemma MulNegate(a: real, b: real)
    ensures Mul(-a, b) == -Mul(a, b)
  {
  }

  lemma MulZero(a: real, b: real)
    requires a == 0.0 || b == 0.0
    ensures Mul(a, b) == 0.0
  {
  }

  /** x raised to a natural power (Doubles.pow with a whole exponent). */
  function Pow(x: real, n: nat): real
  {
    if n == 0 then 1.0 else Mul(x, Pow(x, n - 1))
  }

  lemma {:induction false} PowAdd(x: real, m: nat, n: nat)
    ensures Pow(x, m + n) == Mul(Pow(x, m), Pow(x, n))
  {
    if m > 0 {
      PowAdd(x, m - 1, n);
      assert m + n - 1 == (m - 1) + n;
      MulAssoc(x, Pow(x, m - 1), Pow(x, n));
    }
  }

  /** Doubles.sign: -1, 0 or 1 according to the sign of x. */
  function Sign(x: real): (s: real)
    ensures s == 1.0 || s == -1.0 || s == 0.0
    ensures x != 0.0 ==> s * x > 0.0
    ensures x == 0.0 ==> s == 0.0
  {
    if x > 0.0 then 1.0 else if x < 0.0 then -1.0 else 0.0
  }

  /** Division as the root finder performs it. Over the reals a zero divisor
      has no value; IEEE arithmetic yields NaN or an infinity there. This model
      yields 0.0 instead, and nothing proved below depends on that value. */
  function Div(x: real, y: real): (q: real)
    ensures y != 0.0 ==> q * y == x
  {
    if y == 0.0 then 0.0 else x / y
  }

  /** a plus b over c is (a c + b) over c, given that sum as s. */
  lemma DivSum(a: real, b: real, c: real, s: real)
    requires c != 0.0 && s == Mul(a, c) + b
    ensures a + Div(b, c) == s / c
  {
    calc {
      s / c;
      a * c / c + b / c;
      a + Div(b, c);
    }
  }

  /** The caller-supplied square root behaves as one at x. */
  ghost predicate IsSqrtAt(sqrt: real -> real, x: real)
  {
    x >= 0.0 ==> sqrt(x) >= 0.0 && sqrt(x) * sqrt(x) == x
  }

  /** sqrt behaves as the square root at every argument. */
  ghost predicate ExactSqrt(sqrt: real -> real)
  {
    forall x: real :: IsSqrtAt(sqrt, x)
  }

  /** A complex number; it counts as real exactly when its imaginary part is 0. */
  datatype Complex = Complex(re: real, im: real)
  {
    predicate IsReal()
    {
      im == 0.0
    }
  }
}
