/** The closed forms the root finder uses for degrees 1 and 2, and what they
    promise over exact reals: every root returned solves the equation. */
module Quadratics {
  import opened Numerics
  import opened Terms
  import opened Series

  /** z solves a z^2 + b z + c = 0: the real and the imaginary part of
      a (re + i im)^2 + b (re + i im) + c both vanish. */
  ghost predicate SolvesQuadratic(a: real, b: real, c: real, z: Complex)
  {
    a * (z.re * z.re - z.im * z.im) + b * z.re + c == 0.0
    && z.im * (2.0 * a * z.re + b) == 0.0
  }

  /** The discriminant b^2 - 4ac. */
  function Discriminant(a: real, b: real, c: real): real
  {
    b * b - 4.0 * a * c
  }

  /** The square roots the closed form takes behave as square roots. */
  ghost predicate SqrtsAt(a: real, b: real, c: real, sqrt: real -> real)
    requires a != 0.0
  {
    IsSqrtAt(sqrt, -c / a) && IsSqrtAt(sqrt, c / a)
    && IsSqrtAt(sqrt, Discriminant(a, b, c)) && IsSqrtAt(sqrt, -Discriminant(a, b, c))
  }

  /** The roots findQuadratic appends for a x^2 + b x + c, in its order.
      With b = 0: none when a = 0 too, otherwise -sqrt(-c/a) and sqrt(-c/a)
      when -c/a > 0, else the imaginary pair -i sqrt(c/a), i sqrt(c/a).
      Otherwise by the discriminant: one root -b/(2a) when it is 0; when it
      is positive, the root -(b + sign(b) sqrt(disc))/(2a) and the second
      root obtained from the product c/a; when it is negative, the conjugate
      pair -b/(2a) -+ i sqrt(-disc)/(2a). Div stands for the two divisions
      that can meet a zero divisor (a = 0 with b != 0). */
  function QuadraticRoots(a: real, b: real, c: real, sqrt: real -> real): (rs: seq<Complex>)
  {
    if b == 0.0 then
      if a == 0.0 then []
      else
        var val := -c / a;
        if val > 0.0 then [Complex(-sqrt(val), 0.0), Complex(sqrt(val), 0.0)]
        else [Complex(0.0, -sqrt(-val)), Complex(0.0, sqrt(-val))]
    else
      var disc := Discriminant(a, b, c);
      if disc == 0.0 then
        [Complex(Div(-b, 2.0 * a), 0.0)]
      else if disc > 0.0 then
        var s := Sign(b) * sqrt(disc);
        var val1 := Div(-(b + s), 2.0 * a);
        var val2 := Div(c, a * val1);
        [Complex(val1, 0.0), Complex(val2, 0.0)]
      else
        var s := sqrt(-disc);
        [Complex(Div(-b, 2.0 * a), Div(-s, 2.0 * a)), Complex(Div(-b, 2.0 * a), Div(s, 2.0 * a))]
  }

  /** How many roots each branch appends and of what kind: none for
      a = b = 0, one real root for a zero discriminant, a real pair for a
      positive one, and otherwise a pair of conjugates. */
  lemma QuadraticShape(a: real, b: real, c: real, sqrt: real -> real)
    ensures var rs := QuadraticRoots(a, b, c, sqrt);
      && (b == 0.0 && a == 0.0 ==> rs == [])
      && (b != 0.0 && Discriminant(a, b, c) == 0.0 ==> |rs| == 1 && rs[0].IsReal())
      && (b != 0.0 && Discriminant(a, b, c) > 0.0 ==> |rs| == 2 && rs[0].IsReal() && rs[1].IsReal())
      && (b == 0.0 && a != 0.0 && -c / a > 0.0 ==>
            |rs| == 2 && rs[0].IsReal() && rs[1].IsReal() && rs[0].re == -rs[1].re)
      && (b == 0.0 && a != 0.0 && -c / a <= 0.0 ==>
            |rs| == 2 && rs[0].re == 0.0 && rs[1].re == 0.0 && rs[0].im == -rs[1].im)
      && (b != 0.0 && Discriminant(a, b, c) < 0.0 ==>
            |rs| == 2 && rs[0].re == rs[1].re && rs[0].im == -rs[1].im)
      && |rs| <= 2
  {
    var disc := Discriminant(a, b, c);
    if b != 0.0 && disc < 0.0 {
      var s := sqrt(-disc);
      assert Div(-s, 2.0 * a) == -Div(s, 2.0 * a) by {
        if a != 0.0 {
          assert -s / (2.0 * a) == -(s / (2.0 * a));
        }
      }
    }
  }

  /** With b = 0 both roots solve the equation. */
  lemma PureRootsSolve(a: real, c: real, sqrt: real -> real)
    requires a != 0.0 && IsSqrtAt(sqrt, -c / a) && IsSqrtAt(sqrt, c / a)
    ensures forall z :: z in QuadraticRoots(a, 0.0, c, sqrt) ==> SolvesQuadratic(a, 0.0, c, z)
  {
    var val := -c / a;
    assert a * val + c == 0.0;
    if val > 0.0 {
      var s := sqrt(val);
      assert s * s == val;
      assert SolvesQuadratic(a, 0.0, c, Complex(-s, 0.0)) by {
        assert (-s) * (-s) == s * s;
      }
      assert SolvesQuadratic(a, 0.0, c, Complex(s, 0.0));
    } else {
      assert -val == c / a;
      var s := sqrt(-val);
      assert s * s == -val;
      assert SolvesQuadratic(a, 0.0, c, Complex(0.0, -s)) by {
        assert (-s) * (-s) == s * s;
      }
      assert SolvesQuadratic(a, 0.0, c, Complex(0.0, s));
    }
  }

  /** A zero discriminant gives the double root -b/(2a). */
  lemma DoubleRootSolves(a: real, b: real, c: real)
    requires a != 0.0 && Discriminant(a, b, c) == 0.0
    ensures SolvesQuadratic(a, b, c, Complex(Div(-b, 2.0 * a), 0.0))
  {
    var r := -b / (2.0 * a);
    assert 2.0 * a * r == -b;
    assert 4.0 * a * (a * (r * r) + b * r + c) == (2.0 * a * r) * (2.0 * a * r) + 2.0 * b * (2.0 * a * r) + 4.0 * a * c;
  }

  /** The stable first root of a positive discriminant solves the equation,
      and is not 0 when b is not. */
  lemma StableRootSolves(a: real, b: real, c: real, s: real)
    requires a != 0.0 && b != 0.0 && s * s == Discriminant(a, b, c)
    requires s == 0.0 || (s > 0.0 <==> b > 0.0)
    ensures var r := Div(-(b + s), 2.0 * a);
      SolvesQuadratic(a, b, c, Complex(r, 0.0)) && a * (r * r) + b * r + c == 0.0 && r != 0.0
  {
    var r := -(b + s) / (2.0 * a);
    assert 2.0 * a * r == -(b + s);
    assert 4.0 * a * (a * (r * r) + b * r + c) == (2.0 * a * r) * (2.0 * a * r) + 2.0 * b * (2.0 * a * r) + 4.0 * a * c;
    assert (b + s) * (b + s) - 2.0 * b * (b + s) + 4.0 * a * c == s * s - b * b + 4.0 * a * c;
    assert b + s != 0.0;
  }

  /** Given one non-zero root r1, c/(a r1) is the other: their product is c/a
      and their sum -b/a. */
  lemma ProductRoot(a: real, b: real, c: real, r1: real)
    requires a != 0.0 && r1 != 0.0 && a * (r1 * r1) + b * r1 + c == 0.0
    ensures var r2 := Div(c, a * r1);
      && SolvesQuadratic(a, b, c, Complex(r2, 0.0))
      && r1 * r2 == c / a && r1 + r2 == -b / a
  {
    var r2 := c / (a * r1);
    assert a * r1 * r2 == c;
    assert r1 * r2 == c / a;
    assert a * r1 * (r1 + r2) == a * r1 * r1 + c;
    assert a * r1 * (r1 + r2) == -b * r1;
    assert a * (r1 + r2) == -b;
    assert r1 + r2 == -b / a;
    assert a * (r2 * r2) + b * r2 + c == a * (r2 * r2) - a * (r1 + r2) * r2 + a * r1 * r2;
  }

  /** The conjugate pair of a negative discriminant solves the equation. */
  lemma ConjugateRootsSolve(a: real, b: real, c: real, s: real)
    requires a != 0.0 && s * s == -Discriminant(a, b, c)
    ensures SolvesQuadratic(a, b, c, Complex(Div(-b, 2.0 * a), Div(-s, 2.0 * a)))
    ensures SolvesQuadratic(a, b, c, Complex(Div(-b, 2.0 * a), Div(s, 2.0 * a)))
  {
    var re, im := -b / (2.0 * a), s / (2.0 * a);
    assert 2.0 * a * re == -b;
    assert 2.0 * a * im == s;
    assert 2.0 * a * (-im) == -s;
    assert 4.0 * a * (a * (re * re - im * im) + b * re + c)
        == (2.0 * a * re) * (2.0 * a * re) - (2.0 * a * im) * (2.0 * a * im) + 2.0 * b * (2.0 * a * re) + 4.0 * a * c;
    assert 4.0 * a * (a * (re * re - (-im) * (-im)) + b * re + c)
        == (2.0 * a * re) * (2.0 * a * re) - (2.0 * a * im) * (2.0 * a * im) + 2.0 * b * (2.0 * a * re) + 4.0 * a * c;
    assert -s / (2.0 * a) == -im;
  }

  /** sign(b) sqrt(disc) squares to disc and has the sign of b. */
  lemma SignedRoot(b: real, t: real)
    requires b != 0.0
    ensures var s := Sign(b) * t;
      s * s == t * t && (s == t || s == -t) && (b > 0.0 ==> s == t) && (b < 0.0 ==> s == -t)
  {
  }

  lemma PositiveBranch(a: real, b: real, c: real, sqrt: real -> real)
    requires b != 0.0 && Discriminant(a, b, c) > 0.0
    ensures var r1 := Div(-(b + Sign(b) * sqrt(Discriminant(a, b, c))), 2.0 * a);
      QuadraticRoots(a, b, c, sqrt) == [Complex(r1, 0.0), Complex(Div(c, a * r1), 0.0)]
  {
  }

  /** The real pair of a positive discriminant: both solve the equation,
      their product is c/a and their sum -b/a. */
  lemma RealPairSolves(a: real, b: real, c: real, sqrt: real -> real)
    requires a != 0.0 && b != 0.0 && Discriminant(a, b, c) > 0.0
    requires IsSqrtAt(sqrt, Discriminant(a, b, c))
    ensures var rs := QuadraticRoots(a, b, c, sqrt);
      && |rs| == 2 && SolvesQuadratic(a, b, c, rs[0]) && SolvesQuadratic(a, b, c, rs[1])
      && rs[0].re * rs[1].re == c / a && rs[0].re + rs[1].re == -b / a
  {
    var disc := Discriminant(a, b, c);
    var t := sqrt(disc);
    var s := Sign(b) * t;
    var r1 := Div(-(b + s), 2.0 * a);
    var r2 := Div(c, a * r1);
    PositiveBranch(a, b, c, sqrt);
    SignedRoot(b, t);
    StableRootSolves(a, b, c, s);
    ProductRoot(a, b, c, r1);
    var rs := QuadraticRoots(a, b, c, sqrt);
    assert rs[0] == Complex(r1, 0.0) && rs[1] == Complex(r2, 0.0);
  }

  /** Over exact reals, every root findQuadratic appends for a non-zero a
      solves a z^2 + b z + c = 0. */
  lemma QuadraticRootsSolve(a: real, b: real, c: real, sqrt: real -> real)
    requires a != 0.0 && SqrtsAt(a, b, c, sqrt)
    ensures forall z :: z in QuadraticRoots(a, b, c, sqrt) ==> SolvesQuadratic(a, b, c, z)
  {
    var disc := Discriminant(a, b, c);
    if b == 0.0 {
      PureRootsSolve(a, c, sqrt);
    } else if disc == 0.0 {
      DoubleRootSolves(a, b, c);
    } else if disc > 0.0 {
      RealPairSolves(a, b, c, sqrt);
    } else {
      ConjugateRootsSolve(a, b, c, sqrt(-disc));
    }
  }

  /** A store of degree at most 2 evaluates to c0 + c1 x + c2 x^2. */
  lemma EvalUpToQuadratic(m: Terms, x: real)
    requires Deg(m) <= 2
    ensures Eval(m, x) == Coeff(m, 0) + Coeff(m, 1) * x + Coeff(m, 2) * (x * x)
  {
    PowerSumBeyond(m, x, 3);
    assert PowerSum(m, x, 1) == Coeff(m, 0) * Pow(x, 0);
    assert PowerSum(m, x, 2) == PowerSum(m, x, 1) + Coeff(m, 1) * Pow(x, 1);
    assert PowerSum(m, x, 3) == PowerSum(m, x, 2) + Coeff(m, 2) * Pow(x, 2);
    assert Pow(x, 2) == x * x by {
      assert Pow(x, 1) == x;
    }
  }

  /** A real root of the closed form is a zero of the polynomial it came from. */
  lemma RealSolutionIsZero(m: Terms, z: Complex)
    requires Deg(m) <= 2 && z.IsReal()
    requires SolvesQuadratic(Coeff(m, 2), Coeff(m, 1), Coeff(m, 0), z)
    ensures Eval(m, z.re) == 0.0
  {
    EvalUpToQuadratic(m, z.re);
  }

  /** The root findLinear appends, -c0 / c1, is a zero of a store of degree 1. */
  lemma LinearRootSolves(m: Terms)
    requires Deg(m) == 1 && Coeff(m, 1) != 0.0
    ensures Eval(m, Div(-Coeff(m, 0), Coeff(m, 1))) == 0.0
  {
    var r := Div(-Coeff(m, 0), Coeff(m, 1));
    EvalUpToQuadratic(m, r);
    assert Coeff(m, 2) == 0.0;
  }

  /** Every real root the closed form gives for a store of degree 2 is a zero
      of that store, when sqrt behaves as a square root. */
  lemma QuadraticRealRoots(m: Terms, sqrt: real -> real, z: Complex)
    requires Deg(m) <= 2 && Coeff(m, 2) != 0.0
    requires ExactSqrt(sqrt)
    requires z in QuadraticRoots(Coeff(m, 2), Coeff(m, 1), Coeff(m, 0), sqrt) && z.IsReal()
    ensures Eval(m, z.re) == 0.0
  {
    QuadraticRootsSolve(Coeff(m, 2), Coeff(m, 1), Coeff(m, 0), sqrt);
    RealSolutionIsZero(m, z);
  }

  /** With a != 0 the closed form gives one or two roots. */
  lemma QuadraticCount(a: real, b: real, c: real, sqrt: real -> real)
    requires a != 0.0
    ensures 1 <= |QuadraticRoots(a, b, c, sqrt)| <= 2
  {
    QuadraticShape(a, b, c, sqrt);
  }
}
