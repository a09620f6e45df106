/** The Rational class: a numerator divided by a denominator, kept as the
    quotient and remainder of their long division, so that
    numer = quotient * lower + upper with upper of lower degree than lower. */
module Rationals {
  import opened Numerics
  import opened Terms
  import opened Series
  import opened Algebra
  import opened Polynomials

  class Rational {
    var lower: Polynomial
    var upper: Polynomial
    var quotient: Polynomial
    /** The coefficients the numerator and denominator had when divided. */
    ghost var numer: Terms
    ghost var denom: Terms

    /** What the constructor establishes: the division identity, a remainder
        of smaller degree than the divisor, and the divisor's coefficients. */
    ghost predicate Valid()
      reads this, lower, upper, quotient
    {
      && lower.Valid() && upper.Valid() && quotient.Valid()
      && Normal(lower.terms) && Normal(upper.terms) && Normal(quotient.terms)
      && Sparse(denom) && Deg(lower.terms) >= 1
      && Deg(upper.terms) < Deg(lower.terms)
      && (forall k: nat :: Coeff(lower.terms, k) == Coeff(denom, k))
      && DivisionIdentity(numer, quotient.terms, lower.terms, upper.terms)
    }

    /** new Rational(numer, denom): the long division of a copy of numer by
        a copy of denom, its quotient, remainder and divisor kept. It ends
        only for a divisor of degree 1 or more (see ConstantDivisorKeepsLooping). */
    constructor (numerator: Polynomial, denominator: Polynomial)
      requires numerator.Valid() && denominator.Valid()
      requires Deg(denominator.terms) >= 1
      ensures Valid()
      ensures numer == numerator.terms && denom == denominator.terms
      ensures fresh(lower) && fresh(upper) && fresh(quotient)
    {
      var qu, up, lo := LongDivision(numerator, denominator);
      lower := lo;
      upper := up;
      quotient := qu;
      numer := numerator.terms;
      denom := denominator.terms;
    }

    /** The constructor's loop. While the remainder's degree reaches the
        divisor's, the leading term of the remainder over the leading term of
        the divisor joins the quotient, and the divisor times that term is
        taken off the remainder. */
    static method LongDivision(numerator: Polynomial, denominator: Polynomial)
      returns (qu: Polynomial, up: Polynomial, lo: Polynomial)
      requires numerator.Valid() && denominator.Valid()
      requires Deg(denominator.terms) >= 1
      ensures fresh(qu) && fresh(up) && fresh(lo)
      ensures lo.Valid() && up.Valid() && qu.Valid()
      ensures Normal(lo.terms) && Normal(up.terms) && Normal(qu.terms)
      ensures lo.terms == Padded(denominator.terms) && Deg(lo.terms) >= 1
      ensures Deg(up.terms) < Deg(lo.terms)
      ensures DivisionIdentity(numerator.terms, qu.terms, lo.terms, up.terms)
    {
      up := numerator.Copy();
      lo := denominator.Copy();
      qu := new Polynomial();
      PaddedDegree(denominator.terms);
      forall k: nat
        ensures Coeff(numerator.terms, k) == ConvCoeff(qu.terms, lo.terms, k) + Coeff(up.terms, k)
      {
        ConvSumZero(qu.terms, lo.terms, k, k + 1);
      }
      while lo.Degree() <= up.Degree()
        invariant fresh(up) && fresh(qu)
        invariant Normal(up.terms) && Normal(qu.terms)
        invariant lo.terms == Padded(denominator.terms) && Deg(lo.terms) >= 1
        invariant DivisionIdentity(numerator.terms, qu.terms, lo.terms, up.terms)
        decreases Deg(up.terms)
      {
        qu, up := DivisionStep(numerator.terms, qu, up, lo);
      }
    }

    /** One pass of the loop: the leading term of the remainder over the
        leading term of the divisor joins the quotient, and the divisor times
        that term is taken off the remainder, whose degree drops. */
    static method DivisionStep(ghost n: Terms, qu: Polynomial, up: Polynomial, lo: Polynomial)
      returns (qu': Polynomial, up': Polynomial)
      requires Normal(up.terms) && Normal(qu.terms) && Normal(lo.terms)
      requires 1 <= Deg(lo.terms) <= Deg(up.terms)
      requires DivisionIdentity(n, qu.terms, lo.terms, up.terms)
      ensures fresh(qu') && fresh(up')
      ensures Normal(up'.terms) && Normal(qu'.terms)
      ensures Deg(up'.terms) < Deg(up.terms)
      ensures DivisionIdentity(n, qu'.terms, lo.terms, up'.terms)
    {
      var degr := up.Degree();
      var degd := lo.Degree();
      var deg := degr - degd;

      var valr := up.Coefficient(degr);
      var vald := lo.Coefficient(degd);
      var val := valr / vald;

      var ply := lo.TimesTerm(deg, -val);
      qu' := qu.PlusTerm(deg, val);
      up' := up.Plus(ply);
      DivisionStepTerms(n, qu.terms, lo.terms, up.terms, qu'.terms, up'.terms, deg, val);
    }

    /** evaluate: the quotient's value plus the remainder's value over the
        divisor's, which is the numerator's value over the denominator's
        wherever the denominator does not vanish. */
    method Evaluate(x: real) returns (result: real)
      requires Valid()
      ensures Eval(denom, x) != 0.0 ==> result == Eval(numer, x) / Eval(denom, x)
    {
      var q := quotient.Evaluate(x);
      var u := upper.Evaluate(x);
      var l := lower.Evaluate(x);
      result := q + Div(u, l);
      EvalCongruent(lower.terms, denom, x);
      RationalValue(numer, quotient.terms, lower.terms, upper.terms, x);
    }

    /** Remainder(): of smaller degree than the divisor, and what the
        quotient times the divisor leaves of the numerator. */
    method Remainder() returns (r: Polynomial)
      requires Valid()
      ensures r.Valid() && Deg(r.terms) < Deg(denom)
      ensures DivisionIdentity(numer, quotient.terms, lower.terms, r.terms)
    {
      r := upper;
      DegreeOfCongruent(lower.terms, denom);
    }

    /** Quotient(): the polynomial whose product with the divisor leaves a
        remainder of smaller degree. */
    method Quotient() returns (q: Polynomial)
      requires Valid()
      ensures q.Valid()
      ensures DivisionIdentity(numer, q.terms, lower.terms, upper.terms)
      ensures Deg(upper.terms) < Deg(denom)
    {
      q := quotient;
      DegreeOfCongruent(lower.terms, denom);
    }

    /** Divisor(): a copy of the denominator. */
    method Divisor() returns (d: Polynomial)
      requires Valid()
      ensures d.Valid() && Deg(d.terms) == Deg(denom)
      ensures forall k: nat :: d.Coefficient(k) == Coeff(denom, k)
    {
      d := lower;
      DegreeOfCongruent(lower.terms, denom);
    }
  }

  /** Sparse stores with the same coefficients above degree 0 have the same
      degree once it is positive. */
  lemma DegreeOfCongruent(a: Terms, b: Terms)
    requires Sparse(a) && Sparse(b) && Deg(a) >= 1
    requires forall k: nat :: Coeff(a, k) == Coeff(b, k)
    ensures Deg(a) == Deg(b)
  {
    LeadingNonZero(a);
    assert Coeff(b, Deg(a)) != 0.0;
    if Deg(b) > Deg(a) {
      LeadingNonZero(b);
    }
  }

  /** One step of the division loop keeps the identity: the quotient gains
      val at degree deg and the remainder loses the divisor times val x^deg. */
  lemma DivisionIdentityStep(n: Terms, q: Terms, b: Terms, r: Terms, q': Terms, r': Terms, deg: nat, val: real)
    requires DivisionIdentity(n, q, b, r)
    requires forall k: nat :: Coeff(q', k) == Coeff(q, k) + (if k == deg then val else 0.0)
    requires forall k: nat :: Coeff(r', k) == Coeff(r, k) + ShiftedCoeff(b, deg, -val, k)
    ensures DivisionIdentity(n, q', b, r')
  {
    forall k: nat
      ensures Coeff(n, k) == ConvCoeff(q', b, k) + Coeff(r', k)
    {
      ConvBump(q, q', b, deg, val, k);
      if k >= deg {
        MulNegate(val, Coeff(b, k - deg));
      }
    }
  }

  /** The step on the stores the loop builds: the identity is kept and the
      remainder's degree drops. */
  lemma DivisionStepTerms(n: Terms, q: Terms, b: Terms, r: Terms, q': Terms, r': Terms, deg: nat, val: real)
    requires DivisionIdentity(n, q, b, r)
    requires 1 <= Deg(b) <= Deg(r) && deg == Deg(r) - Deg(b)
    requires Coeff(b, Deg(b)) != 0.0 && val == Coeff(r, Deg(r)) / Coeff(b, Deg(b))
    requires q' == Accumulate(Padded(q), deg, val)
    requires r' == SumTerms(r, ShiftScaleTerms(b, deg, -val))
    ensures DivisionIdentity(n, q', b, r')
    ensures Deg(r') < Deg(r)
  {
    DivisionIdentityStep(n, q, b, r, q', r', deg, val);
    LeadCancels(r, b, r', Deg(r), Deg(b), val);
  }

  /** The step cancels the remainder's leading term, so its degree drops. */
  lemma LeadCancels(r: Terms, b: Terms, r': Terms, degr: int, degd: int, val: real)
    requires Sparse(r') && 0 in r'
    requires degr == Deg(r) && degd == Deg(b) && 1 <= degd <= degr
    requires Coeff(b, degd) != 0.0 && val == Coeff(r, degr) / Coeff(b, degd)
    requires forall k: nat :: Coeff(r', k) == Coeff(r, k) + ShiftedCoeff(b, degr - degd, -val, k)
    ensures Deg(r') < degr
  {
    var deg := degr - degd;
    forall k: nat | k >= degr
      ensures k !in r'
    {
      if k > degr {
        CoeffAboveDeg(r, k);
        CoeffAboveDeg(b, k - deg);
        MulZero(-val, Coeff(b, k - deg));
      } else {
        assert k - deg == degd;
        assert Mul(-val, Coeff(b, degd)) == -Coeff(r, degr);
      }
    }
  }

  /** With a constant divisor the loop guard never fails: every sum the loop
      builds keeps degree 0 stored, so its degree never drops below 0. */
  lemma ConstantDivisorKeepsLooping(b: Terms, r: Terms, deg: nat, val: real)
    requires Deg(b) <= 0
    ensures Deg(b) <= Deg(SumTerms(r, ShiftScaleTerms(b, deg, val)))
  {
    var r' := SumTerms(r, ShiftScaleTerms(b, deg, val));
    assert 0 in r';
  }

  /** The value of a division: numer(x) = quotient(x) b(x) + remainder(x), so
      the quotient's value plus the remainder's over b's is numer(x) / b(x). */
  lemma RationalValue(n: Terms, q: Terms, b: Terms, r: Terms, x: real)
    requires DivisionIdentity(n, q, b, r)
    ensures Eval(b, x) != 0.0 ==> Eval(q, x) + Div(Eval(r, x), Eval(b, x)) == Eval(n, x) / Eval(b, x)
  {
    EvalDivision(n, q, b, r, x);
    if Eval(b, x) != 0.0 {
      DivSum(Eval(q, x), Eval(r, x), Eval(b, x), Eval(n, x));
    }
  }

  /** The difference of two quotients times the divisor is the difference
      of the remainders, the other way round. */
  lemma QuotientDifference(n: Terms, b: Terms, q1: Terms, r1: Terms, q2: Terms, r2: Terms)
    requires DivisionIdentity(n, q1, b, r1) && DivisionIdentity(n, q2, b, r2)
    ensures forall k: nat :: ConvCoeff(DifferenceTerms(q1, q2), b, k) == Coeff(r2, k) - Coeff(r1, k)
  {
    var dq := DifferenceTerms(q1, q2);
    forall k: nat
      ensures ConvCoeff(dq, b, k) == Coeff(r2, k) - Coeff(r1, k)
    {
      ConvSumDifference(q1, q2, dq, b, k, k + 1);
    }
  }

  /** A product that vanishes from the divisor's degree up, with the
      divisor's leading coefficient non-zero, has a zero first factor. */
  lemma ZeroFactor(a: Terms, b: Terms)
    requires Sparse(a) && 0 in a
    requires Deg(b) >= 0 && Coeff(b, Deg(b)) != 0.0
    requires forall k: nat :: k >= Deg(b) ==> ConvCoeff(a, b, k) == 0.0
    ensures forall k: nat :: Coeff(a, k) == 0.0
  {
    var m := Deg(a);
    NormalDegree(a);
    if m > 0 {
      LeadingNonZero(a);
    }
    if Coeff(a, m) != 0.0 {
      ConvLead(a, b, m, Deg(b));
      assert false;
    }
    forall k: nat
      ensures Coeff(a, k) == 0.0
    {
      if k > m {
        CoeffAboveDeg(a, k);
      }
    }
  }

  /** Long division has one answer: two quotient/remainder pairs for the same
      numerator and divisor, both remainders below the divisor's degree, have
      the same coefficients. */
  lemma DivisionUnique(n: Terms, b: Terms, q1: Terms, r1: Terms, q2: Terms, r2: Terms)
    requires Deg(b) >= 0 && Coeff(b, Deg(b)) != 0.0
    requires Deg(r1) < Deg(b) && Deg(r2) < Deg(b)
    requires DivisionIdentity(n, q1, b, r1) && DivisionIdentity(n, q2, b, r2)
    ensures forall k: nat :: Coeff(q1, k) == Coeff(q2, k)
    ensures forall k: nat :: Coeff(r1, k) == Coeff(r2, k)
  {
    var dq := DifferenceTerms(q1, q2);
    QuotientDifference(n, b, q1, r1, q2, r2);
    forall k: nat | k >= Deg(b)
      ensures ConvCoeff(dq, b, k) == 0.0
    {
      CoeffAboveDeg(r1, k);
      CoeffAboveDeg(r2, k);
    }
    ZeroFactor(dq, b);
    forall k: nat
      ensures Coeff(r1, k) == Coeff(r2, k)
    {
      ConvSumZero(dq, b, k, k + 1);
    }
  }

  /** Dividing a polynomial by itself leaves quotient 1 and remainder 0. */
  lemma DivideBySelf(b: Terms, q: Terms, r: Terms)
    requires Deg(b) >= 0 && Coeff(b, Deg(b)) != 0.0
    requires Deg(r) < Deg(b) && DivisionIdentity(b, q, b, r)
    ensures forall k: nat :: Coeff(q, k) == if k == 0 then 1.0 else 0.0
    ensures forall k: nat :: Coeff(r, k) == 0.0
  {
    var one, zero: Terms := map[0 := 1.0], map[];
    forall k: nat
      ensures Coeff(b, k) == ConvCoeff(one, b, k) + Coeff(zero, k)
    {
      ConvSumUnit(one, b, k, k + 1);
    }
    DivisionUnique(b, b, q, r, one, zero);
  }

  /** A numerator of smaller degree than the divisor is all remainder. */
  lemma SmallNumerator(n: Terms, b: Terms, q: Terms, r: Terms)
    requires Deg(b) >= 0 && Coeff(b, Deg(b)) != 0.0
    requires Deg(n) < Deg(b) && Deg(r) < Deg(b) && DivisionIdentity(n, q, b, r)
    ensures forall k: nat :: Coeff(q, k) == 0.0
    ensures forall k: nat :: Coeff(r, k) == Coeff(n, k)
  {
    var zero: Terms := map[];
    forall k: nat
      ensures Coeff(n, k) == ConvCoeff(zero, b, k) + Coeff(n, k)
    {
      ConvSumZero(zero, b, k, k + 1);
    }
    DivisionUnique(n, b, q, r, zero, n);
  }
}
