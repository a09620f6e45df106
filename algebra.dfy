/** The results of the polynomial operations, as normalised term stores. Each
    store is what the corresponding method of Polynomial leaves in its fresh
    result: it starts from a store holding 0.0 at degree 0 and writes every
    coefficient through the normalising writer, so degree 0 is always stored
    and no other stored coefficient is zero. */
module Algebra {
  import opened Numerics
  import opened Terms
  import opened Series

  /** What copy() leaves: the same coefficients, with degree 0 stored. */
  function Padded(a: Terms): (r: Terms)
    ensures Sparse(a) ==> Sparse(r)
    ensures 0 in r
    ensures forall k: nat :: Coeff(r, k) == Coeff(a, k)
  {
    if 0 in a then a else a[0 := 0.0]
  }

  /** Storing degree 0 does not change a non-empty store's degree. */
  lemma PaddedDegree(a: Terms)
    requires a != map[]
    ensures Deg(Padded(a)) == Deg(a)
  {
    var p := Padded(a);
    assert Deg(a) in p;
    assert Deg(p) == 0 || Deg(p) in a;
  }

  /** Degree-wise sum, as plus(Polynomial) leaves it. */
  function SumTerms(a: Terms, b: Terms): (r: Terms)
    ensures Sparse(r) && 0 in r
    ensures forall k: nat :: Coeff(r, k) == Coeff(a, k) + Coeff(b, k)
  {
    map k | k in a.Keys + b.Keys + {0} && (k == 0 || Coeff(a, k) + Coeff(b, k) != 0.0) :: Coeff(a, k) + Coeff(b, k)
  }

  /** Degree-wise difference, as minus(Polynomial) leaves it. */
  function DifferenceTerms(a: Terms, b: Terms): (r: Terms)
    ensures Sparse(r) && 0 in r
    ensures forall k: nat :: Coeff(r, k) == Coeff(a, k) - Coeff(b, k)
  {
    map k | k in a.Keys + b.Keys + {0} && (k == 0 || Coeff(a, k) - Coeff(b, k) != 0.0) :: Coeff(a, k) - Coeff(b, k)
  }

  /** The coefficient at degree k of a multiplied by the monomial v x^s. */
  function ShiftedCoeff(a: Terms, s: nat, v: real, k: nat): real
  {
    if k >= s then Mul(v, Coeff(a, k - s)) else 0.0
  }

  /** a multiplied by the monomial v x^s, as times(int, double) leaves it. */
  function ShiftScaleTerms(a: Terms, s: nat, v: real): (r: Terms)
    ensures Sparse(r) && 0 in r
    ensures forall k: nat :: Coeff(r, k) == ShiftedCoeff(a, s, v, k)
  {
    var bound := Deg(a) + s + 1;
    assert bound >= 0;
    map k: nat | k <= bound && (k == 0 || ShiftedCoeff(a, s, v, k) != 0.0) :: ShiftedCoeff(a, s, v, k)
  }

  /** The product of a and b, as times(Polynomial) leaves it: at degree k the
      sum of a_i b_j over i + j = k. */
  function ProductTerms(a: Terms, b: Terms): (r: Terms)
    ensures Sparse(r) && 0 in r
    ensures forall k: nat :: Coeff(r, k) == ConvCoeff(a, b, k)
  {
    ProductBeyond(a, b);
    var bound := Deg(a) + Deg(b) + 2;
    assert bound >= 0;
    map k: nat | k <= bound && (k == 0 || ConvCoeff(a, b, k) != 0.0) :: ConvCoeff(a, b, k)
  }

  /** Every coefficient divided by v, as over(double) leaves it. */
  function DividedTerms(a: Terms, v: real): (r: Terms)
    requires v != 0.0
    ensures Sparse(r) && 0 in r
    ensures forall k: nat :: Coeff(r, k) == Coeff(a, k) / v
  {
    var p := Padded(a);
    map k | k in p && (k == 0 || p[k] / v != 0.0) :: p[k] / v
  }

  /** The single term of a at degree d, as Term(d) leaves it. */
  function TermOf(a: Terms, d: nat): (r: Terms)
    ensures Sparse(r) && 0 in r
    ensures forall k: nat :: Coeff(r, k) == if k == d then Coeff(a, d) else 0.0
  {
    Put(map[0 := 0.0], d, Coeff(a, d))
  }

  /** Past the sum of the degrees, every product coefficient is zero. */
  lemma ProductBeyond(a: Terms, b: Terms)
    ensures forall k: nat :: k > Deg(a) + Deg(b) ==> ConvCoeff(a, b, k) == 0.0
  {
    forall k: nat | k > Deg(a) + Deg(b)
      ensures ConvCoeff(a, b, k) == 0.0
    {
      ConvBeyond(a, b, k, k + 1);
    }
  }

  lemma {:induction false} ConvBeyond(a: Terms, b: Terms, k: nat, n: nat)
    requires k > Deg(a) + Deg(b)
    ensures ConvSum(a, b, k, n) == 0.0
  {
    if n > 0 {
      ConvBeyond(a, b, k, n - 1);
      if n - 1 <= k {
        if n - 1 > Deg(a) {
          CoeffAboveDeg(a, n - 1);
        } else {
          CoeffAboveDeg(b, k - (n - 1));
        }
      }
    }
  }

  /** A store with no non-zero coefficient has value 0. */
  lemma EvalZero(m: Terms, x: real)
    requires forall k: nat :: Coeff(m, k) == 0.0
    ensures Eval(m, x) == 0.0
  {
    EvalCongruent(m, map[], x);
  }

  /** Copying does not change the value. */
  lemma EvalPadded(a: Terms, x: real)
    ensures Eval(Padded(a), x) == Eval(a, x)
  {
    EvalCongruent(Padded(a), a, x);
  }

  /** Evaluation turns the sum into the sum of the values. */
  lemma EvalSum(a: Terms, b: Terms, x: real)
    ensures Eval(SumTerms(a, b), x) == Eval(a, x) + Eval(b, x)
  {
    EvalAdditive(a, b, SumTerms(a, b), x);
  }

  /** Evaluation turns the difference into the difference of the values. */
  lemma EvalDifference(a: Terms, b: Terms, x: real)
    ensures Eval(DifferenceTerms(a, b), x) == Eval(a, x) - Eval(b, x)
  {
    var d := DifferenceTerms(a, b);
    EvalAdditive(d, b, a, x);
  }

  /** Multiplying by the monomial v x^s multiplies the value by v x^s. */
  lemma EvalShiftScale(a: Terms, s: nat, v: real, x: real)
    ensures Eval(ShiftScaleTerms(a, s, v), x) == Mul(Pow(x, s), Mul(v, Eval(a, x)))
  {
    EvalShift(a, ShiftScaleTerms(a, s, v), x, s, v);
  }

  /** Scaling every coefficient by v scales the value by v. */
  lemma EvalScaled(a: Terms, v: real, x: real)
    ensures Eval(ScaleTerms(Padded(a), v), x) == Mul(v, Eval(a, x))
  {
    EvalScale(a, ScaleTerms(Padded(a), v), x, v);
  }

  /** Dividing every coefficient by v divides the value by v. */
  lemma EvalDivided(a: Terms, v: real, x: real)
    requires v != 0.0
    ensures Eval(a, x) == Mul(v, Eval(DividedTerms(a, v), x))
  {
    EvalOfDivided(a, DividedTerms(a, v), v, x);
  }

  lemma EvalOfDivided(a: Terms, r: Terms, v: real, x: real)
    requires v != 0.0
    requires forall k: nat :: Coeff(r, k) == Coeff(a, k) / v
    ensures Eval(a, x) == Mul(v, Eval(r, x))
  {
    DividedCoeffs(a, r, v);
    EvalScale(r, a, x, v);
  }

  /** Adding v to the constant coefficient adds v to the value. */
  lemma EvalPlusConstant(a: Terms, v: real, x: real)
    ensures Eval(Put(Padded(a), 0, Coeff(a, 0) + v), x) == Eval(a, x) + v
  {
    EvalBump(a, Put(Padded(a), 0, Coeff(a, 0) + v), x, 0, v);
  }

  /** The single term at degree d has the value a_d x^d. */
  lemma EvalTerm(a: Terms, d: nat, x: real)
    ensures Eval(TermOf(a, d), x) == Mul(Coeff(a, d), Pow(x, d))
  {
    EvalBump(map[], TermOf(a, d), x, d, Coeff(a, d));
  }

  /** Subtracting what was added gives the copied operand back. */
  lemma SumThenDifference(a: Terms, b: Terms)
    requires Sparse(a)
    ensures DifferenceTerms(SumTerms(a, b), b) == Padded(a)
  {
    Extensionality(DifferenceTerms(SumTerms(a, b), b), Padded(a));
  }

  /** Dividing by the factor just multiplied by gives the copied operand back. */
  lemma ScaleThenDivide(a: Terms, v: real)
    requires Sparse(a) && v != 0.0
    ensures DividedTerms(ScaleTerms(Padded(a), v), v) == Padded(a)
  {
    var r := DividedTerms(ScaleTerms(Padded(a), v), v);
    DividedCoeffs(ScaleTerms(Padded(a), v), r, v);
    CancelScale(Padded(a), ScaleTerms(Padded(a), v), r, v);
    Extensionality(r, Padded(a));
  }

  /** Each divided coefficient times v is the original coefficient. */
  lemma DividedCoeffs(a: Terms, r: Terms, v: real)
    requires v != 0.0
    requires forall k: nat :: Coeff(r, k) == Coeff(a, k) / v
    ensures forall k: nat :: Coeff(a, k) == Mul(v, Coeff(r, k))
  {
    forall k: nat
      ensures Coeff(a, k) == Mul(v, Coeff(r, k))
    {
      MulDiv(Coeff(a, k), Coeff(r, k), v);
    }
  }

  lemma MulDiv(c: real, q: real, v: real)
    requires v != 0.0 && q == c / v
    ensures c == Mul(v, q)
  {
  }

  lemma CancelScale(a: Terms, scaled: Terms, r: Terms, v: real)
    requires v != 0.0
    requires forall k: nat :: Coeff(scaled, k) == Mul(v, Coeff(a, k))
    requires forall k: nat :: Coeff(scaled, k) == Mul(v, Coeff(r, k))
    ensures forall k: nat :: Coeff(r, k) == Coeff(a, k)
  {
    forall k: nat
      ensures Coeff(r, k) == Coeff(a, k)
    {
      CancelFactor(Coeff(r, k), Coeff(a, k), v);
    }
  }

  lemma CancelFactor(q: real, c: real, v: real)
    requires v != 0.0 && Mul(v, q) == Mul(v, c)
    ensures q == c
  {
  }

  /** Subtracting the constant just added gives the copied operand back. */
  lemma PlusThenMinusConstant(a: Terms, v: real)
    requires Sparse(a)
    ensures Put(Padded(Put(Padded(a), 0, Coeff(a, 0) + v)), 0, Coeff(Put(Padded(a), 0, Coeff(a, 0) + v), 0) - v) == Padded(a)
  {
    var r := Put(Padded(Put(Padded(a), 0, Coeff(a, 0) + v)), 0, Coeff(Put(Padded(a), 0, Coeff(a, 0) + v), 0) - v);
    Extensionality(r, Padded(a));
  }

  /** p holds the product of t and b, coefficient by coefficient. */
  ghost predicate IsProduct(p: Terms, t: Terms, b: Terms)
  {
    forall k: nat :: Coeff(p, k) == ConvCoeff(t, b, k)
  }

  lemma ProductExists(t: Terms, b: Terms)
    ensures exists p :: IsProduct(p, t, b)
  {
    assert IsProduct(ProductTerms(t, b), t, b);
  }

  /** n = q * b + r, coefficient by coefficient. */
  ghost predicate DivisionIdentity(n: Terms, q: Terms, b: Terms, r: Terms)
  {
    forall k: nat :: Coeff(n, k) == ConvCoeff(q, b, k) + Coeff(r, k)
  }

  /** The identity carries over to values: n(x) = q(x) b(x) + r(x). */
  lemma EvalDivision(n: Terms, q: Terms, b: Terms, r: Terms, x: real)
    requires DivisionIdentity(n, q, b, r)
    ensures Eval(n, x) == Mul(Eval(q, x), Eval(b, x)) + Eval(r, x)
  {
    var p := ProductTerms(q, b);
    EvalProduct(q, b, x);
    assert forall k: nat :: Coeff(n, k) == Coeff(p, k) + Coeff(r, k);
    EvalAdditive(p, r, n, x);
  }

  /** Evaluation turns the product into the product of the values. */
  lemma EvalProduct(a: Terms, b: Terms, x: real)
    ensures Eval(ProductTerms(a, b), x) == Mul(Eval(a, x), Eval(b, x))
  {
    EvalOfProduct(ProductTerms(a, b), a, b, x);
  }

  /** The same for any store holding the product coefficients, by induction
      on the number of stored terms of the first factor: removing its top term
      a_d x^d removes b scaled by a_d and shifted by d from the product. */
  lemma {:induction false} EvalOfProduct(p: Terms, t: Terms, b: Terms, x: real)
    requires IsProduct(p, t, b)
    ensures Eval(p, x) == Mul(Eval(t, x), Eval(b, x))
    decreases |t|, 1
  {
    if t == map[] {
      EvalOfEmptyProduct(p, t, b, x);
    } else {
      var d: nat := Deg(t);
      var t0 := t - {d};
      ProductExists(t0, b);
      var p0 :| IsProduct(p0, t0, b);
      ShiftedExists(b, d, t[d]);
      var s :| IsShifted(s, b, d, t[d]);
      RemoveTopTerm(p, t, p0, t0, s, b, d);
      ProductStep(t0, t, p0, p, s, b, x, t[d], d);
    }
  }

  lemma EvalOfEmptyProduct(p: Terms, t: Terms, b: Terms, x: real)
    requires IsProduct(p, t, b) && t == map[]
    ensures Eval(p, x) == 0.0 && Eval(t, x) == 0.0
  {
    forall k: nat
      ensures Coeff(p, k) == 0.0
    {
      ConvSumZero(t, b, k, k + 1);
    }
    EvalZero(p, x);
    EvalZero(t, x);
  }

  /** Removing the top term a_d x^d of the first factor removes b scaled by
      a_d and shifted by d from the product, coefficient by coefficient. */
  lemma RemoveTopTerm(p: Terms, t: Terms, p0: Terms, t0: Terms, s: Terms, b: Terms, d: nat)
    requires d in t && t0 == t - {d}
    requires IsProduct(p, t, b) && IsProduct(p0, t0, b) && IsShifted(s, b, d, t[d])
    ensures forall k: nat :: Coeff(t, k) == Coeff(t0, k) + (if k == d then t[d] else 0.0)
    ensures forall k: nat :: Coeff(p, k) == Coeff(p0, k) + Coeff(s, k)
  {
    forall k: nat
      ensures Coeff(p, k) == Coeff(p0, k) + Coeff(s, k)
    {
      ConvBump(t0, t, b, d, t[d], k);
    }
  }

  /** s holds b multiplied by the monomial c x^d. */
  ghost predicate IsShifted(s: Terms, b: Terms, d: nat, c: real)
  {
    forall k: nat :: Coeff(s, k) == ShiftedCoeff(b, d, c, k)
  }

  lemma ShiftedExists(b: Terms, d: nat, c: real)
    ensures exists s :: IsShifted(s, b, d, c)
  {
    assert IsShifted(ShiftScaleTerms(b, d, c), b, d, c);
  }

  /** One step of EvalOfProduct, on stores related coefficient by coefficient. */
  lemma {:induction false} ProductStep(t0: Terms, t: Terms, p0: Terms, p: Terms, s: Terms, b: Terms,
                                       x: real, c: real, d: nat)
    requires |t0| < |t|
    requires IsProduct(p0, t0, b) && IsShifted(s, b, d, c)
    requires forall k: nat :: Coeff(t, k) == Coeff(t0, k) + (if k == d then c else 0.0)
    requires forall k: nat :: Coeff(p, k) == Coeff(p0, k) + Coeff(s, k)
    ensures Eval(p, x) == Mul(Eval(t, x), Eval(b, x))
    decreases |t|, 0
  {
    EvalOfProduct(p0, t0, b, x);
    EvalBump(t0, t, x, d, c);
    EvalAdditive(p0, s, p, x);
    EvalShift(b, s, x, d, c);
    var pw, eb := Pow(x, d), Eval(b, x);
    MulDistRight(Eval(t, x), Eval(t0, x), Mul(c, pw), eb);
    MulAssoc(c, pw, eb);
    MulAssoc(pw, c, eb);
    MulComm(pw, c);
  }
}
