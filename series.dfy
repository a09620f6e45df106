/** Reference definitions for what a term store denotes: its value at a point
    (a power sum, and the Horner form the evaluator follows), and the
    coefficients of a product (a convolution sum). */
module Series {
  import opened Numerics
  import opened Terms

  /** c_0 + c_1 x + ... + c_(n-1) x^(n-1). */
  function PowerSum(m: Terms, x: real, n: nat): real
  {
    if n == 0 then 0.0 else PowerSum(m, x, n - 1) + Mul(Coeff(m, n - 1), Pow(x, n - 1))
  }

  /** The value of the polynomial at x: the sum of c_d x^d over its degrees. */
  function Eval(m: Terms, x: real): real
  {
    PowerSum(m, x, Deg(m) + 1)
  }

  /** Horner's form from degree e upward: c_e + x (c_(e+1) + x (...)). */
  function HornerFrom(m: Terms, x: real, e: nat): real
    decreases Deg(m) + 1 - e
  {
    if e > Deg(m) then 0.0 else Coeff(m, e) + Mul(x, HornerFrom(m, x, e + 1))
  }

  /** Terms whose coefficients are all zero from degree n on add nothing. */
  lemma {:induction false} PowerSumStable(m: Terms, x: real, n: nat, n': nat)
    requires n <= n'
    requires forall k: nat :: n <= k ==> Coeff(m, k) == 0.0
    ensures PowerSum(m, x, n') == PowerSum(m, x, n)
  {
    if n' > n {
      PowerSumStable(m, x, n, n' - 1);
      MulZero(Coeff(m, n' - 1), Pow(x, n' - 1));
    }
  }

  lemma PowerSumBeyond(m: Terms, x: real, n: nat)
    requires n >= Deg(m) + 1
    ensures PowerSum(m, x, n) == Eval(m, x)
  {
    PowerSumStable(m, x, Deg(m) + 1, n);
  }

  /** Two stores with the same coefficients have the same value. */
  lemma {:induction false} PowerSumCongruent(m1: Terms, m2: Terms, x: real, n: nat)
    requires forall k: nat :: Coeff(m1, k) == Coeff(m2, k)
    ensures PowerSum(m1, x, n) == PowerSum(m2, x, n)
  {
    if n > 0 {
      PowerSumCongruent(m1, m2, x, n - 1);
      assert Coeff(m1, n - 1) == Coeff(m2, n - 1);
    }
  }

  lemma EvalCongruent(m1: Terms, m2: Terms, x: real)
    requires forall k: nat :: Coeff(m1, k) == Coeff(m2, k)
    ensures Eval(m1, x) == Eval(m2, x)
  {
    var n := if Deg(m1) < Deg(m2) then Deg(m2) + 1 else Deg(m1) + 1;
    PowerSumBeyond(m1, x, n);
    PowerSumBeyond(m2, x, n);
    PowerSumCongruent(m1, m2, x, n);
  }

  /** Adding coefficients degree by degree adds the values. */
  lemma {:induction false} PowerSumAdditive(m1: Terms, m2: Terms, m3: Terms, x: real, n: nat)
    requires forall k: nat :: Coeff(m3, k) == Coeff(m1, k) + Coeff(m2, k)
    ensures PowerSum(m3, x, n) == PowerSum(m1, x, n) + PowerSum(m2, x, n)
  {
    if n > 0 {
      PowerSumAdditive(m1, m2, m3, x, n - 1);
      MulDistRight(Coeff(m3, n - 1), Coeff(m1, n - 1), Coeff(m2, n - 1), Pow(x, n - 1));
    }
  }

  lemma EvalAdditive(m1: Terms, m2: Terms, m3: Terms, x: real)
    requires forall k: nat :: Coeff(m3, k) == Coeff(m1, k) + Coeff(m2, k)
    ensures Eval(m3, x) == Eval(m1, x) + Eval(m2, x)
  {
    var n1, n2, n3 := Deg(m1) + 1, Deg(m2) + 1, Deg(m3) + 1;
    var n := if n1 < n2 then n2 else n1;
    n := if n < n3 then n3 else n;
    PowerSumBeyond(m1, x, n);
    PowerSumBeyond(m2, x, n);
    PowerSumBeyond(m3, x, n);
    PowerSumAdditive(m1, m2, m3, x, n);
  }

  /** Raising the coefficient at degree d by v raises the value by v x^d. */
  lemma {:induction false} PowerSumBump(m1: Terms, m2: Terms, x: real, d: nat, v: real, n: nat)
    requires forall k: nat :: Coeff(m2, k) == Coeff(m1, k) + (if k == d then v else 0.0)
    ensures PowerSum(m2, x, n) == PowerSum(m1, x, n) + (if d < n then Mul(v, Pow(x, d)) else 0.0)
  {
    if n > 0 {
      PowerSumBump(m1, m2, x, d, v, n - 1);
      if n - 1 == d {
        MulDistRight(Coeff(m2, d), Coeff(m1, d), v, Pow(x, d));
      } else {
        assert Coeff(m2, n - 1) == Coeff(m1, n - 1);
      }
    }
  }

  lemma EvalBump(m1: Terms, m2: Terms, x: real, d: nat, v: real)
    requires forall k: nat :: Coeff(m2, k) == Coeff(m1, k) + (if k == d then v else 0.0)
    ensures Eval(m2, x) == Eval(m1, x) + Mul(v, Pow(x, d))
  {
    var n := if Deg(m1) < Deg(m2) then Deg(m2) + 1 else Deg(m1) + 1;
    n := if n <= d then d + 1 else n;
    PowerSumBeyond(m1, x, n);
    PowerSumBeyond(m2, x, n);
    PowerSumBump(m1, m2, x, d, v, n);
  }

  lemma {:induction false} PowerSumZeroPrefix(m: Terms, x: real, n: nat)
    requires forall k: nat :: k < n ==> Coeff(m, k) == 0.0
    ensures PowerSum(m, x, n) == 0.0
  {
    if n > 0 {
      PowerSumZeroPrefix(m, x, n - 1);
      MulZero(Coeff(m, n - 1), Pow(x, n - 1));
    }
  }

  /** Scaling every coefficient by v scales the value by v. */
  lemma {:induction false} PowerSumScale(m: Terms, r: Terms, x: real, v: real, n: nat)
    requires forall k: nat :: Coeff(r, k) == Mul(v, Coeff(m, k))
    ensures PowerSum(r, x, n) == Mul(v, PowerSum(m, x, n))
  {
    if n > 0 {
      PowerSumScale(m, r, x, v, n - 1);
      MulAssoc(v, Coeff(m, n - 1), Pow(x, n - 1));
      MulDist(v, PowerSum(m, x, n), PowerSum(m, x, n - 1), Mul(Coeff(m, n - 1), Pow(x, n - 1)));
    }
  }

  lemma EvalScale(m: Terms, r: Terms, x: real, v: real)
    requires forall k: nat :: Coeff(r, k) == Mul(v, Coeff(m, k))
    ensures Eval(r, x) == Mul(v, Eval(m, x))
  {
    var n := if Deg(m) < Deg(r) then Deg(r) + 1 else Deg(m) + 1;
    PowerSumScale(m, r, x, v, n);
    PowerSumBeyond(m, x, n);
    PowerSumBeyond(r, x, n);
  }

  /** Moving every coefficient s degrees up multiplies the value by x^s. */
  lemma {:induction false} PowerSumShift(m: Terms, r: Terms, x: real, s: nat, n: nat)
    requires forall k: nat :: Coeff(r, k) == if k >= s then Coeff(m, k - s) else 0.0
    ensures PowerSum(r, x, n + s) == Mul(Pow(x, s), PowerSum(m, x, n))
  {
    if n == 0 {
      PowerSumZeroPrefix(r, x, s);
      MulZero(Pow(x, s), 0.0);
    } else {
      var c, pn, ps := Coeff(m, n - 1), Pow(x, n - 1), Pow(x, s);
      PowerSumShift(m, r, x, s, n - 1);
      assert n + s - 1 == (n - 1) + s;
      assert Coeff(r, n - 1 + s) == c;
      PowAdd(x, n - 1, s);
      ShiftTerm(c, pn, ps);
      MulDist(ps, PowerSum(m, x, n), PowerSum(m, x, n - 1), Mul(c, pn));
    }
  }

  lemma ShiftTerm(c: real, pn: real, ps: real)
    ensures Mul(c, Mul(pn, ps)) == Mul(ps, Mul(c, pn))
  {
  }

  lemma EvalShiftOnly(m: Terms, r: Terms, x: real, s: nat)
    requires forall k: nat :: Coeff(r, k) == if k >= s then Coeff(m, k - s) else 0.0
    ensures Eval(r, x) == Mul(Pow(x, s), Eval(m, x))
  {
    var n := if Deg(m) + 1 + s < Deg(r) + 1 then Deg(r) + 1 - s else Deg(m) + 1;
    PowerSumShift(m, r, x, s, n);
    PowerSumBeyond(m, x, n);
    PowerSumBeyond(r, x, n + s);
  }

  /** Multiplying by the monomial v x^s multiplies the value by v x^s. */
  lemma EvalShift(m: Terms, r: Terms, x: real, s: nat, v: real)
    requires forall k: nat :: Coeff(r, k) == if k >= s then Mul(v, Coeff(m, k - s)) else 0.0
    ensures Eval(r, x) == Mul(Pow(x, s), Mul(v, Eval(m, x)))
  {
    var scaled := ScaleTerms(m, v);
    assert forall k: nat :: Coeff(r, k) == if k >= s then Coeff(scaled, k - s) else 0.0;
    EvalShiftOnly(scaled, r, x, s);
    EvalScale(m, scaled, x, v);
  }

  /** Across a run of unstored degrees, Horner's form jumps by a whole power
      of x: this is what lets the evaluator skip the gaps of a sparse store. */
  lemma {:induction false} HornerGap(m: Terms, x: real, d: nat, e: nat)
    requires d < e
    requires forall j :: d < j < e ==> j !in m
    ensures HornerFrom(m, x, d) == Coeff(m, d) + Mul(Pow(x, e - d), HornerFrom(m, x, e))
    decreases e - d
  {
    if d > Deg(m) {
      CoeffAboveDeg(m, d);
      HornerAboveDeg(m, x, e);
      MulZero(Pow(x, e - d), HornerFrom(m, x, e));
    } else if e == d + 1 {
      assert Pow(x, 1) == Mul(x, 1.0);
    } else {
      HornerGap(m, x, d + 1, e);
      assert Coeff(m, d + 1) == 0.0;
      assert e - d - 1 == e - (d + 1);
      MulAssoc(x, Pow(x, e - (d + 1)), HornerFrom(m, x, e));
    }
  }

  lemma HornerAboveDeg(m: Terms, x: real, e: nat)
    requires e > Deg(m)
    ensures HornerFrom(m, x, e) == 0.0
  {
  }

  /** Horner's form from degree n, scaled by x^n, completes the power sum. */
  lemma {:induction false} HornerCompletes(m: Terms, x: real, n: nat)
    requires n <= Deg(m) + 1
    ensures PowerSum(m, x, n) + Mul(Pow(x, n), HornerFrom(m, x, n)) == Eval(m, x)
    decreases Deg(m) + 1 - n
  {
    if n < Deg(m) + 1 {
      HornerCompletes(m, x, n + 1);
      var c, p, h := Coeff(m, n), Pow(x, n), HornerFrom(m, x, n + 1);
      MulDist(p, HornerFrom(m, x, n), c, Mul(x, h));
      MulComm(p, x);
      MulAssoc(x, p, h);
      MulAssoc(p, x, h);
      MulComm(p, c);
    } else {
      HornerAboveDeg(m, x, n);
      MulZero(Pow(x, n), HornerFrom(m, x, n));
    }
  }

  /** Horner's form from degree 0 is the value of the polynomial. */
  lemma HornerIsEval(m: Terms, x: real)
    ensures HornerFrom(m, x, 0) == Eval(m, x)
  {
    HornerCompletes(m, x, 0);
  }

  /** sum over i < n with i <= k of a_i b_(k-i). */
  function ConvSum(a: Terms, b: Terms, k: nat, n: nat): real
  {
    if n == 0 then 0.0
    else ConvSum(a, b, k, n - 1) + (if n - 1 <= k then Mul(Coeff(a, n - 1), Coeff(b, k - (n - 1))) else 0.0)
  }

  /** The coefficient at degree k of the product of a and b: the sum of
      a_i b_j over all i + j = k. */
  function ConvCoeff(a: Terms, b: Terms, k: nat): real
  {
    ConvSum(a, b, k, k + 1)
  }

  lemma {:induction false} ConvSumStable(a: Terms, b: Terms, k: nat, n: nat, n': nat)
    requires n <= n'
    requires n > k || forall i: nat :: n <= i ==> Coeff(a, i) == 0.0
    ensures ConvSum(a, b, k, n') == ConvSum(a, b, k, n)
  {
    if n' > n {
      ConvSumStable(a, b, k, n, n' - 1);
      if n' - 1 <= k {
        MulZero(Coeff(a, n' - 1), Coeff(b, k - (n' - 1)));
      }
    }
  }

  /** Once past every stored degree of a (or past k), the partial sum is complete. */
  lemma ConvSumComplete(a: Terms, b: Terms, k: nat, n: nat)
    requires n > k || n > Deg(a)
    ensures ConvSum(a, b, k, n) == ConvCoeff(a, b, k)
  {
    if n <= k {
      ConvSumStable(a, b, k, n, k + 1);
    } else {
      ConvSumStable(a, b, k, k + 1, n);
    }
  }

  /** Raising a_e by v raises every product coefficient k >= e by v b_(k-e). */
  lemma {:induction false} ConvSumBump(a1: Terms, a2: Terms, b: Terms, e: nat, v: real, k: nat, n: nat)
    requires forall i: nat :: Coeff(a2, i) == Coeff(a1, i) + (if i == e then v else 0.0)
    ensures ConvSum(a2, b, k, n)
            == ConvSum(a1, b, k, n) + (if e < n && e <= k then Mul(v, Coeff(b, k - e)) else 0.0)
  {
    if n > 0 {
      ConvSumBump(a1, a2, b, e, v, k, n - 1);
      if n - 1 == e && e <= k {
        MulDistRight(Coeff(a2, e), Coeff(a1, e), v, Coeff(b, k - e));
      } else if n - 1 != e {
        assert Coeff(a2, n - 1) == Coeff(a1, n - 1);
      }
    }
  }

  lemma ConvBump(a1: Terms, a2: Terms, b: Terms, e: nat, v: real, k: nat)
    requires forall i: nat :: Coeff(a2, i) == Coeff(a1, i) + (if i == e then v else 0.0)
    ensures ConvCoeff(a2, b, k) == ConvCoeff(a1, b, k) + (if e <= k then Mul(v, Coeff(b, k - e)) else 0.0)
  {
    ConvSumBump(a1, a2, b, e, v, k, k + 1);
  }

  /** Raising b_e by v raises every product coefficient k >= e by a_(k-e) v. */
  lemma {:induction false} ConvSumBumpRight(a: Terms, b1: Terms, b2: Terms, e: nat, v: real, k: nat, n: nat)
    requires forall j: nat :: Coeff(b2, j) == Coeff(b1, j) + (if j == e then v else 0.0)
    ensures ConvSum(a, b2, k, n)
            == ConvSum(a, b1, k, n) + (if e <= k && k - e < n then Mul(Coeff(a, k - e), v) else 0.0)
  {
    if n > 0 {
      ConvSumBumpRight(a, b1, b2, e, v, k, n - 1);
      if n - 1 <= k {
        if k - (n - 1) == e {
          MulDist(Coeff(a, n - 1), Coeff(b2, e), Coeff(b1, e), v);
        } else {
          assert Coeff(b2, k - (n - 1)) == Coeff(b1, k - (n - 1));
        }
      }
    }
  }

  lemma ConvBumpRight(a: Terms, b1: Terms, b2: Terms, e: nat, v: real, k: nat)
    requires forall j: nat :: Coeff(b2, j) == Coeff(b1, j) + (if j == e then v else 0.0)
    ensures ConvCoeff(a, b2, k) == ConvCoeff(a, b1, k) + (if e <= k then Mul(Coeff(a, k - e), v) else 0.0)
  {
    ConvSumBumpRight(a, b1, b2, e, v, k, k + 1);
  }

  /** Second factors with the same coefficients give the same products. */
  lemma {:induction false} ConvSumCongruentRight(a: Terms, b1: Terms, b2: Terms, k: nat, n: nat)
    requires forall j: nat :: Coeff(b1, j) == Coeff(b2, j)
    ensures ConvSum(a, b1, k, n) == ConvSum(a, b2, k, n)
  {
    if n > 0 {
      ConvSumCongruentRight(a, b1, b2, k, n - 1);
      if n - 1 <= k {
        assert Coeff(b1, k - (n - 1)) == Coeff(b2, k - (n - 1));
      }
    }
  }

  /** Stores with the same coefficients have the same products. */
  lemma {:induction false} ConvSumCongruent(a1: Terms, a2: Terms, b: Terms, k: nat, n: nat)
    requires forall i: nat :: Coeff(a1, i) == Coeff(a2, i)
    ensures ConvSum(a1, b, k, n) == ConvSum(a2, b, k, n)
  {
    if n > 0 {
      ConvSumCongruent(a1, a2, b, k, n - 1);
      assert Coeff(a1, n - 1) == Coeff(a2, n - 1);
    }
  }

  /** The product is linear in its first factor: differences of factors give
      differences of products. */
  lemma {:induction false} ConvSumDifference(a1: Terms, a2: Terms, a3: Terms, b: Terms, k: nat, n: nat)
    requires forall i: nat :: Coeff(a3, i) == Coeff(a1, i) - Coeff(a2, i)
    ensures ConvSum(a3, b, k, n) == ConvSum(a1, b, k, n) - ConvSum(a2, b, k, n)
  {
    if n > 0 {
      ConvSumDifference(a1, a2, a3, b, k, n - 1);
      if n - 1 <= k {
        MulDistRight(Coeff(a1, n - 1), Coeff(a3, n - 1), Coeff(a2, n - 1), Coeff(b, k - (n - 1)));
      }
    }
  }

  /** A factor with no non-zero coefficient gives a zero product. */
  lemma {:induction false} ConvSumZero(a: Terms, b: Terms, k: nat, n: nat)
    requires forall i: nat :: Coeff(a, i) == 0.0
    ensures ConvSum(a, b, k, n) == 0.0
  {
    if n > 0 {
      ConvSumZero(a, b, k, n - 1);
      if n - 1 <= k {
        MulZero(Coeff(a, n - 1), Coeff(b, k - (n - 1)));
      }
    }
  }

  /** A second factor with no non-zero coefficient gives a zero product. */
  lemma {:induction false} ConvSumZeroRight(a: Terms, b: Terms, k: nat, n: nat)
    requires forall j: nat :: Coeff(b, j) == 0.0
    ensures ConvSum(a, b, k, n) == 0.0
  {
    if n > 0 {
      ConvSumZeroRight(a, b, k, n - 1);
      if n - 1 <= k {
        MulZero(Coeff(a, n - 1), Coeff(b, k - (n - 1)));
      }
    }
  }

  /** Multiplying by the constant 1 changes no coefficient. */
  lemma {:induction false} ConvSumUnit(a: Terms, b: Terms, k: nat, n: nat)
    requires n > 0
    requires forall i: nat :: Coeff(a, i) == if i == 0 then 1.0 else 0.0
    ensures ConvSum(a, b, k, n) == Coeff(b, k)
  {
    if n > 1 {
      ConvSumUnit(a, b, k, n - 1);
      if n - 1 <= k {
        MulZero(Coeff(a, n - 1), Coeff(b, k - (n - 1)));
      }
    } else {
      assert Mul(Coeff(a, 0), Coeff(b, k)) == Mul(1.0, Coeff(b, k));
    }
  }

  /** Below the leading degree m of a, the partial sums for degree m + s vanish
      when b has nothing above degree s. */
  lemma {:induction false} ConvSumBelowLead(a: Terms, b: Terms, m: nat, s: nat, n: nat)
    requires n <= m
    requires forall j: nat :: j > s ==> Coeff(b, j) == 0.0
    ensures ConvSum(a, b, m + s, n) == 0.0
  {
    if n > 0 {
      ConvSumBelowLead(a, b, m, s, n - 1);
      assert Coeff(b, m + s - (n - 1)) == 0.0;
      MulZero(Coeff(a, n - 1), Coeff(b, m + s - (n - 1)));
    }
  }

  /** The product's coefficient at m + s is a_m b_s when a has nothing above
      degree m and b nothing above degree s. */
  lemma ConvLead(a: Terms, b: Terms, m: nat, s: nat)
    requires forall i: nat :: i > m ==> Coeff(a, i) == 0.0
    requires forall j: nat :: j > s ==> Coeff(b, j) == 0.0
    ensures ConvCoeff(a, b, m + s) == Mul(Coeff(a, m), Coeff(b, s))
  {
    ConvSumBelowLead(a, b, m, s, m);
    ConvSumStable(a, b, m + s, m + 1, m + s + 1);
  }
}
