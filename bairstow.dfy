/** One pass of Bairstow's method as findHigher runs it, over exact reals:
    the synthetic division of the coefficients by x^2 + u x + v, the two
    remainders, the Newton correction of u and v, and what an exact stop
    means for the deflated quotient. Coefficient sequences hold the
    coefficient of degree k at index k, as Coefficients() returns them. */
module Bairstow {
  import opened Numerics
  import opened Terms
  import opened Series
  import opened Algebra

  /** x^2 + u x + v, the divisor new Polynomial(1, u, v) builds. */
  function QuadTerms(u: real, v: real): Terms
  {
    Dense([v, u, 1.0])
  }

  /** The divisor has degree 2 and leading coefficient 1. */
  lemma QuadTermsShape(u: real, v: real)
    ensures var q := QuadTerms(u, v);
      Deg(q) == 2 && Coeff(q, 2) == 1.0 && Coeff(q, 1) == u && Coeff(q, 0) == v
  {
    var q, e := QuadTerms(u, v), Deg(QuadTerms(u, v));
    assert 2 in q;
    assert e == 0 || q[e] != 0.0;
    assert Coeff(q, e) == if e < 3 then [v, u, 1.0][e] else 0.0;
  }

  /** bs is what the inner loop of findHigher leaves when it divides a by
      x^2 + u x + v: the top two cells keep their initial 0, and every other
      cell is bs[j] = a[j + 2] - u bs[j + 1] - v bs[j + 2]. The same relation
      ties fArr to bArr. */
  ghost predicate SyntheticQuotient(a: seq<real>, bs: seq<real>, u: real, v: real)
  {
    && |a| == |bs| >= 3
    && bs[|bs| - 1] == 0.0 && bs[|bs| - 2] == 0.0
    && forall k {:trigger a[k]} :: 2 <= k < |bs| ==> bs[k - 2] == a[k] - Mul(u, bs[k - 1]) - Mul(v, bs[k])
  }

  /** The relation of SyntheticQuotient from index lo up, as the inner loop
      of findHigher has it after filling the cells lo and above. */
  ghost predicate QuotientFrom(a: seq<real>, bs: seq<real>, u: real, v: real, lo: nat)
  {
    && |a| == |bs| >= 3
    && bs[|bs| - 1] == 0.0 && bs[|bs| - 2] == 0.0
    && forall k {:trigger a[k]} :: lo + 2 <= k < |bs| ==> bs[k - 2] == a[k] - Mul(u, bs[k - 1]) - Mul(v, bs[k])
  }

  /** Filling cell d extends the relation one cell down. */
  lemma QuotientExtend(a: seq<real>, bs: seq<real>, u: real, v: real, d: int)
    requires 0 <= d < |bs| - 2 && QuotientFrom(a, bs, u, v, d + 1)
    ensures QuotientFrom(a, bs[d := a[d + 2] - Mul(u, bs[d + 1]) - Mul(v, bs[d + 2])], u, v, d)
  {
    var bs' := bs[d := a[d + 2] - Mul(u, bs[d + 1]) - Mul(v, bs[d + 2])];
    forall k | d + 2 <= k < |bs'|
      ensures bs'[k - 2] == a[k] - Mul(u, bs'[k - 1]) - Mul(v, bs'[k])
    {
      if k > d + 2 {
        assert bs'[k - 2] == bs[k - 2] && bs'[k - 1] == bs[k - 1] && bs'[k] == bs[k];
      }
    }
  }

  /** The relation from d + 1 up does not read cell d of the dividend. */
  lemma QuotientSourceChange(a: seq<real>, bs: seq<real>, u: real, v: real, d: int, x: real)
    requires 0 <= d < |a| && QuotientFrom(a, bs, u, v, d + 1)
    ensures QuotientFrom(a[d := x], bs, u, v, d + 1)
  {
    forall k | d + 3 <= k < |bs|
      ensures bs[k - 2] == a[d := x][k] - Mul(u, bs[k - 1]) - Mul(v, bs[k])
    {
      assert a[d := x][k] == a[k];
    }
  }

  /** The relation from 0 up is SyntheticQuotient. */
  lemma QuotientFromZero(a: seq<real>, bs: seq<real>, u: real, v: real)
    requires QuotientFrom(a, bs, u, v, 0)
    ensures SyntheticQuotient(a, bs, u, v)
  {
  }

  /** The remainder at degree 1: c = a[1] - u bs[0] - v bs[1] (g for fArr). */
  function LinearRemainder(a: seq<real>, bs: seq<real>, u: real, v: real): real
    requires |a| >= 2 && |bs| >= 2
  {
    a[1] - Mul(u, bs[0]) - Mul(v, bs[1])
  }

  /** The remainder at degree 0: d = a[0] - v bs[0] (h for fArr). */
  function ConstantRemainder(a: seq<real>, bs: seq<real>, v: real): real
    requires |a| >= 1 && |bs| >= 1
  {
    a[0] - Mul(v, bs[0])
  }

  /** The remainder c x + d as a store. */
  function RemainderTerms(a: seq<real>, bs: seq<real>, u: real, v: real): Terms
    requires |a| >= 2 && |bs| >= 2
  {
    Dense([ConstantRemainder(a, bs, v), LinearRemainder(a, bs, u, v)])
  }

  /** The synthetic division is a division: a = (x^2 + u x + v) bs + (c x + d). */
  lemma FactorIdentity(a: seq<real>, bs: seq<real>, u: real, v: real)
    requires SyntheticQuotient(a, bs, u, v)
    ensures DivisionIdentity(Dense(a), QuadTerms(u, v), Dense(bs), RemainderTerms(a, bs, u, v))
  {
    forall k: nat
      ensures Coeff(Dense(a), k) == ConvCoeff(QuadTerms(u, v), Dense(bs), k) + Coeff(RemainderTerms(a, bs, u, v), k)
    {
      FactorCoeff(a, bs, u, v, k);
    }
  }

  /** The identity at one degree: x^2 + u x + v contributes
      bs[k - 2] + u bs[k - 1] + v bs[k] there. */
  lemma FactorCoeff(a: seq<real>, bs: seq<real>, u: real, v: real, k: nat)
    requires SyntheticQuotient(a, bs, u, v)
    ensures Coeff(Dense(a), k) == ConvCoeff(QuadTerms(u, v), Dense(bs), k) + Coeff(RemainderTerms(a, bs, u, v), k)
  {
    var b := Dense(bs);
    QuadConv(u, v, b, k);
    if 2 <= k < |a| {
      assert Coeff(b, k - 2) == a[k] - Mul(u, Coeff(b, k - 1)) - Mul(v, Coeff(b, k));
    } else if k >= |a| {
      assert Coeff(b, k - 2) == 0.0 && Coeff(b, k - 1) == 0.0 && Coeff(b, k) == 0.0;
    }
  }

  /** The coefficient at degree k of (x^2 + u x + v) b. */
  lemma QuadConv(u: real, v: real, b: Terms, k: nat)
    ensures ConvCoeff(QuadTerms(u, v), b, k)
      == Mul(v, Coeff(b, k)) + (if k >= 1 then Mul(u, Coeff(b, k - 1)) else 0.0) + (if k >= 2 then Coeff(b, k - 2) else 0.0)
  {
    var q := QuadTerms(u, v);
    assert Coeff(q, 0) == v && Coeff(q, 1) == u && Coeff(q, 2) == 1.0;
    assert ConvSum(q, b, k, 1) == Mul(v, Coeff(b, k));
    if k >= 1 {
      assert ConvSum(q, b, k, 2) == ConvSum(q, b, k, 1) + Mul(u, Coeff(b, k - 1));
    }
    if k >= 2 {
      assert ConvSum(q, b, k, 3) == ConvSum(q, b, k, 2) + Mul(1.0, Coeff(b, k - 2));
      ConvSumStable(q, b, k, 3, k + 1);
    }
  }

  /** The denominator h^2 - g h u + g^2 v of the correction. */
  function Denominator(g: real, h: real, u: real, v: real): real
  {
    Mul(h, h) - Mul(Mul(g, h), u) + Mul(Mul(g, g), v)
  }

  /** The numerator c h - d g of the correction of u. */
  function UNumerator(c: real, d: real, g: real, h: real): real
  {
    Mul(c, h) - Mul(d, g)
  }

  /** The numerator d h - d g u + c g v of the correction of v. */
  function VNumerator(c: real, d: real, g: real, h: real, u: real, v: real): real
  {
    Mul(d, h) - Mul(Mul(d, g), u) + Mul(Mul(c, g), v)
  }

  /** The corrections are one Newton step for the remainders: with a non-zero
      denominator they solve (g u - h) du - g dv = -c and g v du - h dv = -d,
      the Jacobian of (c, d) with respect to (u, v) applied to (du, dv). */
  lemma CorrectionIsNewtonStep(c: real, d: real, g: real, h: real, u: real, v: real)
    requires Denominator(g, h, u, v) != 0.0
    ensures var du := Div(UNumerator(c, d, g, h), Denominator(g, h, u, v));
      var dv := Div(VNumerator(c, d, g, h, u, v), Denominator(g, h, u, v));
      && (g * u - h) * du + (-g) * dv == -c
      && (g * v) * du + (-h) * dv == -d
  {
    NewtonIdentity(c, d, g, h, u, v);
    var den := Denominator(g, h, u, v);
    SolvedByDivision(g * u - h, -g, UNumerator(c, d, g, h), VNumerator(c, d, g, h, u, v), -c, den);
    SolvedByDivision(g * v, -h, UNumerator(c, d, g, h), VNumerator(c, d, g, h, u, v), -d, den);
  }

  /** The numerators solve the system scaled by the denominator. */
  lemma NewtonIdentity(c: real, d: real, g: real, h: real, u: real, v: real)
    ensures (g * u - h) * UNumerator(c, d, g, h) + (-g) * VNumerator(c, d, g, h, u, v) == -c * Denominator(g, h, u, v)
    ensures (g * v) * UNumerator(c, d, g, h) + (-h) * VNumerator(c, d, g, h, u, v) == -d * Denominator(g, h, u, v)
  {
  }

  /** Dividing both numerators by a non-zero f solves the unscaled equation. */
  lemma SolvedByDivision(p: real, q: real, x: real, y: real, r: real, f: real)
    requires f != 0.0 && p * x + q * y == r * f
    ensures p * Div(x, f) + q * Div(y, f) == r
  {
    var dx, dy := Div(x, f), Div(y, f);
    assert (p * dx + q * dy) * f == p * (dx * f) + q * (dy * f);
    assert (p * dx + q * dy - r) * f == 0.0;
  }

  /** The break of findHigher: when both corrections are exactly 0 (with a
      non-zero denominator), both remainders are 0. */
  lemma ExactWhenConverged(c: real, d: real, g: real, h: real, u: real, v: real)
    requires Denominator(g, h, u, v) != 0.0
    requires Div(UNumerator(c, d, g, h), Denominator(g, h, u, v)) == 0.0
    requires Div(VNumerator(c, d, g, h, u, v), Denominator(g, h, u, v)) == 0.0
    ensures c == 0.0 && d == 0.0
  {
    CorrectionIsNewtonStep(c, d, g, h, u, v);
  }

  /** The deflated quotient keeps the leading coefficient two degrees down:
      any sparse store holding bs has degree |a| - 3. */
  lemma DeflatedDegree(a: seq<real>, bs: seq<real>, u: real, v: real, m: Terms)
    requires SyntheticQuotient(a, bs, u, v) && a[|a| - 1] != 0.0
    requires Sparse(m) && forall k: nat :: Coeff(m, k) == Coeff(Dense(bs), k)
    ensures Deg(m) == |a| - 3
  {
    var n, e := |a|, Deg(m);
    assert bs[n - 3] == a[n - 1];
    assert Coeff(m, n - 3) == bs[n - 3];
    assert e == 0 || m[e] != 0.0;
    assert Coeff(m, e) == Coeff(Dense(bs), e);
  }

  /** With no remainder, every zero of the divisor or of the quotient is a
      zero of the dividend. */
  lemma ExactFactorZeros(n: Terms, q: Terms, b: Terms, x: real)
    requires DivisionIdentity(n, q, b, map[])
    ensures Eval(q, x) == 0.0 ==> Eval(n, x) == 0.0
    ensures Eval(b, x) == 0.0 ==> Eval(n, x) == 0.0
  {
    EvalDivision(n, q, b, map[], x);
    EvalZero(map[], x);
  }

  /** A division whose remainder vanishes leaves no remainder. */
  lemma ZeroRemainder(n: Terms, q: Terms, b: Terms, r: Terms)
    requires DivisionIdentity(n, q, b, r) && forall k: nat :: Coeff(r, k) == 0.0
    ensures DivisionIdentity(n, q, b, map[])
  {
  }

  /** The identity depends only on the coefficients of the dividend and the
      quotient. */
  lemma DivisionCongruent(n: Terms, n': Terms, q: Terms, b: Terms, b': Terms, r: Terms)
    requires DivisionIdentity(n, q, b, r)
    requires forall k: nat :: Coeff(n, k) == Coeff(n', k)
    requires forall k: nat :: Coeff(b, k) == Coeff(b', k)
    ensures DivisionIdentity(n', q, b', r)
  {
    forall k: nat
      ensures Coeff(n', k) == ConvCoeff(q, b', k) + Coeff(r, k)
    {
      ConvSumCongruentRight(q, b, b', k, k + 1);
    }
  }

  /** Cell k of the synthetic quotient of a by x^2 + u x + v, filled from
      the top down as the inner loop of findHigher fills bArr: the top two
      cells are 0. */
  ghost function QuotientCell(a: seq<real>, u: real, v: real, k: nat): real
    decreases |a| - k
  {
    if k + 2 >= |a| then 0.0
    else a[k + 2] - Mul(u, QuotientCell(a, u, v, k + 1)) - Mul(v, QuotientCell(a, u, v, k + 2))
  }

  /** The synthetic quotient of a by x^2 + u x + v, cell by cell. */
  ghost function Quotient(a: seq<real>, u: real, v: real): seq<real>
  {
    seq(|a|, k requires 0 <= k < |a| => QuotientCell(a, u, v, k))
  }

  /** From cell k up, a quotient that keeps the recurrence is Quotient. */
  lemma {:induction false} QuotientCellsFrom(a: seq<real>, bs: seq<real>, u: real, v: real, k: nat)
    requires SyntheticQuotient(a, bs, u, v) && k < |a|
    ensures forall j :: k <= j < |a| ==> bs[j] == QuotientCell(a, u, v, j)
    decreases |a| - k
  {
    if k + 1 < |a| {
      QuotientCellsFrom(a, bs, u, v, k + 1);
    }
    if k + 2 < |a| {
      assert bs[k] == a[k + 2] - Mul(u, bs[k + 1]) - Mul(v, bs[k + 2]);
    }
  }

  /** The recurrence has one solution: whatever the inner loop of findHigher
      leaves in bArr is Quotient. */
  lemma QuotientUnique(a: seq<real>, bs: seq<real>, u: real, v: real)
    requires SyntheticQuotient(a, bs, u, v)
    ensures bs == Quotient(a, u, v)
  {
    QuotientCellsFrom(a, bs, u, v, 0);
  }

  /** and Quotient keeps the recurrence. */
  lemma QuotientSatisfies(a: seq<real>, u: real, v: real)
    requires |a| >= 3
    ensures SyntheticQuotient(a, Quotient(a, u, v), u, v)
  {
    var bs := Quotient(a, u, v);
    forall k | 2 <= k < |bs|
      ensures bs[k - 2] == a[k] - Mul(u, bs[k - 1]) - Mul(v, bs[k])
    {
      assert bs[k - 2] == QuotientCell(a, u, v, k - 2);
    }
  }

  /** What one pass of findHigher's outer loop yields: the corrected u and v,
      and whether the loop stops there. */
  datatype Step = Step(u: real, v: real, stop: bool)

  /** One pass from the divisor x^2 + u x + v: the quotient b of a and the
      quotient f of b, the remainders c x + d and g x + h, and the Newton
      correction; the loop stops when dnom is non-zero and both corrections
      are 0. */
  ghost function Pass(a: seq<real>, u: real, v: real): Step
    requires |a| >= 3
  {
    var bs := Quotient(a, u, v);
    var fs := Quotient(bs, u, v);
    var c, d := LinearRemainder(a, bs, u, v), ConstantRemainder(a, bs, v);
    var g, h := LinearRemainder(bs, fs, u, v), ConstantRemainder(bs, fs, v);
    var den := Denominator(g, h, u, v);
    var du, dv := Div(UNumerator(c, d, g, h), den), Div(VNumerator(c, d, g, h, u, v), den);
    Step(u + du, v + dv, den != 0.0 && du == 0.0 && dv == 0.0)
  }

  /** Arrays that satisfy the two recurrences give Pass: each recurrence has
      one solution, so the remainders and the correction are Pass's. */
  lemma PassOf(a: seq<real>, bs: seq<real>, fs: seq<real>, u: real, v: real)
    requires |a| >= 3 && SyntheticQuotient(a, bs, u, v) && SyntheticQuotient(bs, fs, u, v)
    ensures var c, d := LinearRemainder(a, bs, u, v), ConstantRemainder(a, bs, v);
      var g, h := LinearRemainder(bs, fs, u, v), ConstantRemainder(bs, fs, v);
      var den := Denominator(g, h, u, v);
      var du, dv := Div(UNumerator(c, d, g, h), den), Div(VNumerator(c, d, g, h, u, v), den);
      Pass(a, u, v) == Step(u + du, v + dv, den != 0.0 && du == 0.0 && dv == 0.0)
  {
    QuotientUnique(a, bs, u, v);
    QuotientUnique(bs, fs, u, v);
  }

  /** A pass that stops corrects nothing, and its divisor divides a
      exactly. */
  lemma PassStopsExact(a: seq<real>, u: real, v: real)
    requires |a| >= 3
    ensures var s, bs := Pass(a, u, v), Quotient(a, u, v);
      s.stop ==> && s.u == u && s.v == v
                 && LinearRemainder(a, bs, u, v) == 0.0 && ConstantRemainder(a, bs, v) == 0.0
  {
    var bs := Quotient(a, u, v);
    var fs := Quotient(bs, u, v);
    var c, d := LinearRemainder(a, bs, u, v), ConstantRemainder(a, bs, v);
    var g, h := LinearRemainder(bs, fs, u, v), ConstantRemainder(bs, fs, v);
    if Pass(a, u, v).stop {
      ExactWhenConverged(c, d, g, h, u, v);
    }
  }

  /** What the outer loop of findHigher leaves: the final u and v, the
      divisor bu, bv its last pass divided by, and whether it stopped before
      the bound. */
  datatype Outcome = Outcome(u: real, v: real, bu: real, bv: real, exact: bool)

  /** At most n passes from u, v; bu, bv is the divisor of the pass before. */
  ghost function Run(a: seq<real>, u: real, v: real, bu: real, bv: real, n: int): Outcome
    requires |a| >= 3
    decreases n, 1
  {
    if n <= 0 then Outcome(u, v, bu, bv, false)
    else RunAfter(a, Pass(a, u, v), u, v, n)
  }

  /** The rest of a run once the pass from u, v has given s. */
  ghost function RunAfter(a: seq<real>, s: Step, u: real, v: real, n: int): Outcome
    requires |a| >= 3 && n > 0
    decreases n, 0
  {
    if s.stop then Outcome(s.u, s.v, u, v, true)
    else Run(a, s.u, s.v, u, v, n - 1)
  }

  /** A run with no passes left ends where it is, without an exact stop. */
  lemma RunDone(a: seq<real>, u: real, v: real, bu: real, bv: real, n: int)
    requires |a| >= 3 && n <= 0
    ensures Run(a, u, v, bu, bv, n) == Outcome(u, v, bu, bv, false)
  {
  }

  /** One pass of a run with passes left: it stops there, or the run goes
      on from the corrected divisor. */
  lemma RunStep(a: seq<real>, u: real, v: real, bu: real, bv: real, n: int, s: Step)
    requires |a| >= 3 && n > 0 && Pass(a, u, v) == s
    ensures s.stop ==> Run(a, u, v, bu, bv, n) == Outcome(s.u, s.v, u, v, true)
    ensures !s.stop ==> Run(a, u, v, bu, bv, n) == Run(a, s.u, s.v, u, v, n - 1)
  {
  }

  /** After at least one pass, the final u and v are the last pass's
      correction of the divisor it used, whether the loop stopped or ran
      out of passes. */
  lemma {:induction false} RunEndsWithPass(a: seq<real>, u: real, v: real, bu: real, bv: real, n: int)
    requires |a| >= 3 && n > 0
    ensures var o := Run(a, u, v, bu, bv, n);
      Pass(a, o.bu, o.bv) == Step(o.u, o.v, o.exact)
    decreases n
  {
    var s := Pass(a, u, v);
    if !s.stop && n > 1 {
      RunEndsWithPass(a, s.u, s.v, u, v, n - 1);
    }
  }

  /** A run that stops keeps its last divisor, and that divisor divides a
      exactly. */
  lemma RunStopsExact(a: seq<real>, u: real, v: real, bu: real, bv: real, n: int)
    requires |a| >= 3
    ensures var o := Run(a, u, v, bu, bv, n);
      o.exact ==> && o.u == o.bu && o.v == o.bv
                  && LinearRemainder(a, Quotient(a, o.u, o.v), o.u, o.v) == 0.0
                  && ConstantRemainder(a, Quotient(a, o.u, o.v), o.v) == 0.0
  {
    var o := Run(a, u, v, bu, bv, n);
    if o.exact {
      RunEndsWithPass(a, u, v, bu, bv, n);
      PassStopsExact(a, o.bu, o.bv);
    }
  }

}
