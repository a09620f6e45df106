/** The RootFinder class: the roots of a polynomial by closed forms for
    degrees 1 and 2 and by Bairstow's method above, which splits off one
    quadratic factor x^2 + u x + v at a time and goes on with the quotient. */
module RootFinders {
  import opened Numerics
  import opened Terms
  import opened Series
  import opened Algebra
  import opened Polynomials
  import opened Quadratics
  import opened Bairstow

  /** The iteration bound of the constructor without arguments. */
  const DefaultIterations: int := 1024

  /** Array.reverse.of: the values in the opposite order. */
  function Reversed(s: seq<real>): (r: seq<real>)
    ensures |r| == |s|
    ensures forall i :: 0 <= i < |s| ==> r[i] == s[|s| - 1 - i]
  {
    seq(|s|, i requires 0 <= i < |s| => s[|s| - 1 - i])
  }

  /** The roots with a zero imaginary part, in their order. */
  function RealOnly(s: seq<Complex>): seq<Complex>
  {
    if s == [] then [] else Kept(s[0]) + RealOnly(s[1..])
  }

  /** The contribution of one root to RealOnly. */
  function Kept(z: Complex): seq<Complex>
  {
    if z.IsReal() then [z] else []
  }

  /** RealOnly keeps exactly the real roots. */
  lemma {:induction false} RealOnlyMembers(s: seq<Complex>)
    ensures forall z :: z in RealOnly(s) <==> z in s && z.IsReal()
  {
    if s != [] {
      RealOnlyMembers(s[1..]);
      assert s == [s[0]] + s[1..];
    }
  }

  /** Filtering never adds a root. */
  lemma {:induction false} RealOnlyLength(s: seq<Complex>)
    ensures |RealOnly(s)| <= |s|
  {
    if s != [] {
      RealOnlyLength(s[1..]);
    }
  }

  /** RealOnly works piece by piece, so it keeps the order of the roots. */
  lemma {:induction false} RealOnlyConcat(a: seq<Complex>, b: seq<Complex>)
    ensures RealOnly(a + b) == RealOnly(a) + RealOnly(b)
  {
    if a == [] {
      assert a + b == b;
    } else {
      assert (a + b)[1..] == a[1..] + b;
      RealOnlyConcat(a[1..], b);
      calc {
        RealOnly(a + b);
        Kept(a[0]) + RealOnly(a[1..] + b);
        Kept(a[0]) + (RealOnly(a[1..]) + RealOnly(b));
        (Kept(a[0]) + RealOnly(a[1..])) + RealOnly(b);
      }
    }
  }

  /** Removing a root that is not real does not change the real ones. */
  lemma RealOnlyRemove(s: seq<Complex>, i: int)
    requires 0 <= i < |s| && !s[i].IsReal()
    ensures RealOnly(s[..i] + s[i + 1..]) == RealOnly(s)
  {
    var pre, z, post := s[..i], s[i], s[i + 1..];
    assert RealOnly([z] + post) == RealOnly(post) by {
      RealOnlyConcat([z], post);
      assert [z][1..] == [];
    }
    calc {
      RealOnly(s);
      { assert s == pre + ([z] + post); }
      RealOnly(pre + ([z] + post));
      { RealOnlyConcat(pre, [z] + post); }
      RealOnly(pre) + RealOnly(post);
      { RealOnlyConcat(pre, post); }
      RealOnly(pre + post);
    }
  }

  /** A sequence of real roots is left as it is. */
  lemma {:induction false} RealOnlyOfReals(s: seq<Complex>)
    requires forall k :: 0 <= k < |s| ==> s[k].IsReal()
    ensures RealOnly(s) == s
  {
    if s != [] {
      RealOnlyOfReals(s[1..]);
    }
  }

  /** Extending a prefix of real roots by one more real root. */
  lemma RealPrefix(s: seq<Complex>, i: int)
    requires 0 <= i < |s| && s[i].IsReal()
    requires RealOnly(s[..i]) == s[..i]
    ensures RealOnly(s[..i + 1]) == s[..i + 1]
  {
    assert s[..i + 1] == s[..i] + [s[i]];
    RealOnlyConcat(s[..i], [s[i]]);
  }

  /** Zeros of p's factors reach p: when old(x) = 0 gives p(x) = 0 and old
      splits exactly into q times b, zeros of q and of b are zeros of p. */
  lemma ExactSplitZeros(p: Terms, before: Terms, q: Terms, b: Terms, x: real)
    requires forall y :: Eval(before, y) == 0.0 ==> Eval(p, y) == 0.0
    requires DivisionIdentity(before, q, b, map[])
    ensures Eval(q, x) == 0.0 || Eval(b, x) == 0.0 ==> Eval(p, x) == 0.0
  {
    ExactFactorZeros(before, q, b, x);
  }

  /** What findHigher leaves once its iterations end: the deflated quotient
      stores bs, has degree two less than a, and a is divided by the divisor
      of the last pass with the remainder c x + d. */
  lemma DeflationResult(a: seq<real>, bs: seq<real>, u: real, v: real, n: Terms, m: Terms)
    requires SyntheticQuotient(a, bs, u, v) && a[|a| - 1] != 0.0
    requires forall k: nat :: Coeff(n, k) == if k < |a| then a[k] else 0.0
    requires Sparse(m) && forall k: nat :: Coeff(m, k) == if k < |bs| then bs[k] else 0.0
    ensures Deg(m) == |a| - 3
    ensures DivisionIdentity(n, QuadTerms(u, v), m, RemainderTerms(a, bs, u, v))
  {
    DeflatedDegree(a, bs, u, v, m);
    FactorIdentity(a, bs, u, v);
    DivisionCongruent(Dense(a), n, QuadTerms(u, v), Dense(bs), m, RemainderTerms(a, bs, u, v));
  }

  /** The store built from the reversed quotient holds the quotient. */
  lemma DeflatedCoefficients(m: Terms, bs: seq<real>)
    requires forall k: nat :: Coeff(m, k) == if k < |bs| then Reversed(bs)[|bs| - 1 - k] else 0.0
    ensures forall k: nat :: Coeff(m, k) == if k < |bs| then bs[k] else 0.0
  {
  }

  /** A store with no non-zero coefficient and degree 0 stored is the constant 0. */
  lemma ZeroStoreDegree(m: Terms)
    requires Sparse(m) && 0 in m && forall k: nat :: Coeff(m, k) == 0.0
    ensures Deg(m) == 0
  {
    var e := Deg(m);
    assert e == 0 || m[e] != 0.0;
    assert Coeff(m, e) == 0.0;
  }

  /** What one run of findHigher establishes, stated on the coefficient
      sequences: a the dividend's, bs the last quotient's (all zero when no
      iteration ran), m the deflated polynomial read off bs reversed. */
  lemma FactorFacts(n: Terms, a: seq<real>, bs: seq<real>, m: Terms, iterations: int,
                    u: real, v: real, bu: real, bv: real, rem: Terms, exact: bool)
    requires |a| >= 3 && |bs| == |a| && a[|a| - 1] != 0.0
    requires forall k: nat :: Coeff(n, k) == if k < |a| then a[k] else 0.0
    requires Sparse(m) && 0 in m
    requires forall k: nat :: Coeff(m, k) == if k < |bs| then Reversed(bs)[|bs| - 1 - k] else 0.0
    requires iterations <= 0 ==> forall k :: 0 <= k < |bs| ==> bs[k] == 0.0
    requires iterations > 0 ==> SyntheticQuotient(a, bs, bu, bv)
    requires exact ==> iterations > 0 && bu == u && bv == v
    requires exact ==> LinearRemainder(a, bs, bu, bv) == 0.0 && ConstantRemainder(a, bs, bv) == 0.0
    requires rem == if iterations > 0 then RemainderTerms(a, bs, bu, bv) else map[]
    ensures Deg(QuadTerms(u, v)) == 2 && Coeff(QuadTerms(u, v), 2) == 1.0
    ensures Coeff(QuadTerms(u, v), 1) == u && Coeff(QuadTerms(u, v), 0) == v
    ensures Deg(m) == if iterations > 0 then |a| - 3 else 0
    ensures iterations > 0 ==> DivisionIdentity(n, QuadTerms(bu, bv), m, rem)
    ensures forall k: nat :: k >= 2 ==> Coeff(rem, k) == 0.0
    ensures exact ==> forall k: nat :: Coeff(rem, k) == 0.0
    ensures forall k: nat :: Coeff(m, k) == if k < |bs| then bs[k] else 0.0
  {
    DeflatedCoefficients(m, bs);
    QuadTermsShape(u, v);
    if iterations > 0 {
      DeflationResult(a, bs, bu, bv, n, m);
    } else {
      ZeroStoreDegree(m);
    }
  }

  /** Everything findHigher's arithmetic establishes, stated on values: pt
      the polynomial's store and a its coefficients, u0, v0 the guesses, the
      loop's outcome o with bs its last quotient, rt the divisor's store and
      m the deflated store read off bs reversed. */
  lemma FactorSpec(pt: Terms, a: seq<real>, bs: seq<real>, m: Terms, rt: Terms, iterations: int,
                   u0: real, v0: real, o: Outcome, divisor: Terms, used: Terms, rem: Terms)
    requires Sparse(pt) && Deg(pt) >= 2 && a == CoeffSeq(pt)
    requires u0 == GuessU(a) && v0 == GuessV(a) && Run(a, u0, v0, u0, v0, iterations) == o
    requires |bs| == |a|
    requires iterations <= 0 ==> forall k :: 0 <= k < |bs| ==> bs[k] == 0.0
    requires iterations > 0 ==> SyntheticQuotient(a, bs, o.bu, o.bv)
    requires Sparse(m) && 0 in m
    requires forall k: nat :: Coeff(m, k) == if k < |bs| then Reversed(bs)[|bs| - 1 - k] else 0.0
    requires Coeff(rt, 2) == 1.0 && Coeff(rt, 1) == o.u && Coeff(rt, 0) == o.v
    requires divisor == QuadTerms(o.u, o.v) && used == QuadTerms(o.bu, o.bv)
    requires rem == if iterations > 0 then RemainderTerms(a, bs, o.bu, o.bv) else map[]
    ensures o == HigherRun(CoeffSeq(pt), iterations)
    ensures Deg(divisor) == 2 && Coeff(divisor, 2) == 1.0
    ensures Coeff(rt, 2) == 1.0 && Coeff(rt, 1) == Coeff(divisor, 1) && Coeff(rt, 0) == Coeff(divisor, 0)
    ensures var hq := HigherQuotient(CoeffSeq(pt), iterations);
      forall k: nat :: Coeff(m, k) == if k < |hq| then hq[k] else 0.0
    ensures Deg(m) == if iterations > 0 then Deg(pt) - 2 else 0
    ensures iterations > 0 ==> DivisionIdentity(pt, used, m, rem)
    ensures forall k: nat :: k >= 2 ==> Coeff(rem, k) == 0.0
    ensures o.exact ==> iterations > 0 && used == divisor && forall k: nat :: Coeff(rem, k) == 0.0
    ensures iterations <= 0 ==> && divisor == QuadTerms(GuessU(CoeffSeq(pt)), GuessV(CoeffSeq(pt)))
                                && forall k: nat :: Coeff(m, k) == 0.0
    ensures iterations > 0 ==> Pass(CoeffSeq(pt), o.bu, o.bv) == Step(o.u, o.v, o.exact)
  {
    if iterations > 0 {
      RunEndsWithPass(a, u0, v0, u0, v0, iterations);
    }
    LeadingNonZero(pt);
    forall k: nat
      ensures Coeff(pt, k) == if k < |a| then a[k] else 0.0
    {
      if k >= |a| {
        CoeffAboveDeg(pt, k);
      }
    }
    RunFacts(a, bs, iterations, o.u, o.v, o.bu, o.bv, o.exact);
    FactorFacts(pt, a, bs, m, iterations, o.u, o.v, o.bu, o.bv, rem, o.exact);
  }

  /** A normal store holding the coefficients bs is Dense(bs). */
  lemma StoreOfCoefficients(m: Terms, bs: seq<real>)
    requires Normal(m) && |bs| > 0
    requires forall k: nat :: Coeff(m, k) == if k < |bs| then bs[k] else 0.0
    ensures m == Dense(bs)
  {
    Extensionality(m, Dense(bs));
  }

  /** What the outer loop of findHigher leaves, read off its run: bs, the
      quotient it leaves, is HigherQuotient; a stop keeps the last divisor
      and leaves no remainder; with no pass the guesses stay. */
  lemma RunFacts(a: seq<real>, bs: seq<real>, iterations: int,
                 u: real, v: real, bu: real, bv: real, exact: bool)
    requires |a| >= 3 && |bs| == |a|
    requires iterations <= 0 ==> forall k :: 0 <= k < |bs| ==> bs[k] == 0.0
    requires iterations > 0 ==> SyntheticQuotient(a, bs, bu, bv)
    requires HigherRun(a, iterations) == Outcome(u, v, bu, bv, exact)
    ensures bs == HigherQuotient(a, iterations)
    ensures exact ==> iterations > 0 && bu == u && bv == v
    ensures exact ==> LinearRemainder(a, bs, bu, bv) == 0.0 && ConstantRemainder(a, bs, bv) == 0.0
    ensures iterations <= 0 ==> u == GuessU(a) && v == GuessV(a)
  {
    RunStopsExact(a, GuessU(a), GuessV(a), GuessU(a), GuessV(a), iterations);
    if iterations > 0 {
      QuotientUnique(a, bs, bu, bv);
    } else {
      assert bs == seq(|a|, _ => 0.0);
    }
  }

  /** findHigher's initial guess: a ratio of coefficients, or 1 when that
      ratio is 0. */
  function Guess(t: real): (g: real)
    ensures g != 0.0
    ensures t != 0.0 ==> g == t
  {
    if t == 0.0 then 1.0 else t
  }

  /** The initial u of findHigher on the coefficients a: a[deg-1] / a[deg]. */
  function GuessU(a: seq<real>): real
    requires |a| >= 3
  {
    Guess(Div(a[|a| - 2], a[|a| - 1]))
  }

  /** The initial v of findHigher on the coefficients a: a[deg-2] / a[deg]. */
  function GuessV(a: seq<real>): real
    requires |a| >= 3
  {
    Guess(Div(a[|a| - 3], a[|a| - 1]))
  }

  /** The outer loop of findHigher on the coefficients a, from its guesses. */
  ghost function HigherRun(a: seq<real>, iterations: int): Outcome
    requires |a| >= 3
  {
    Run(a, GuessU(a), GuessV(a), GuessU(a), GuessV(a), iterations)
  }

  /** The coefficients of the quotient findHigher goes on with: the
      synthetic quotient of its last pass, or all 0 when no pass ran. */
  ghost function HigherQuotient(a: seq<real>, iterations: int): seq<real>
    requires |a| >= 3
  {
    if iterations > 0 then
      var o := HigherRun(a, iterations);
      Quotient(a, o.bu, o.bv)
    else
      seq(|a|, _ => 0.0)
  }

  /** The quotient has degree deg - 2, or is the constant 0. */
  lemma HigherQuotientDegree(a: seq<real>, iterations: int)
    requires |a| >= 3 && a[|a| - 1] != 0.0
    ensures Deg(Dense(HigherQuotient(a, iterations))) == if iterations > 0 then |a| - 3 else 0
  {
    var bs := HigherQuotient(a, iterations);
    if iterations > 0 {
      var o := HigherRun(a, iterations);
      QuotientSatisfies(a, o.bu, o.bv);
      DeflatedDegree(a, bs, o.bu, o.bv, Dense(bs));
    } else {
      ZeroStoreDegree(Dense(bs));
    }
  }

  /** The roots findRoots finds for the store m, in order: none below degree
      1, the closed forms at degrees 1 and 2, and above them the roots of
      findHigher's divisor followed by those of its quotient. */
  ghost function RootsOf(m: Terms, iterations: int, sqrt: real -> real): seq<Complex>
    requires Sparse(m)
    decreases if Deg(m) < 0 then 0 else Deg(m), 1
  {
    if Deg(m) <= 0 then []
    else if Deg(m) == 1 then [Complex(Div(-Coeff(m, 0), Coeff(m, 1)), 0.0)]
    else if Deg(m) == 2 then QuadraticRoots(Coeff(m, 2), Coeff(m, 1), Coeff(m, 0), sqrt)
    else HigherRoots(m, iterations, sqrt)
  }

  /** Above degree 2: the roots of findHigher's divisor, then those of its
      quotient. */
  ghost function HigherRoots(m: Terms, iterations: int, sqrt: real -> real): seq<Complex>
    requires Sparse(m) && Deg(m) > 2
    decreases Deg(m), 0
  {
    var a := CoeffSeq(m);
    LeadingNonZero(m);
    HigherQuotientDegree(a, iterations);
    var o := HigherRun(a, iterations);
    QuadraticRoots(1.0, o.u, o.v, sqrt) + RootsOf(Dense(HigherQuotient(a, iterations)), iterations, sqrt)
  }

  /** Every run of findHigher that findRoots makes on m stops before the
      bound. */
  ghost predicate ExactStops(m: Terms, iterations: int)
    requires Sparse(m)
    decreases if Deg(m) < 0 then 0 else Deg(m), 1
  {
    Deg(m) <= 2 || HigherExact(m, iterations)
  }

  /** Above degree 2: findHigher's run on m stops before the bound, and so
      do all the runs on its quotient. */
  ghost predicate HigherExact(m: Terms, iterations: int)
    requires Sparse(m) && Deg(m) > 2
    decreases Deg(m), 0
  {
    var a := CoeffSeq(m);
    LeadingNonZero(m);
    HigherQuotientDegree(a, iterations);
    HigherRun(a, iterations).exact && ExactStops(Dense(HigherQuotient(a, iterations)), iterations)
  }

  /** findRoots finds at least one root for a polynomial of degree 1 or
      more, and at most one per degree. */
  lemma {:induction false} RootsOfCount(m: Terms, iterations: int, sqrt: real -> real)
    requires Sparse(m)
    ensures Deg(m) >= 1 ==> 1 <= |RootsOf(m, iterations, sqrt)| <= Deg(m)
    decreases if Deg(m) < 0 then 0 else Deg(m)
  {
    if Deg(m) == 2 {
      LeadingNonZero(m);
      QuadraticCount(Coeff(m, 2), Coeff(m, 1), Coeff(m, 0), sqrt);
    } else if Deg(m) > 2 {
      var a := CoeffSeq(m);
      LeadingNonZero(m);
      HigherQuotientDegree(a, iterations);
      var o := HigherRun(a, iterations);
      QuadraticCount(1.0, o.u, o.v, sqrt);
      RootsOfCount(Dense(HigherQuotient(a, iterations)), iterations, sqrt);
    }
  }

  /** Above degree 2, findRoots appends the roots of findHigher's divisor
      and goes on with its quotient. */
  lemma RootsOfStep(m: Terms, iterations: int, sqrt: real -> real)
    requires Sparse(m) && Deg(m) > 2
    ensures var a := CoeffSeq(m);
      var o := HigherRun(a, iterations);
      var q := Dense(HigherQuotient(a, iterations));
      && RootsOf(m, iterations, sqrt) == QuadraticRoots(1.0, o.u, o.v, sqrt) + RootsOf(q, iterations, sqrt)
      && ExactStops(m, iterations) == (o.exact && ExactStops(q, iterations))
  {
  }

  /** findRoots' account of its work so far on p, with m still to be
      solved: the roots found so far followed by those of m are the roots of
      p, p's runs all stop early exactly when the runs so far did and m's
      will, and while every run so far stopped early, each zero of m and
      each real root found is a zero of p. */
  ghost predicate Accounted(pt: Terms, m: Terms, roots: seq<Complex>, exact: bool, iterations: int, sqrt: real -> real)
    requires Sparse(pt) && Sparse(m)
  {
    && roots + RootsOf(m, iterations, sqrt) == RootsOf(pt, iterations, sqrt)
    && ExactStops(pt, iterations) == (exact && ExactStops(m, iterations))
    && (exact ==> forall x :: Eval(m, x) == 0.0 ==> Eval(pt, x) == 0.0)
    && (exact && ExactSqrt(sqrt) ==> forall z :: z in roots && z.IsReal() ==> Eval(pt, z.re) == 0.0)
  }

  /** findRoots starts on a copy of p with nothing found. */
  lemma AccountStart(pt: Terms, iterations: int, sqrt: real -> real)
    requires Sparse(pt) && (pt == map[] || 0 in pt)
    ensures Sparse(Padded(pt)) && Accounted(pt, Padded(pt), [], true, iterations, sqrt)
  {
    RootsOfPadded(pt, iterations, sqrt);
    if pt == map[] {
      ZeroStoreDegree(Padded(pt));
    } else {
      Extensionality(Padded(pt), pt);
    }
  }

  /** A findHigher step keeps the account. */
  lemma HigherAccount(pt: Terms, m: Terms, q: Terms, o: Outcome, divisor: Terms, used: Terms, rem: Terms,
                      iterations: int, sqrt: real -> real, oldRoots: seq<Complex>, newRoots: seq<Complex>, oldExact: bool)
    requires Sparse(pt) && Sparse(m) && Deg(m) > 2 && Sparse(q)
    requires Accounted(pt, m, oldRoots, oldExact, iterations, sqrt)
    requires o == HigherRun(CoeffSeq(m), iterations) && q == Dense(HigherQuotient(CoeffSeq(m), iterations))
    requires divisor == QuadTerms(o.u, o.v)
    requires newRoots == oldRoots + QuadraticRoots(1.0, o.u, o.v, sqrt)
    requires iterations > 0 ==> DivisionIdentity(m, used, q, rem)
    requires o.exact ==> iterations > 0 && used == divisor && forall k: nat :: Coeff(rem, k) == 0.0
    ensures Accounted(pt, q, newRoots, oldExact && o.exact, iterations, sqrt)
  {
    HigherStepRoots(pt, m, q, o, iterations, sqrt, oldRoots, newRoots);
    HigherStepExact(pt, m, q, o, iterations, oldExact);
    if oldExact && o.exact {
      QuadTermsShape(o.u, o.v);
      HigherStepZeros(pt, m, divisor, q, rem, oldRoots, newRoots, sqrt);
    }
  }

  /** The last step, at degree 2 or less, settles the account: the roots
      are RootsOf(p), and the real ones are zeros of p when every run
      stopped early. */
  lemma LowAccount(pt: Terms, m: Terms, iterations: int, sqrt: real -> real,
                   oldRoots: seq<Complex>, newRoots: seq<Complex>, exact: bool)
    requires Sparse(pt) && Sparse(m) && Deg(m) <= 2
    requires Accounted(pt, m, oldRoots, exact, iterations, sqrt)
    requires newRoots == oldRoots +
      if Deg(m) <= 0 then []
      else if Deg(m) == 1 then [Complex(Div(-Coeff(m, 0), Coeff(m, 1)), 0.0)]
      else QuadraticRoots(Coeff(m, 2), Coeff(m, 1), Coeff(m, 0), sqrt)
    ensures newRoots == RootsOf(pt, iterations, sqrt)
    ensures exact == ExactStops(pt, iterations)
    ensures exact && ExactSqrt(sqrt) ==> forall z :: z in newRoots && z.IsReal() ==> Eval(pt, z.re) == 0.0
  {
    LowStep(pt, m, iterations, sqrt, oldRoots, newRoots, exact);
    if exact && ExactSqrt(sqrt) && Deg(m) > 0 {
      LeadingNonZero(m);
      forall z | z in newRoots && z.IsReal()
        ensures Eval(pt, z.re) == 0.0
      {
        if z !in oldRoots {
          if Deg(m) == 1 {
            LinearRootSolves(m);
          } else {
            QuadraticRealRoots(m, sqrt, z);
          }
        }
      }
    }
  }

  /** The last step of findRoots: at degree 2 or less it appends the
      roots of the remaining polynomial directly, and every run made so
      far was all that p needs. */
  lemma LowStep(pt: Terms, m: Terms, iterations: int, sqrt: real -> real,
                oldRoots: seq<Complex>, newRoots: seq<Complex>, oldExact: bool)
    requires Sparse(pt) && Sparse(m) && Deg(m) <= 2
    requires oldRoots + RootsOf(m, iterations, sqrt) == RootsOf(pt, iterations, sqrt)
    requires ExactStops(pt, iterations) == (oldExact && ExactStops(m, iterations))
    requires newRoots == oldRoots +
      if Deg(m) <= 0 then []
      else if Deg(m) == 1 then [Complex(Div(-Coeff(m, 0), Coeff(m, 1)), 0.0)]
      else QuadraticRoots(Coeff(m, 2), Coeff(m, 1), Coeff(m, 0), sqrt)
    ensures newRoots == RootsOf(pt, iterations, sqrt)
    ensures oldExact == ExactStops(pt, iterations)
  {
  }

  /** What findRoots promises of the complete list, read off RootsOf. */
  lemma RootsOfFacts(pt: Terms, iterations: int, sqrt: real -> real)
    requires Sparse(pt)
    ensures var rs := RootsOf(pt, iterations, sqrt);
      && (Deg(pt) <= 0 ==> rs == [])
      && (Deg(pt) == 1 ==> rs == [Complex(Div(-Coeff(pt, 0), Coeff(pt, 1)), 0.0)])
      && (Deg(pt) == 2 ==> rs == QuadraticRoots(Coeff(pt, 2), Coeff(pt, 1), Coeff(pt, 0), sqrt))
      && (Deg(pt) >= 1 ==> 1 <= |rs| <= Deg(pt))
      && (Deg(pt) <= 2 ==> ExactStops(pt, iterations))
  {
    RootsOfCount(pt, iterations, sqrt);
  }

  /** One findHigher step keeps findRoots' account: the roots found so far
      followed by those of the quotient are the roots of p. */
  lemma HigherStepRoots(pt: Terms, m: Terms, q: Terms, o: Outcome, iterations: int, sqrt: real -> real,
                        oldRoots: seq<Complex>, newRoots: seq<Complex>)
    requires Sparse(pt) && Sparse(m) && Deg(m) > 2
    requires oldRoots + RootsOf(m, iterations, sqrt) == RootsOf(pt, iterations, sqrt)
    requires o == HigherRun(CoeffSeq(m), iterations) && q == Dense(HigherQuotient(CoeffSeq(m), iterations))
    requires newRoots == oldRoots + QuadraticRoots(1.0, o.u, o.v, sqrt)
    ensures newRoots + RootsOf(q, iterations, sqrt) == RootsOf(pt, iterations, sqrt)
  {
    RootsOfStep(m, iterations, sqrt);
    Regroup(oldRoots, QuadraticRoots(1.0, o.u, o.v, sqrt), RootsOf(q, iterations, sqrt),
            RootsOf(m, iterations, sqrt), RootsOf(pt, iterations, sqrt));
  }

  lemma Regroup(done: seq<Complex>, found: seq<Complex>, rest: seq<Complex>, tail: seq<Complex>, all: seq<Complex>)
    requires done + tail == all && tail == found + rest
    ensures (done + found) + rest == all
  {
    assert (done + found) + rest == done + (found + rest);
  }

  /** and keeps its account of exact stops: every run so far stopped early
      exactly when all of p's runs do. */
  lemma HigherStepExact(pt: Terms, m: Terms, q: Terms, o: Outcome, iterations: int, oldExact: bool)
    requires Sparse(pt) && Sparse(m) && Deg(m) > 2
    requires ExactStops(pt, iterations) == (oldExact && ExactStops(m, iterations))
    requires o == HigherRun(CoeffSeq(m), iterations) && q == Dense(HigherQuotient(CoeffSeq(m), iterations))
    ensures ExactStops(pt, iterations) == (oldExact && o.exact && ExactStops(q, iterations))
  {
    assert ExactStops(m, iterations) == (o.exact && ExactStops(q, iterations)) by {
      RootsOfStep(m, iterations, (x: real) => x);
    }
  }

  /** findRoots starts from a copy: solving the copy is solving p. */
  lemma RootsOfPadded(m: Terms, iterations: int, sqrt: real -> real)
    requires Sparse(m) && (m == map[] || 0 in m)
    ensures RootsOf(Padded(m), iterations, sqrt) == RootsOf(m, iterations, sqrt)
    ensures ExactStops(Padded(m), iterations) == ExactStops(m, iterations)
  {
    if m == map[] {
      ZeroStoreDegree(Padded(m));
    } else {
      Extensionality(Padded(m), m);
    }
  }

  class RootFinder {
    /** The polynomial still to be solved. */
    var poly: Polynomial
    /** The roots found so far, in the order they were found. */
    var roots: seq<Complex>
    /** The bound on Bairstow iterations per quadratic factor. */
    const maxiterations: int
    /** Doubles.sqrt. */
    const sqrt: real -> real

    /** new RootFinder(iterations). */
    constructor (iterations: int, sqrt: real -> real)
      ensures maxiterations == iterations && this.sqrt == sqrt
      ensures roots == [] && fresh(poly)
    {
      maxiterations := iterations;
      this.sqrt := sqrt;
      poly := new Polynomial();
      roots := [];
    }

    /** new RootFinder(): the default iteration bound. */
    constructor Default(sqrt: real -> real)
      ensures maxiterations == DefaultIterations && this.sqrt == sqrt
      ensures roots == [] && fresh(poly)
    {
      maxiterations := DefaultIterations;
      this.sqrt := sqrt;
      poly := new Polynomial();
      roots := [];
    }

    /** findLinear: appends -c0 / c1, a zero of p when p has degree 1. */
    method FindLinear(p: Polynomial)
      modifies this
      ensures poly == old(poly)
      ensures roots == old(roots) + [Complex(Div(-Coeff(p.terms, 0), Coeff(p.terms, 1)), 0.0)]
      ensures p.Valid() && Deg(p.terms) == 1 ==> Eval(p.terms, roots[|roots| - 1].re) == 0.0
    {
      var coef0 := p.Coefficient(0);
      var coef1 := p.Coefficient(1);
      var val := Div(-coef0, coef1);
      roots := roots + [Complex(val, 0.0)];
      if p.Valid() && Deg(p.terms) == 1 {
        LinearRootSolves(p.terms);
      }
    }

    /** The roots of a x^2 + b x + c by the branches of findQuadratic:
        a vanishing linear coefficient, then the sign of the discriminant,
        the positive case by the cancellation-free pair. This is the
        step-by-step code; QuadraticRoots is the same computation as a
        function, for the specifications and lemmas (which cannot call a
        method), and the properties of the roots are proved about it
        (QuadraticRootsSolve, QuadraticCount). */
    method SolveQuadratic(a: real, b: real, c: real) returns (rs: seq<Complex>)
      ensures rs == QuadraticRoots(a, b, c, sqrt)
    {
      if b == 0.0 {
        if a == 0.0 {
          return [];
        }
        var val := -c / a;
        if val > 0.0 {
          var val1 := -sqrt(val);
          var val2 := sqrt(val);
          return [Complex(val1, 0.0), Complex(val2, 0.0)];
        }
        var val1 := -sqrt(-val);
        var val2 := sqrt(-val);
        return [Complex(0.0, val1), Complex(0.0, val2)];
      }
      var disc := Discriminant(a, b, c);
      if disc == 0.0 {
        var val := Div(-b, 2.0 * a);
        return [Complex(val, 0.0)];
      }
      if disc > 0.0 {
        var s := Sign(b) * sqrt(disc);
        var val1 := Div(-(b + s), 2.0 * a);
        var val2 := Div(c, a * val1);
        PositiveBranch(a, b, c, sqrt);
        assert QuadraticRoots(a, b, c, sqrt)[0] == Complex(val1, 0.0);
        assert QuadraticRoots(a, b, c, sqrt)[1] == Complex(val2, 0.0);
        return [Complex(val1, 0.0), Complex(val2, 0.0)];
      }
      var s := sqrt(-disc);
      var ima1 := Div(-s, 2.0 * a);
      var ima2 := Div(s, 2.0 * a);
      var re := Div(-b, 2.0 * a);
      return [Complex(re, ima1), Complex(re, ima2)];
    }

    /** findQuadratic: appends the roots of the quadratic read off p's
        three lowest coefficients. */
    method FindQuadratic(p: Polynomial)
      modifies this
      ensures poly == old(poly)
      ensures roots == old(roots) + QuadraticRoots(Coeff(p.terms, 2), Coeff(p.terms, 1), Coeff(p.terms, 0), sqrt)
    {
      var c := p.Coefficient(0);
      var b := p.Coefficient(1);
      var a := p.Coefficient(2);
      var found := SolveQuadratic(a, b, c);
      roots := roots + found;
    }

    /** The inner loop of findHigher: from degree deg - 2 down to 0, bArr
        becomes the synthetic quotient of coef by x^2 + u x + v and fArr that
        of bArr; the top two cells of both stay 0. */
    static method SyntheticDivision(coef: array<real>, bArr: array<real>, fArr: array<real>, u: real, v: real)
      requires coef.Length == bArr.Length == fArr.Length >= 3
      requires bArr != fArr && coef != bArr && coef != fArr
      requires bArr[bArr.Length - 1] == 0.0 && bArr[bArr.Length - 2] == 0.0
      requires fArr[fArr.Length - 1] == 0.0 && fArr[fArr.Length - 2] == 0.0
      modifies bArr, fArr
      ensures SyntheticQuotient(coef[..], bArr[..], u, v)
      ensures SyntheticQuotient(bArr[..], fArr[..], u, v)
    {
      var n := coef.Length;
      var d := n - 3;
      while d >= 0
        invariant -1 <= d <= n - 3
        invariant QuotientFrom(coef[..], bArr[..], u, v, d + 1)
        invariant QuotientFrom(bArr[..], fArr[..], u, v, d + 1)
        decreases d
      {
        ghost var bs, fs := bArr[..], fArr[..];
        bArr[d] := coef[d + 2] - Mul(u, bArr[d + 1]) - Mul(v, bArr[d + 2]);
        QuotientExtend(coef[..], bs, u, v, d);
        QuotientSourceChange(bs, fs, u, v, d, bArr[d]);
        assert bArr[..] == bs[d := bArr[d]];
        fArr[d] := bArr[d + 2] - Mul(u, fArr[d + 1]) - Mul(v, fArr[d + 2]);
        QuotientExtend(bArr[..], fs, u, v, d);
        assert fArr[..] == fs[d := fArr[d]];
        d := d - 1;
      }
      QuotientFromZero(coef[..], bArr[..], u, v);
      QuotientFromZero(bArr[..], fArr[..], u, v);
    }

    /** One pass of the outer loop of findHigher: the synthetic divisions,
        the remainders c x + d and g x + h, and the corrections of u and v.
        It reports a stop exactly when both corrections are 0; the divisor
        then divides coef exactly. */
    static method BairstowPass(coef: array<real>, bArr: array<real>, fArr: array<real>, u: real, v: real, ghost a: seq<real>)
      returns (u': real, v': real, stop: bool)
      requires coef[..] == a
      requires coef.Length == bArr.Length == fArr.Length >= 3
      requires bArr != fArr && coef != bArr && coef != fArr
      requires bArr[bArr.Length - 1] == 0.0 && bArr[bArr.Length - 2] == 0.0
      requires fArr[fArr.Length - 1] == 0.0 && fArr[fArr.Length - 2] == 0.0
      modifies bArr, fArr
      ensures SyntheticQuotient(a, bArr[..], u, v) && SyntheticQuotient(bArr[..], fArr[..], u, v)
      ensures Pass(a, u, v) == Step(u', v', stop)
      ensures bArr[bArr.Length - 1] == 0.0 && bArr[bArr.Length - 2] == 0.0
      ensures fArr[fArr.Length - 1] == 0.0 && fArr[fArr.Length - 2] == 0.0
    {
      SyntheticDivision(coef, bArr, fArr, u, v);
      var c := coef[1] - Mul(u, bArr[0]) - Mul(v, bArr[1]);
      var d := coef[0] - Mul(v, bArr[0]);
      var g := bArr[1] - Mul(u, fArr[0]) - Mul(v, fArr[1]);
      var h := bArr[0] - Mul(v, fArr[0]);
      var dnom := Denominator(g, h, u, v);
      var vnum := VNumerator(c, d, g, h, u, v);
      var unum := UNumerator(c, d, g, h);
      var uErr := Div(unum, dnom);
      var vErr := Div(vnum, dnom);
      u' := u + uErr;
      v' := v + vErr;
      stop := dnom != 0.0 && uErr == 0.0 && vErr == 0.0;
      assert coef[..] == a;
      PassOf(a, bArr[..], fArr[..], u, v);
    }

    /** The outer loop of findHigher: at most maxiterations passes from the
        guesses u0, v0, leaving the loop at the first pass that corrects
        nothing. bArr holds the synthetic quotient of coef by the divisor
        x^2 + bu x + bv of the last pass, or only zeros when no pass ran. */
    static method Iterate(coef: array<real>, maxiterations: int, u0: real, v0: real)
      returns (u: real, v: real, bArr: array<real>, ghost bu: real, ghost bv: real, ghost exact: bool)
      requires coef.Length >= 3
      ensures fresh(bArr) && bArr.Length == coef.Length
      ensures maxiterations <= 0 ==> u == u0 && v == v0 && forall k :: 0 <= k < bArr.Length ==> bArr[k] == 0.0
      ensures maxiterations > 0 ==> SyntheticQuotient(coef[..], bArr[..], bu, bv)
      ensures Run(coef[..], u0, v0, u0, v0, maxiterations) == Outcome(u, v, bu, bv, exact)
    {
      var n := coef.Length;
      ghost var a := coef[..];
      bArr := new real[n](_ => 0.0);
      var fArr := new real[n](_ => 0.0);
      u, v, bu, bv, exact := u0, v0, u0, v0, false;
      var i := 0;
      while i < maxiterations
        invariant 0 <= i && (maxiterations <= 0 ==> i == 0) && (maxiterations > 0 ==> i <= maxiterations)
        invariant coef[..] == a
        invariant Run(a, u0, v0, u0, v0, maxiterations) == Run(a, u, v, bu, bv, maxiterations - i)
        invariant fresh(bArr) && fresh(fArr) && bArr.Length == fArr.Length == n
        invariant bArr[n - 1] == 0.0 && bArr[n - 2] == 0.0 && fArr[n - 1] == 0.0 && fArr[n - 2] == 0.0
        invariant i == 0 ==> u == u0 && v == v0 && forall k :: 0 <= k < n ==> bArr[k] == 0.0
        invariant i > 0 ==> SyntheticQuotient(a, bArr[..], bu, bv)
        invariant !exact
      {
        var stop;
        ghost var bu', bv' := bu, bv;
        bu, bv := u, v;
        u, v, stop := BairstowPass(coef, bArr, fArr, u, v, a);
        assert Run(a, u0, v0, u0, v0, maxiterations)
               == if stop then Outcome(u, v, bu, bv, true) else Run(a, u, v, bu, bv, maxiterations - i - 1) by {
          RunStep(a, bu, bv, bu', bv', maxiterations - i, Step(u, v, stop));
        }
        if stop {
          exact := true;
          break;
        }
        i := i + 1;
      }
      if !exact {
        RunDone(a, u, v, bu, bv, maxiterations - i);
      }
    }

    /** The initial guesses of findHigher: u = coef[deg-1] / coef[deg] and
        v = coef[deg-2] / coef[deg], each replaced by 1 when it is 0. */
    static method Guesses(coef: array<real>) returns (u: real, v: real)
      requires coef.Length >= 3 && coef[coef.Length - 1] != 0.0
      ensures u == GuessU(coef[..]) && v == GuessV(coef[..])
      ensures u != 0.0 && v != 0.0
    {
      var deg := coef.Length - 1;
      u := coef[deg - 1] / coef[deg];
      v := coef[deg - 2] / coef[deg];
      if u == 0.0 {
        u := 1.0;
      }
      if v == 0.0 {
        v := 1.0;
      }
    }

    /** The arithmetic of findHigher: Bairstow iterations from the initial
        guesses u = a[deg-1] / a[deg] and v = a[deg-2] / a[deg] (a zero guess
        replaced by 1), then the divisor x^2 + u x + v and the quotient read
        off the last synthetic division. */
    static method Factor(p: Polynomial, maxiterations: int)
      returns (result: Polynomial, deflated: Polynomial,
               ghost divisor: Terms, ghost used: Terms, ghost rem: Terms, ghost exact: bool, ghost o: Outcome)
      requires p.Valid() && Deg(p.terms) >= 2
      ensures fresh(result) && fresh(deflated) && deflated.Valid() && 0 in deflated.terms
      ensures o == HigherRun(CoeffSeq(p.terms), maxiterations)
      ensures divisor == QuadTerms(o.u, o.v) && used == QuadTerms(o.bu, o.bv) && exact == o.exact
      ensures Deg(divisor) == 2 && Coeff(divisor, 2) == 1.0
      ensures Coeff(result.terms, 2) == 1.0 && Coeff(result.terms, 1) == Coeff(divisor, 1)
      ensures Coeff(result.terms, 0) == Coeff(divisor, 0)
      ensures var bs := HigherQuotient(CoeffSeq(p.terms), maxiterations);
        forall k: nat :: Coeff(deflated.terms, k) == if k < |bs| then bs[k] else 0.0
      ensures Deg(deflated.terms) == if maxiterations > 0 then Deg(p.terms) - 2 else 0
      ensures maxiterations > 0 ==> DivisionIdentity(p.terms, used, deflated.terms, rem)
      ensures forall k: nat :: k >= 2 ==> Coeff(rem, k) == 0.0
      ensures exact ==> maxiterations > 0 && used == divisor && forall k: nat :: Coeff(rem, k) == 0.0
      ensures maxiterations <= 0 ==> && divisor == QuadTerms(GuessU(CoeffSeq(p.terms)), GuessV(CoeffSeq(p.terms)))
                                      && forall k: nat :: Coeff(deflated.terms, k) == 0.0
      ensures maxiterations > 0 ==> Pass(CoeffSeq(p.terms), o.bu, o.bv) == Step(o.u, o.v, o.exact)
    {
      var coef := p.Coefficients();
      ghost var a := coef[..];
      assert a == CoeffSeq(p.terms);
      LeadingNonZero(p.terms);
      var u, v := Guesses(coef);
      ghost var u0, v0 := u, v;
      var bArr;
      ghost var bu, bv;
      u, v, bArr, bu, bv, exact := Iterate(coef, maxiterations, u, v);
      assert coef[..] == a;
      o := Outcome(u, v, bu, bv, exact);
      ghost var bs := bArr[..];
      result := new Polynomial.FromCoefficients([1.0, u, v]);
      assert Coeff(result.terms, 2) == 1.0 && Coeff(result.terms, 1) == u && Coeff(result.terms, 0) == v;
      deflated := new Polynomial.FromCoefficients(Reversed(bArr[..]));
      divisor, used := QuadTerms(u, v), QuadTerms(bu, bv);
      rem := if maxiterations > 0 then RemainderTerms(a, bs, bu, bv) else map[];
      FactorSpec(p.terms, a, bs, deflated.terms, result.terms, maxiterations, u0, v0, o, divisor, used, rem);
    }

    /** findHigher: poly becomes the deflated quotient and the roots of the
        divisor x^2 + u x + v are appended, u and v being what the outer
        loop leaves (the guesses when it makes no pass). */
    method FindHigher(p: Polynomial)
      returns (ghost divisor: Terms, ghost used: Terms, ghost rem: Terms, ghost exact: bool, ghost o: Outcome)
      requires p.Valid() && Deg(p.terms) >= 2
      modifies this
      ensures fresh(poly) && poly.Valid() && 0 in poly.terms
      ensures o == HigherRun(CoeffSeq(p.terms), maxiterations)
      ensures divisor == QuadTerms(o.u, o.v) && used == QuadTerms(o.bu, o.bv) && exact == o.exact
      ensures roots == old(roots) + QuadraticRoots(1.0, o.u, o.v, sqrt)
      ensures poly.terms == Dense(HigherQuotient(CoeffSeq(p.terms), maxiterations))
      ensures Deg(divisor) == 2 && Coeff(divisor, 2) == 1.0
      ensures Deg(poly.terms) == if maxiterations > 0 then Deg(p.terms) - 2 else 0
      ensures maxiterations > 0 ==> DivisionIdentity(p.terms, used, poly.terms, rem)
      ensures forall k: nat :: k >= 2 ==> Coeff(rem, k) == 0.0
      ensures exact ==> maxiterations > 0 && used == divisor && forall k: nat :: Coeff(rem, k) == 0.0
      ensures maxiterations <= 0 ==> && divisor == QuadTerms(GuessU(CoeffSeq(p.terms)), GuessV(CoeffSeq(p.terms)))
                                      && forall k: nat :: Coeff(poly.terms, k) == 0.0
      ensures maxiterations > 0 ==> Pass(CoeffSeq(p.terms), o.bu, o.bv) == Step(o.u, o.v, o.exact)
    {
      var result, deflated;
      result, deflated, divisor, used, rem, exact, o := Factor(p, maxiterations);
      StoreOfCoefficients(deflated.terms, HigherQuotient(CoeffSeq(p.terms), maxiterations));
      poly := deflated;
      FindQuadratic(result);
    }

    /** findRoots: solves a copy of p, by the closed forms when its degree is
        1 or 2 and by findHigher, one quadratic factor at a time, above. The
        roots are RootsOf(p); when every Bairstow run stopped before the bound,
        every real root is a zero of p. */
    method FindRoots(p: Polynomial) returns (ghost exact: bool)
      requires p.Valid()
      modifies this
      ensures roots == RootsOf(p.terms, maxiterations, sqrt)
      ensures exact == ExactStops(p.terms, maxiterations)
      ensures Deg(p.terms) <= 0 ==> roots == []
      ensures Deg(p.terms) == 1 ==> roots == [Complex(Div(-Coeff(p.terms, 0), Coeff(p.terms, 1)), 0.0)]
      ensures Deg(p.terms) == 2 ==> roots == QuadraticRoots(Coeff(p.terms, 2), Coeff(p.terms, 1), Coeff(p.terms, 0), sqrt)
      ensures Deg(p.terms) >= 1 ==> 1 <= |roots| <= Deg(p.terms)
      ensures Deg(p.terms) <= 2 ==> exact
      ensures exact && ExactSqrt(sqrt) ==> forall z :: z in roots && z.IsReal() ==> Eval(p.terms, z.re) == 0.0
    {
      ghost var pt := p.terms;
      poly := p.Copy();
      roots := [];
      AccountStart(pt, maxiterations, sqrt);
      exact := Deflate(pt, true);
      RootsOfFacts(pt, maxiterations, sqrt);
    }

    /** The loop of findRoots: splits quadratic factors off poly while its
        degree is above 2, then solves what is left by the closed forms,
        settling the account of p. */
    method Deflate(ghost pt: Terms, ghost exact0: bool) returns (ghost exact: bool)
      requires Sparse(pt) && poly.Valid() && 0 in poly.terms
      requires Accounted(pt, poly.terms, roots, exact0, maxiterations, sqrt)
      modifies this
      ensures roots == RootsOf(pt, maxiterations, sqrt)
      ensures exact == ExactStops(pt, maxiterations)
      ensures exact && ExactSqrt(sqrt) ==> forall z :: z in roots && z.IsReal() ==> Eval(pt, z.re) == 0.0
    {
      exact := exact0;
      while poly.Degree() > 0
        invariant poly.Valid() && 0 in poly.terms && Deg(poly.terms) >= 0
        invariant Accounted(pt, poly.terms, roots, exact, maxiterations, sqrt)
        decreases Deg(poly.terms)
      {
        ghost var m, before := poly.terms, roots;
        if poly.Degree() == 1 {
          FindLinear(poly);
          LowAccount(pt, m, maxiterations, sqrt, before, roots, exact);
          break;
        }
        if poly.Degree() == 2 {
          FindQuadratic(poly);
          LowAccount(pt, m, maxiterations, sqrt, before, roots, exact);
          break;
        }
        ghost var divisor: Terms, used: Terms, rem: Terms, exactHere: bool, o: Outcome;
        divisor, used, rem, exactHere, o := FindHigher(poly);
        HigherAccount(pt, m, poly.terms, o, divisor, used, rem, maxiterations, sqrt, before, roots, exact);
        exact := exact && exactHere;
      }
      if Deg(poly.terms) <= 0 {
        assert roots + [] == roots;
        LowAccount(pt, poly.terms, maxiterations, sqrt, roots, roots, exact);
      }
    }

    /** The filtering loop of findRealRoots: removes every root that is
        not real from the list in place, stepping the index back after a
        removal. */
    method RemoveComplex()
      modifies this
      ensures poly == old(poly)
      ensures roots == RealOnly(old(roots))
    {
      ghost var found := roots;
      var i := 0;
      while i < |roots|
        invariant 0 <= i <= |roots|
        invariant RealOnly(roots) == RealOnly(found)
        invariant RealOnly(roots[..i]) == roots[..i]
        invariant poly == old(poly)
        decreases |roots| - i
      {
        var root := roots[i];
        if !root.IsReal() {
          RealOnlyRemove(roots, i);
          assert (roots[..i] + roots[i + 1..])[..i] == roots[..i];
          roots := roots[..i] + roots[i + 1..];
          i := i - 1;
        } else {
          RealPrefix(roots, i);
        }
        i := i + 1;
      }
      assert roots[..i] == roots;
    }

    /** The copying loop of findRealRoots: the real parts, in order. */
    static method RealParts(rs: seq<Complex>) returns (reals: array<real>)
      ensures fresh(reals)
      ensures reals.Length == |rs| && forall k :: 0 <= k < reals.Length ==> reals[k] == rs[k].re
    {
      reals := new real[|rs|](_ => 0.0);
      var j := 0;
      while j < |rs|
        invariant 0 <= j <= |rs|
        invariant forall k :: 0 <= k < j ==> reals[k] == rs[k].re
        modifies reals
      {
        reals[j] := rs[j].re;
        j := j + 1;
      }
    }

    /** findRealRoots: the real roots found by findRoots, in the order
        found, as an array of their values. */
    method FindRealRoots(p: Polynomial) returns (reals: array<real>, ghost exact: bool)
      requires p.Valid()
      modifies this
      ensures fresh(reals)
      ensures roots == RealOnly(RootsOf(p.terms, maxiterations, sqrt))
      ensures reals.Length == |roots| && forall k :: 0 <= k < reals.Length ==> reals[k] == roots[k].re
      ensures exact == ExactStops(p.terms, maxiterations)
      ensures Deg(p.terms) <= 0 ==> reals.Length == 0
      ensures Deg(p.terms) == 1 ==> reals.Length == 1 && reals[0] == Div(-Coeff(p.terms, 0), Coeff(p.terms, 1))
      ensures Deg(p.terms) == 2 ==> roots == RealOnly(QuadraticRoots(Coeff(p.terms, 2), Coeff(p.terms, 1), Coeff(p.terms, 0), sqrt))
      ensures Deg(p.terms) >= 1 ==> reals.Length <= Deg(p.terms)
      ensures Deg(p.terms) <= 2 ==> exact
      ensures exact && ExactSqrt(sqrt) ==> forall k :: 0 <= k < reals.Length ==> Eval(p.terms, reals[k]) == 0.0
    {
      exact := FindRoots(p);
      ghost var found := roots;
      RemoveComplex();
      RealOnlyMembers(found);
      RealOnlyLength(found);
      reals := RealParts(roots);
    }

    /** The copying loop of findComplexRoots. */
    static method ToArray(rs: seq<Complex>) returns (all: array<Complex>)
      ensures fresh(all) && all[..] == rs
    {
      all := new Complex[|rs|](_ => Complex(0.0, 0.0));
      var i := 0;
      while i < |rs|
        invariant 0 <= i <= |rs|
        invariant forall k :: 0 <= k < i ==> all[k] == rs[k]
        modifies all
      {
        all[i] := rs[i];
        i := i + 1;
      }
    }

    /** findComplexRoots: every root findRoots found, as an array. */
    method FindComplexRoots(p: Polynomial) returns (all: array<Complex>, ghost exact: bool)
      requires p.Valid()
      modifies this
      ensures fresh(all) && all[..] == roots
      ensures all[..] == RootsOf(p.terms, maxiterations, sqrt)
      ensures exact == ExactStops(p.terms, maxiterations)
      ensures Deg(p.terms) <= 0 ==> all.Length == 0
      ensures Deg(p.terms) == 1 ==> all[..] == [Complex(Div(-Coeff(p.terms, 0), Coeff(p.terms, 1)), 0.0)]
      ensures Deg(p.terms) == 2 ==> all[..] == QuadraticRoots(Coeff(p.terms, 2), Coeff(p.terms, 1), Coeff(p.terms, 0), sqrt)
      ensures Deg(p.terms) >= 1 ==> 1 <= all.Length <= Deg(p.terms)
      ensures Deg(p.terms) <= 2 ==> exact
      ensures exact && ExactSqrt(sqrt) ==> forall k :: 0 <= k < all.Length && all[k].IsReal() ==> Eval(p.terms, all[k].re) == 0.0
    {
      exact := FindRoots(p);
      all := ToArray(roots);
    }
  }

  /** One exact deflation keeps the root invariant of findRoots: zeros of the
      quotient are zeros of p, and so are the real roots appended for the
      divisor. */
  lemma HigherStepZeros(p: Terms, before: Terms, divisor: Terms, after: Terms, rem: Terms,
                        oldRoots: seq<Complex>, newRoots: seq<Complex>, sqrt: real -> real)
    requires forall x :: Eval(before, x) == 0.0 ==> Eval(p, x) == 0.0
    requires DivisionIdentity(before, divisor, after, rem) && forall k: nat :: Coeff(rem, k) == 0.0
    requires Deg(divisor) == 2 && Coeff(divisor, 2) == 1.0
    requires newRoots == oldRoots + QuadraticRoots(1.0, Coeff(divisor, 1), Coeff(divisor, 0), sqrt)
    requires ExactSqrt(sqrt) ==> forall z :: z in oldRoots && z.IsReal() ==> Eval(p, z.re) == 0.0
    ensures forall x :: Eval(after, x) == 0.0 ==> Eval(p, x) == 0.0
    ensures ExactSqrt(sqrt) ==> forall z :: z in newRoots && z.IsReal() ==> Eval(p, z.re) == 0.0
  {
    ZeroRemainder(before, divisor, after, rem);
    forall x | Eval(after, x) == 0.0
      ensures Eval(p, x) == 0.0
    {
      ExactSplitZeros(p, before, divisor, after, x);
    }
    if ExactSqrt(sqrt) {
      forall z | z in newRoots && z.IsReal()
        ensures Eval(p, z.re) == 0.0
      {
        if z !in oldRoots {
          QuadraticRealRoots(divisor, sqrt, z);
          ExactSplitZeros(p, before, divisor, after, z.re);
        }
      }
    }
  }
}
