/** The Polynomial class: a term store written only through the normalising
    writer Set, and the arithmetic that builds fresh polynomials from it. Each
    loop over the stored degrees (TreeMap's ascending key set) runs over the
    degrees 0 .. Degree() and skips the ones not stored. */
module Polynomials {
  import opened Numerics
  import opened Terms
  import opened Series
  import opened Algebra
  import opened PolynomialText

  class Polynomial {
    /** Degree to coefficient (the TreeMap). */
    var terms: Terms

    /** Sparse, and degree 0 stored unless the store is empty (only the
        coefficient-list constructor with no values leaves it empty). */
    ghost predicate Valid()
      reads this
    {
      Sparse(terms) && (terms == map[] || 0 in terms)
    }

    /** new Polynomial(): the constant 0, with degree 0 stored. */
    constructor ()
      ensures terms == map[0 := 0.0]
    {
      terms := map[0 := 0.0];
    }

    /** new Polynomial(double... vals): vals[i] is stored at degree
        |vals| - 1 - i, so the values run from the highest degree down. */
    constructor FromCoefficients(vals: seq<real>)
      ensures Valid()
      ensures 0 in terms <==> |vals| > 0
      ensures forall k: nat :: Coeff(terms, k) == if k < |vals| then vals[|vals| - 1 - k] else 0.0
    {
      terms := map[];
      new;
      var i := 0;
      while i < |vals|
        invariant 0 <= i <= |vals|
        invariant Sparse(terms)
        invariant 0 in terms <==> i == |vals| && i > 0
        invariant i == 0 ==> terms == map[]
        invariant forall k: nat :: Coeff(terms, k) == if |vals| - i <= k < |vals| then vals[|vals| - 1 - k] else 0.0
      {
        Set(|vals| - i - 1, vals[i]);
        i := i + 1;
      }
    }

    /** new Polynomial(var, text): the constant 0 with every term of the text
        added in order through the accumulating writer, the empty piece a
        leading '-' leaves included. None stands for the exception the
        constructor throws on a term it cannot read. The variable is a
        letter: the text is split on the variable followed by '^' as a
        regular expression, which only a letter matches literally. */
    static method Parse(v: char, text: string, parseReal: string -> Option<real>) returns (r: Option<Polynomial>)
      requires IsVariableName(v)
      ensures r.None? <==> ParseTerms(v, text, parseReal).None?
      ensures r.Some? ==> fresh(r.value) && r.value.Valid() && Normal(r.value.terms)
                          && r.value.terms == AddAll(map[0 := 0.0], ParseTerms(v, text, parseReal).value)
    {
      var p := new Polynomial();
      var tokens := Tokens(text);
      var parse := TermParser(v, parseReal);
      ghost var es: seq<Entry> := [];
      var i := 0;
      while i < |tokens|
        invariant 0 <= i <= |tokens|
        invariant fresh(p) && Normal(p.terms)
        invariant ParseAll(tokens[..i], parse) == Some(es)
        invariant p.terms == AddAll(map[0 := 0.0], es)
      {
        var term := parse(tokens[i]);
        if term.None? {
          ParseAllFails(tokens, parse, i);
          return None;
        }
        p.Add(term.value.0, term.value.1);
        ParseAllStep(tokens, parse, i, es);
        es := es + [term.value];
        i := i + 1;
      }
      assert tokens[..i] == tokens;
      return Some(p);
    }

    /** The private set: the only writer of the store. */
    method Set(d: nat, v: real)
      modifies this
      ensures terms == Put(old(terms), d, v)
    {
      if v != 0.0 {
        terms := terms[d := v];
      } else if d != 0 {
        terms := terms - {d};
      } else {
        terms := terms[0 := 0.0];
      }
    }

    /** The private add: v accumulated onto the coefficient at d. */
    method Add(d: nat, v: real)
      modifies this
      ensures terms == Accumulate(old(terms), d, v)
    {
      if d in terms {
        Set(d, terms[d] + v);
      } else {
        Set(d, v);
      }
    }

    /** The stored coefficient at d, or 0 when d is not stored. */
    function Coefficient(d: nat): (c: real)
      reads this
      ensures d in terms ==> c == terms[d]
      ensures d !in terms ==> c == 0.0
    {
      Coeff(terms, d)
    }

    /** The largest stored degree, -1 for an empty store. */
    function Degree(): (n: int)
      reads this
      ensures n == -1 <==> terms == map[]
      ensures terms != map[] ==> n in terms && forall d :: d in terms ==> d <= n
      ensures Valid() && terms != map[] ==> n >= 0 && forall k: nat :: k > n ==> Coefficient(k) == 0.0
      ensures Valid() && n > 0 ==> Coefficient(n) != 0.0
    {
      Deg(terms)
    }

    /** The dense coefficient array: entry k holds the coefficient at degree k,
        for k from 0 to Degree(). */
    method Coefficients() returns (coef: array<real>)
      ensures fresh(coef)
      ensures coef.Length == Degree() + 1
      ensures forall k :: 0 <= k < coef.Length ==> coef[k] == Coefficient(k)
    {
      coef := new real[Degree() + 1](_ => 0.0);
      var d := 0;
      while d < coef.Length
        invariant 0 <= d <= coef.Length
        invariant forall k :: 0 <= k < d ==> coef[k] == Coefficient(k)
        invariant forall k :: d <= k < coef.Length ==> coef[k] == 0.0
      {
        if d in terms {
          coef[d] := Coefficient(d);
        }
        d := d + 1;
      }
    }

    /** copy(): a fresh polynomial built from the constant 0 by writing every
        stored entry. */
    method Copy() returns (p: Polynomial)
      requires Valid()
      ensures fresh(p) && p.Valid() && Normal(p.terms)
      ensures p.terms == Padded(terms)
    {
      p := new Polynomial();
      var d := 0;
      while d <= Degree()
        invariant d <= Degree() + 1
        invariant fresh(p) && Normal(p.terms)
        invariant forall k: nat :: Coeff(p.terms, k) == if k < d then Coeff(terms, k) else 0.0
      {
        if d in terms {
          p.Set(d, terms[d]);
        }
        d := d + 1;
      }
      Extensionality(p.terms, Padded(terms));
    }

    /** plus(Polynomial): a copy with every term of poly added in. */
    method Plus(poly: Polynomial) returns (r: Polynomial)
      requires Valid() && poly.Valid()
      ensures fresh(r) && r.Valid() && Normal(r.terms)
      ensures r.terms == SumTerms(terms, poly.terms)
    {
      r := Copy();
      var d := 0;
      while d <= poly.Degree()
        invariant d <= poly.Degree() + 1
        invariant fresh(r) && Normal(r.terms)
        invariant forall k: nat :: Coeff(r.terms, k) == Coeff(terms, k) + (if k < d then Coeff(poly.terms, k) else 0.0)
      {
        ghost var before := r.terms;
        if d in poly.terms {
          r.Add(d, poly.Coefficient(d));
        }
        SumStep(before, r.terms, terms, poly.terms, d);
        d := d + 1;
      }
      Extensionality(r.terms, SumTerms(terms, poly.terms));
    }

    /** minus(Polynomial): a copy with every term of poly subtracted. */
    method Minus(poly: Polynomial) returns (r: Polynomial)
      requires Valid() && poly.Valid()
      ensures fresh(r) && r.Valid() && Normal(r.terms)
      ensures r.terms == DifferenceTerms(terms, poly.terms)
    {
      r := Copy();
      var d := 0;
      while d <= poly.Degree()
        invariant d <= poly.Degree() + 1
        invariant fresh(r) && Normal(r.terms)
        invariant forall k: nat :: Coeff(r.terms, k) == Coeff(terms, k) - (if k < d then Coeff(poly.terms, k) else 0.0)
      {
        ghost var before := r.terms;
        if d in poly.terms {
          r.Add(d, -poly.Coefficient(d));
        }
        DifferenceStep(before, r.terms, terms, poly.terms, d);
        d := d + 1;
      }
      Extensionality(r.terms, DifferenceTerms(terms, poly.terms));
    }

    /** plus(int, double): a copy with val added at degree deg. */
    method PlusTerm(deg: nat, val: real) returns (r: Polynomial)
      requires Valid()
      ensures fresh(r) && r.Valid() && Normal(r.terms)
      ensures r.terms == Accumulate(Padded(terms), deg, val)
    {
      r := Copy();
      r.Add(deg, val);
    }

    /** times(int, double): the product with the monomial val x^deg, written
        into a fresh constant 0. */
    method TimesTerm(deg: nat, val: real) returns (r: Polynomial)
      requires Valid()
      ensures fresh(r) && r.Valid() && Normal(r.terms)
      ensures r.terms == ShiftScaleTerms(terms, deg, val)
    {
      r := new Polynomial();
      var d := 0;
      while d <= Degree()
        invariant d <= Degree() + 1
        invariant fresh(r) && Normal(r.terms)
        invariant forall k: nat :: Coeff(r.terms, k) == if k < deg + d then ShiftedCoeff(terms, deg, val, k) else 0.0
      {
        ghost var before := r.terms;
        if d in terms {
          r.Set(deg + d, val * Coefficient(d));
        }
        ShiftStep(before, r.terms, terms, deg, val, d);
        d := d + 1;
      }
      forall k: nat
        ensures Coeff(r.terms, k) == ShiftedCoeff(terms, deg, val, k)
      {
        if k >= deg + d {
          CoeffAboveDeg(terms, k - deg);
        }
      }
      Extensionality(r.terms, ShiftScaleTerms(terms, deg, val));
    }

    /** times(Polynomial): for every stored degree j of poly and i of this,
        a_i b_j accumulated at degree i + j of a fresh constant 0. */
    method Times(poly: Polynomial) returns (r: Polynomial)
      requires Valid() && poly.Valid()
      ensures fresh(r) && r.Valid() && Normal(r.terms)
      ensures r.terms == ProductTerms(terms, poly.terms)
    {
      r := new Polynomial();
      ghost var done: Terms := map[];
      forall k: nat
        ensures Coeff(r.terms, k) == ConvCoeff(terms, done, k)
      {
        ConvSumZeroRight(terms, done, k, k + 1);
      }
      var j := 0;
      while j <= poly.Degree()
        invariant j <= poly.Degree() + 1
        invariant fresh(r) && Normal(r.terms)
        invariant forall k: nat :: Coeff(done, k) == if k < j then Coeff(poly.terms, k) else 0.0
        invariant forall k: nat :: Coeff(r.terms, k) == ConvCoeff(terms, done, k)
      {
        if j in poly.terms {
          var i := 0;
          while i <= Degree()
            invariant i <= Degree() + 1
            invariant fresh(r) && Normal(r.terms)
            invariant forall k: nat :: Coeff(r.terms, k)
                                        == ConvCoeff(terms, done, k)
                                           + (if j <= k && k - j < i then Mul(Coeff(terms, k - j), Coeff(poly.terms, j)) else 0.0)
          {
            ghost var before := r.terms;
            if i in terms {
              var value := Coefficient(i);
              value := value * poly.Coefficient(j);
              assert value == Mul(Coefficient(i), poly.Coefficient(j));
              r.Add(j + i, value);
              RowStep(before, r.terms, terms, done, poly.Coefficient(j), i, j, value);
            } else {
              MulZero(Coeff(terms, i), poly.Coefficient(j));
              RowStep(before, before, terms, done, poly.Coefficient(j), i, j, 0.0);
            }
            i := i + 1;
          }
          var done' := done[j := poly.terms[j]];
          RowDone(r.terms, terms, done, done', poly.terms, j, i);
          done := done';
        }
        j := j + 1;
      }
      forall k: nat
        ensures Coeff(r.terms, k) == ConvCoeff(terms, poly.terms, k)
      {
        ConvSumCongruentRight(terms, done, poly.terms, k, k + 1);
      }
      Extensionality(r.terms, ProductTerms(terms, poly.terms));
    }

    /** times(double): a copy with every stored coefficient multiplied by val. */
    method TimesScalar(val: real) returns (r: Polynomial)
      requires Valid()
      ensures fresh(r) && r.Valid() && Normal(r.terms)
      ensures r.terms == ScaleTerms(Padded(terms), val)
    {
      r := Copy();
      var d := 0;
      while d <= Degree()
        invariant d <= Degree() + 1
        invariant fresh(r) && Normal(r.terms)
        invariant forall k: nat :: Coeff(r.terms, k) == if k < d then Mul(val, Coeff(terms, k)) else Coeff(terms, k)
      {
        if d in terms {
          r.Set(d, Coefficient(d) * val);
        }
        d := d + 1;
      }
      Extensionality(r.terms, ScaleTerms(Padded(terms), val));
    }

    /** over(double): a copy with every stored coefficient divided by val. */
    method OverScalar(val: real) returns (r: Polynomial)
      requires Valid() && val != 0.0
      ensures fresh(r) && r.Valid() && Normal(r.terms)
      ensures r.terms == DividedTerms(terms, val)
    {
      r := Copy();
      var d := 0;
      while d <= Degree()
        invariant d <= Degree() + 1
        invariant fresh(r) && Normal(r.terms)
        invariant forall k: nat :: Coeff(r.terms, k) == if k < d then Coeff(terms, k) / val else Coeff(terms, k)
      {
        if d in terms {
          r.Set(d, Coefficient(d) / val);
        }
        d := d + 1;
      }
      Extensionality(r.terms, DividedTerms(terms, val));
    }

    /** plus(double): a copy with val added to the constant coefficient. */
    method PlusScalar(val: real) returns (r: Polynomial)
      requires Valid()
      ensures fresh(r) && r.Valid() && Normal(r.terms)
      ensures r.terms == Put(Padded(terms), 0, Coefficient(0) + val)
    {
      r := Copy();
      r.Set(0, Coefficient(0) + val);
    }

    /** minus(double): a copy with val subtracted from the constant coefficient. */
    method MinusScalar(val: real) returns (r: Polynomial)
      requires Valid()
      ensures fresh(r) && r.Valid() && Normal(r.terms)
      ensures r.terms == Put(Padded(terms), 0, Coefficient(0) - val)
    {
      r := Copy();
      r.Set(0, Coefficient(0) - val);
    }

    /** Term(deg): the single term of degree deg, in a fresh constant 0. */
    method Term(deg: nat) returns (r: Polynomial)
      ensures fresh(r) && r.Valid() && Normal(r.terms)
      ensures r.terms == TermOf(terms, deg)
    {
      r := new Polynomial();
      r.Set(deg, Coefficient(deg));
    }

    /** evaluate(x): Horner's rule over the stored degrees from the highest
        down; between consecutive stored degrees the running value is
        multiplied by x raised to the gap. */
    method Evaluate(x: real) returns (result: real)
      requires Valid()
      ensures result == Eval(terms, x)
    {
      result := 0.0;
      var deg := Degree();
      var cur := deg;
      while cur >= 0
        invariant -1 <= cur <= deg <= Degree()
        decreases cur + 1
        invariant cur == deg ==> deg == Degree() && result == 0.0
        invariant cur < deg ==> deg in terms && result == HornerFrom(terms, x, deg)
        invariant forall j :: cur < j < deg ==> j !in terms
      {
        if cur in terms {
          var pow := Pow(x, deg - cur);
          var cff := terms[cur];
          if cur < deg {
            HornerGap(terms, x, cur, deg);
            MulComm(result, pow);
          } else {
            HornerAboveDeg(terms, x, cur + 1);
            MulZero(x, 0.0);
          }
          result := result * pow;
          result := result + cff;
          deg := cur;
        }
        cur := cur - 1;
      }
      if terms == map[] {
        assert Eval(terms, x) == PowerSum(terms, x, 0);
      } else {
        HornerIsEval(terms, x);
      }
    }
  }

  /** One pass of the inner loop of Times: adding a_i b_j at degree j + i
      extends the row of b_j by one more degree of a. */
  lemma RowStep(before: Terms, after: Terms, a: Terms, done: Terms, bj: real, i: nat, j: nat, value: real)
    requires forall k: nat :: Coeff(before, k)
                              == ConvCoeff(a, done, k) + (if j <= k && k - j < i then Mul(Coeff(a, k - j), bj) else 0.0)
    requires value == Mul(Coeff(a, i), bj)
    requires forall k: nat :: Coeff(after, k) == Coeff(before, k) + (if k == j + i then value else 0.0)
    ensures forall k: nat :: Coeff(after, k)
                             == ConvCoeff(a, done, k) + (if j <= k && k - j < i + 1 then Mul(Coeff(a, k - j), bj) else 0.0)
  {
    forall k: nat
      ensures Coeff(after, k)
              == ConvCoeff(a, done, k) + (if j <= k && k - j < i + 1 then Mul(Coeff(a, k - j), bj) else 0.0)
    {
      assert Coeff(before, k)
             == ConvCoeff(a, done, k) + (if j <= k && k - j < i then Mul(Coeff(a, k - j), bj) else 0.0);
    }
  }

  /** The end of the inner loop of Times: once every degree of a has been
      multiplied by b_j, the product with b truncated below j + 1 is complete. */
  lemma RowDone(rt: Terms, a: Terms, done: Terms, done': Terms, b: Terms, j: nat, i: nat)
    requires j in b && done' == done[j := b[j]] && i > Deg(a)
    requires forall k: nat :: Coeff(done, k) == if k < j then Coeff(b, k) else 0.0
    requires forall k: nat :: Coeff(rt, k)
                              == ConvCoeff(a, done, k) + (if j <= k && k - j < i then Mul(Coeff(a, k - j), Coeff(b, j)) else 0.0)
    ensures forall k: nat :: Coeff(done', k) == if k < j + 1 then Coeff(b, k) else 0.0
    ensures forall k: nat :: Coeff(rt, k) == ConvCoeff(a, done', k)
  {
    forall k: nat
      ensures Coeff(done', k) == if k < j + 1 then Coeff(b, k) else 0.0
    {
      assert Coeff(done, k) == if k < j then Coeff(b, k) else 0.0;
    }
    forall k: nat
      ensures Coeff(rt, k) == ConvCoeff(a, done', k)
    {
      assert Coeff(rt, k)
             == ConvCoeff(a, done, k) + (if j <= k && k - j < i then Mul(Coeff(a, k - j), Coeff(b, j)) else 0.0);
      if j <= k && k - j >= i {
        CoeffAboveDeg(a, k - j);
        MulZero(Coeff(a, k - j), Coeff(b, j));
      }
      ConvBumpRight(a, done, done', j, b[j], k);
    }
  }

  /** One pass of the loop of Plus: degree d of b has been added. */
  lemma SumStep(before: Terms, after: Terms, a: Terms, b: Terms, d: nat)
    requires forall k: nat :: Coeff(before, k) == Coeff(a, k) + (if k < d then Coeff(b, k) else 0.0)
    requires forall k: nat :: Coeff(after, k) == Coeff(before, k) + (if k == d then Coeff(b, d) else 0.0)
    ensures forall k: nat :: Coeff(after, k) == Coeff(a, k) + (if k < d + 1 then Coeff(b, k) else 0.0)
  {
    forall k: nat
      ensures Coeff(after, k) == Coeff(a, k) + (if k < d + 1 then Coeff(b, k) else 0.0)
    {
      assert Coeff(before, k) == Coeff(a, k) + (if k < d then Coeff(b, k) else 0.0);
    }
  }

  /** One pass of the loop of Minus: degree d of b has been subtracted. */
  lemma DifferenceStep(before: Terms, after: Terms, a: Terms, b: Terms, d: nat)
    requires forall k: nat :: Coeff(before, k) == Coeff(a, k) - (if k < d then Coeff(b, k) else 0.0)
    requires forall k: nat :: Coeff(after, k) == Coeff(before, k) + (if k == d then -Coeff(b, d) else 0.0)
    ensures forall k: nat :: Coeff(after, k) == Coeff(a, k) - (if k < d + 1 then Coeff(b, k) else 0.0)
  {
    forall k: nat
      ensures Coeff(after, k) == Coeff(a, k) - (if k < d + 1 then Coeff(b, k) else 0.0)
    {
      assert Coeff(before, k) == Coeff(a, k) - (if k < d then Coeff(b, k) else 0.0);
    }
  }

  /** One pass of the loop of TimesTerm: degree s + d now holds v a_d. */
  lemma ShiftStep(before: Terms, after: Terms, a: Terms, s: nat, v: real, d: nat)
    requires forall k: nat :: Coeff(before, k) == if k < s + d then ShiftedCoeff(a, s, v, k) else 0.0
    requires forall k: nat :: k != s + d ==> Coeff(after, k) == Coeff(before, k)
    requires Coeff(after, s + d) == if d in a then v * Coeff(a, d) else Coeff(before, s + d)
    ensures forall k: nat :: Coeff(after, k) == if k < s + d + 1 then ShiftedCoeff(a, s, v, k) else 0.0
  {
    forall k: nat
      ensures Coeff(after, k) == if k < s + d + 1 then ShiftedCoeff(a, s, v, k) else 0.0
    {
      assert Coeff(before, k) == if k < s + d then ShiftedCoeff(a, s, v, k) else 0.0;
      if k == s + d && d !in a {
        MulZero(v, Coeff(a, d));
      }
    }
  }
}
