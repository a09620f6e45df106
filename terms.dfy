/** The term store of a polynomial: a map from degree to coefficient, kept
    sparse by one normalising writer. A coefficient of exactly zero is never
    stored at a non-zero degree, while degree 0 stays stored once written, so a
    publicly built polynomial always has a degree of at least 0. */
module Terms {
  import opened Numerics

  type Terms = map<nat, real>

  /** No zero coefficient is stored at a non-zero degree. */
  ghost predicate Sparse(m: Terms)
  {
    forall d :: d in m && d != 0 ==> m[d] != 0.0
  }

  /** The shape of every polynomial built through the public constructors. */
  ghost predicate Normal(m: Terms)
  {
    Sparse(m) && 0 in m
  }

  /** The coefficient at degree d; 0 when nothing is stored there. */
  function Coeff(m: Terms, d: nat): real
  {
    if d in m then m[d] else 0.0
  }

  lemma {:induction false} MaxExists(s: set<nat>)
    requires s != {}
    ensures exists k :: k in s && forall j :: j in s ==> j <= k
  {
    var x :| x in s;
    if s != {x} {
      MaxExists(s - {x});
      var k :| k in s - {x} && forall j :: j in s - {x} ==> j <= k;
      assert forall j :: j in s ==> j == x || j in s - {x};
      if x > k {
        assert forall j :: j in s ==> j <= x;
      } else {
        assert forall j :: j in s ==> j <= k;
      }
    } else {
      assert forall j :: j in s ==> j <= x;
    }
  }

  /** The largest element of a non-empty set of degrees. */
  function MaxKey(s: set<nat>): (k: nat)
    requires s != {}
    ensures k in s && forall j :: j in s ==> j <= k
  {
    MaxExists(s);
    var k :| k in s && forall j :: j in s ==> j <= k; k
  }

  /** The largest stored degree, or -1 for a store with no entries. */
  function Deg(m: Terms): (n: int)
    ensures n >= -1
    ensures n == -1 <==> m == map[]
    ensures m != map[] ==> n in m && forall d :: d in m ==> d <= n
  {
    if |m| == 0 then -1 else MaxKey(m.Keys)
  }

  lemma CoeffAboveDeg(m: Terms, d: nat)
    requires d > Deg(m)
    ensures Coeff(m, d) == 0.0
  {
  }

  /** In a sparse store of positive degree, the leading coefficient is non-zero. */
  lemma LeadingNonZero(m: Terms)
    requires Sparse(m) && Deg(m) > 0
    ensures Coeff(m, Deg(m)) != 0.0
  {
  }

  /** A normal store has degree at least 0. */
  lemma NormalDegree(m: Terms)
    requires Normal(m)
    ensures Deg(m) >= 0
  {
  }

  /** The normalising writer (the private set): a non-zero value is stored,
      a zero value removes a non-zero degree, and degree 0 is kept with 0.0. */
  function Put(m: Terms, d: nat, v: real): (r: Terms)
    ensures Sparse(m) ==> Sparse(r)
    ensures 0 in m ==> 0 in r
    ensures d in r <==> v != 0.0 || d == 0
    ensures Coeff(r, d) == v
    ensures forall k :: k != d ==> (k in r <==> k in m) && Coeff(r, k) == Coeff(m, k)
  {
    if v != 0.0 then m[d := v]
    else if d != 0 then m - {d}
    else m[0 := 0.0]
  }

  /** The private add: accumulate v onto the coefficient stored at d. */
  function Accumulate(m: Terms, d: nat, v: real): (r: Terms)
    ensures Sparse(m) ==> Sparse(r)
    ensures 0 in m ==> 0 in r
    ensures d == 0 ==> 0 in r
    ensures forall k :: Coeff(r, k) == Coeff(m, k) + (if k == d then v else 0.0)
  {
    if d in m then Put(m, d, m[d] + v) else Put(m, d, v)
  }

  /** Two sparse stores agreeing on every coefficient and on whether degree 0
      is stored are the same map. */
  lemma {:induction false} Extensionality(m1: Terms, m2: Terms)
    requires Sparse(m1) && Sparse(m2)
    requires (0 in m1 <==> 0 in m2)
    requires forall k: nat :: Coeff(m1, k) == Coeff(m2, k)
    ensures m1 == m2
  {
    forall k | k in m1
      ensures k in m2 && m1[k] == m2[k]
    {
      assert Coeff(m1, k) == Coeff(m2, k);
    }
    forall k | k in m2
      ensures k in m1
    {
      assert Coeff(m1, k) == Coeff(m2, k);
    }
  }

  /** The normalised store holding cs[k] at degree k (lowest degree first). */
  function Dense(cs: seq<real>): (m: Terms)
    ensures Sparse(m)
    ensures 0 in m <==> |cs| > 0
    ensures forall k: nat :: Coeff(m, k) == if k < |cs| then cs[k] else 0.0
  {
    map k: nat | k < |cs| && (k == 0 || cs[k] != 0.0) :: cs[k]
  }

  /** Every coefficient multiplied by v, normalised as the writer does it. */
  function ScaleTerms(m: Terms, v: real): (r: Terms)
    ensures Sparse(r)
    ensures 0 in r <==> 0 in m
    ensures forall k: nat :: Coeff(r, k) == Mul(v, Coeff(m, k))
  {
    map k | k in m && (k == 0 || Mul(v, m[k]) != 0.0) :: Mul(v, m[k])
  }

  /** The dense coefficient list of degrees 0 .. Deg(m), lowest first. */
  function CoeffSeq(m: Terms): (cs: seq<real>)
    ensures |cs| == Deg(m) + 1
    ensures forall k :: 0 <= k < |cs| ==> cs[k] == Coeff(m, k)
  {
    seq(Deg(m) + 1, k requires 0 <= k => Coeff(m, k))
  }

  /** Re-normalising the dense list of a normal store gives the store back. */
  lemma DenseOfCoeffSeq(m: Terms)
    requires Normal(m)
    ensures Dense(CoeffSeq(m)) == m
  {
    var cs := CoeffSeq(m);
    forall k: nat
      ensures Coeff(Dense(cs), k) == Coeff(m, k)
    {
      if k > Deg(m) {
        CoeffAboveDeg(m, k);
      }
    }
    Extensionality(Dense(cs), m);
  }
}
