/**
 * Integer polynomials in the two forms the polynomial code uses: a list of
 * monomials (how the encoder builds a polynomial, block by block) and a dense
 * coefficient sequence stored highest degree first (how the interpolation
 * routine returns one). Includes the uniqueness of interpolation: a polynomial
 * with N coefficients is fixed by its values at N distinct points.
 */
module Polynomials {
  import opened Algebra

  /** The monomial coef * x^exp. */
  datatype Term = Term(exp: nat, coef: int)

  /** Value at x of the sum of the terms. */
  function Eval(ts: seq<Term>, x: int): (v: int)
  {
    if |ts| == 0 then 0
    else Eval(ts[..|ts| - 1], x) + ts[|ts| - 1].coef * Pow(x, ts[|ts| - 1].exp)
  }

  /** Coefficient of x^d: the coefficients of the terms of exponent d, added up. */
  function Coefficient(ts: seq<Term>, d: int): (coef: int)
  {
    if |ts| == 0 then 0
    else Coefficient(ts[..|ts| - 1], d) + (if ts[|ts| - 1].exp == d then ts[|ts| - 1].coef else 0)
  }

  /** Every term has an exponent below bound. */
  predicate DegreeBelow(ts: seq<Term>, bound: nat)
  {
    forall i :: 0 <= i < |ts| ==> ts[i].exp < bound
  }

  /** t times every term of q. */
  function Scale(t: Term, q: seq<Term>): (ts: seq<Term>)
  {
    if |q| == 0 then []
    else Scale(t, q[..|q| - 1]) + [Term(t.exp + q[|q| - 1].exp, t.coef * q[|q| - 1].coef)]
  }

  /** The product of two term lists: every term of p times every term of q. */
  function Mul(p: seq<Term>, q: seq<Term>): (pq: seq<Term>)
  {
    if |p| == 0 then [] else Mul(p[..|p| - 1], q) + Scale(p[|p| - 1], q)
  }

  /** Coefficient of x^d in p * q by the convolution formula. */
  function Convolution(p: seq<Term>, q: seq<Term>, d: int): (coef: int)
  {
    if |p| == 0 then 0
    else Convolution(p[..|p| - 1], q, d) + p[|p| - 1].coef * Coefficient(q, d - p[|p| - 1].exp)
  }

  lemma EvalSnoc(ts: seq<Term>, t: Term, x: int)
    ensures Eval(ts + [t], x) == Eval(ts, x) + t.coef * Pow(x, t.exp)
  {
    assert (ts + [t])[..|ts|] == ts;
  }

  lemma CoefficientSnoc(ts: seq<Term>, t: Term, d: int)
    ensures Coefficient(ts + [t], d) == Coefficient(ts, d) + (if t.exp == d then t.coef else 0)
  {
    assert (ts + [t])[..|ts|] == ts;
  }

  lemma {:induction false} EvalConcat(ts1: seq<Term>, ts2: seq<Term>, x: int)
    ensures Eval(ts1 + ts2, x) == Eval(ts1, x) + Eval(ts2, x)
  {
    if |ts2| == 0 {
      assert ts1 + ts2 == ts1;
    } else {
      var init, last := ts2[..|ts2| - 1], ts2[|ts2| - 1];
      assert ts1 + ts2 == (ts1 + init) + [last];
      assert ts2 == init + [last];
      EvalConcat(ts1, init, x);
      EvalSnoc(ts1 + init, last, x);
      EvalSnoc(init, last, x);
    }
  }

  lemma {:induction false} CoefficientConcat(ts1: seq<Term>, ts2: seq<Term>, d: int)
    ensures Coefficient(ts1 + ts2, d) == Coefficient(ts1, d) + Coefficient(ts2, d)
  {
    if |ts2| == 0 {
      assert ts1 + ts2 == ts1;
    } else {
      var init, last := ts2[..|ts2| - 1], ts2[|ts2| - 1];
      assert ts1 + ts2 == (ts1 + init) + [last];
      assert ts2 == init + [last];
      CoefficientConcat(ts1, init, d);
      CoefficientSnoc(ts1 + init, last, d);
      CoefficientSnoc(init, last, d);
    }
  }

  /**
   * If whole = prev + (c*lc)*pw with prev = c*w*e, pw = w*lw and
   * eq = e + lc*lw, then whole = c*w*eq.
   */
  lemma ScaleCombine(whole: int, prev: int, c: int, w: int, e: int, lc: int, lw: int, pw: int, eq: int)
    requires whole == prev + (c * lc) * pw && prev == c * w * e && pw == w * lw && eq == e + lc * lw
    ensures whole == c * w * eq
  {
    assert (c * lc) * (w * lw) == c * w * (lc * lw);
  }

  lemma {:induction false} EvalScale(t: Term, q: seq<Term>, x: int)
    ensures Eval(Scale(t, q), x) == t.coef * Pow(x, t.exp) * Eval(q, x)
  {
    if |q| > 0 {
      var init, last := q[..|q| - 1], q[|q| - 1];
      var st := Term(t.exp + last.exp, t.coef * last.coef);
      assert Scale(t, q) == Scale(t, init) + [st];
      EvalScale(t, init, x);
      EvalSnoc(Scale(t, init), st, x);
      PowAdd(x, t.exp, last.exp);
      ScaleCombine(Eval(Scale(t, q), x), Eval(Scale(t, init), x), t.coef, Pow(x, t.exp), Eval(init, x),
                   last.coef, Pow(x, last.exp), Pow(x, st.exp), Eval(q, x));
    }
  }

  /** If whole = part1 + part2 with part1 = a*v and part2 = b*v, then whole = (a+b)*v. */
  lemma SumOfProducts(whole: int, part1: int, part2: int, ab: int, a: int, b: int, v: int)
    requires whole == part1 + part2 && part1 == a * v && part2 == b * v && ab == a + b
    ensures whole == ab * v
  {
    Distribute(a, b, v);
  }

  /** Evaluation turns the product of term lists into the product of values. */
  lemma {:induction false} EvalMul(p: seq<Term>, q: seq<Term>, x: int)
    ensures Eval(Mul(p, q), x) == Eval(p, x) * Eval(q, x)
  {
    if |p| > 0 {
      var init, last := p[..|p| - 1], p[|p| - 1];
      EvalMul(init, q, x);
      EvalConcat(Mul(init, q), Scale(last, q), x);
      EvalScale(last, q, x);
      SumOfProducts(Eval(Mul(p, q), x), Eval(Mul(init, q), x), Eval(Scale(last, q), x),
                    Eval(p, x), Eval(init, x), last.coef * Pow(x, last.exp), Eval(q, x));
    }
  }

  lemma {:induction false} CoefficientScale(t: Term, q: seq<Term>, d: int)
    ensures Coefficient(Scale(t, q), d) == t.coef * Coefficient(q, d - t.exp)
  {
    if |q| > 0 {
      var init, last := q[..|q| - 1], q[|q| - 1];
      var c, e := t.coef, Coefficient(init, d - t.exp);
      var st := Term(t.exp + last.exp, c * last.coef);
      assert Scale(t, q) == Scale(t, init) + [st];
      CoefficientScale(t, init, d);
      CoefficientSnoc(Scale(t, init), st, d);
      if last.exp == d - t.exp {
        assert Coefficient(q, d - t.exp) == e + last.coef;
        Distribute(e, last.coef, c);
      } else {
        assert Coefficient(q, d - t.exp) == e;
      }
    }
  }

  /** The coefficients of a product are given by the convolution formula. */
  lemma {:induction false} CoefficientMul(p: seq<Term>, q: seq<Term>, d: int)
    ensures Coefficient(Mul(p, q), d) == Convolution(p, q, d)
  {
    if |p| > 0 {
      var init, last := p[..|p| - 1], p[|p| - 1];
      CoefficientMul(init, q, d);
      CoefficientConcat(Mul(init, q), Scale(last, q), d);
      CoefficientScale(last, q, d);
    }
  }

  lemma ConvolutionSnoc(p: seq<Term>, t: Term, q: seq<Term>, d: int)
    ensures Convolution(p + [t], q, d) == Convolution(p, q, d) + t.coef * Coefficient(q, d - t.exp)
  {
    assert (p + [t])[..|p|] == p;
  }

  lemma {:induction false} ConvolutionConcat(p1: seq<Term>, p2: seq<Term>, q: seq<Term>, d: int)
    ensures Convolution(p1 + p2, q, d) == Convolution(p1, q, d) + Convolution(p2, q, d)
  {
    if |p2| == 0 {
      assert p1 + p2 == p1;
    } else {
      var init, last := p2[..|p2| - 1], p2[|p2| - 1];
      assert p1 + p2 == (p1 + init) + [last];
      assert p2 == init + [last];
      ConvolutionConcat(p1, init, q, d);
      ConvolutionSnoc(p1 + init, last, q, d);
      ConvolutionSnoc(init, last, q, d);
    }
  }

  lemma DegreeConcat(ts1: seq<Term>, ts2: seq<Term>, bound: nat)
    requires DegreeBelow(ts1, bound) && DegreeBelow(ts2, bound)
    ensures DegreeBelow(ts1 + ts2, bound)
  {
    forall i | 0 <= i < |ts1 + ts2|
      ensures (ts1 + ts2)[i].exp < bound
    {
      if i >= |ts1| {
        assert (ts1 + ts2)[i] == ts2[i - |ts1|];
      }
    }
  }

  lemma {:induction false} DegreeScale(t: Term, q: seq<Term>, bound: nat)
    requires DegreeBelow(q, bound)
    ensures DegreeBelow(Scale(t, q), t.exp + bound)
  {
    if |q| > 0 {
      DegreeScale(t, q[..|q| - 1], bound);
    }
  }

  /** The degree of a product is at most the sum of the degrees. */
  lemma {:induction false} DegreeMul(p: seq<Term>, q: seq<Term>, bp: nat, bq: nat)
    requires bp > 0 && DegreeBelow(p, bp) && DegreeBelow(q, bq)
    ensures DegreeBelow(Mul(p, q), bp + bq - 1)
  {
    if |p| > 0 {
      var init, last := p[..|p| - 1], p[|p| - 1];
      DegreeMul(init, q, bp, bq);
      DegreeScale(last, q, bq);
    }
  }

  /** pa(0) * pb(0) + ... + pa(U - 1) * pb(U - 1) as a term list. */
  function MulSum(pa: int -> seq<Term>, pb: int -> seq<Term>, U: nat): (ts: seq<Term>)
  {
    if U == 0 then [] else MulSum(pa, pb, U - 1) + Mul(pa(U - 1), pb(U - 1))
  }

  /** Evaluation turns a sum of products of term lists into the sum of the products of their values. */
  lemma {:induction false} EvalMulSum(pa: int -> seq<Term>, pb: int -> seq<Term>, U: nat, x: int, f: int -> int)
    requires forall u :: 0 <= u < U ==> f(u) == Eval(pa(u), x) * Eval(pb(u), x)
    ensures Eval(MulSum(pa, pb, U), x) == Sum(U, f)
  {
    if U > 0 {
      EvalMulSum(pa, pb, U - 1, x, f);
      EvalConcat(MulSum(pa, pb, U - 1), Mul(pa(U - 1), pb(U - 1)), x);
      EvalMul(pa(U - 1), pb(U - 1), x);
    }
  }

  /** A coefficient of a sum of products is the sum of the convolutions. */
  lemma {:induction false} CoefficientMulSum(pa: int -> seq<Term>, pb: int -> seq<Term>, U: nat, d: int,
                                             f: int -> int)
    requires forall u :: 0 <= u < U ==> f(u) == Convolution(pa(u), pb(u), d)
    ensures Coefficient(MulSum(pa, pb, U), d) == Sum(U, f)
  {
    if U > 0 {
      CoefficientMulSum(pa, pb, U - 1, d, f);
      CoefficientConcat(MulSum(pa, pb, U - 1), Mul(pa(U - 1), pb(U - 1)), d);
      CoefficientMul(pa(U - 1), pb(U - 1), d);
    }
  }

  /** A sum of products of degree below bp + bq - 1 has degree below bp + bq - 1. */
  lemma {:induction false} DegreeMulSum(pa: int -> seq<Term>, pb: int -> seq<Term>, U: nat, bp: nat, bq: nat)
    requires bp > 0
    requires forall u :: 0 <= u < U ==> DegreeBelow(pa(u), bp) && DegreeBelow(pb(u), bq)
    ensures DegreeBelow(MulSum(pa, pb, U), bp + bq - 1)
  {
    if U > 0 {
      DegreeMulSum(pa, pb, U - 1, bp, bq);
      DegreeMul(pa(U - 1), pb(U - 1), bp, bq);
      DegreeConcat(MulSum(pa, pb, U - 1), Mul(pa(U - 1), pb(U - 1)), bp + bq - 1);
    }
  }

  /** At x = 0 a term list is worth its constant coefficient. */
  lemma {:induction false} EvalAtZero(ts: seq<Term>)
    ensures Eval(ts, 0) == Coefficient(ts, 0)
  {
    if |ts| > 0 {
      EvalAtZero(ts[..|ts| - 1]);
      PowAtZero(ts[|ts| - 1].exp);
    }
  }

  /**
   * Value at x of the dense coefficient sequence cs, stored highest degree
   * first, by Horner's rule (as numpy's polyval).
   */
  function PolyVal(cs: seq<int>, x: int): (v: int)
  {
    if |cs| == 0 then 0 else PolyVal(cs[..|cs| - 1], x) * x + cs[|cs| - 1]
  }

  /** The n dense coefficients of a term list, highest degree first. */
  function Dense(ts: seq<Term>, n: nat): (cs: seq<int>)
    ensures |cs| == n
    ensures forall d :: 0 <= d < n ==> cs[n - 1 - d] == Coefficient(ts, d)
  {
    seq(n, i requires 0 <= i < n => Coefficient(ts, n - 1 - i))
  }

  /** The dense sequence of the single monomial c * x^e. */
  function Monomial(n: nat, e: nat, c: int): (cs: seq<int>)
  {
    seq(n, i requires 0 <= i < n => if i == n - 1 - e then c else 0)
  }

  function Plus(cs1: seq<int>, cs2: seq<int>): (cs: seq<int>)
    requires |cs1| == |cs2|
    ensures |cs| == |cs1|
  {
    seq(|cs1|, i requires 0 <= i < |cs1| => cs1[i] + cs2[i])
  }

  function Minus(cs1: seq<int>, cs2: seq<int>): (cs: seq<int>)
    requires |cs1| == |cs2|
    ensures |cs| == |cs1|
  {
    seq(|cs1|, i requires 0 <= i < |cs1| => cs1[i] - cs2[i])
  }

  lemma {:induction false} PolyValZero(cs: seq<int>, x: int)
    requires forall i :: 0 <= i < |cs| ==> cs[i] == 0
    ensures PolyVal(cs, x) == 0
  {
    if |cs| > 0 {
      PolyValZero(cs[..|cs| - 1], x);
    }
  }

  lemma {:induction false} PolyValPlus(cs1: seq<int>, cs2: seq<int>, x: int)
    requires |cs1| == |cs2|
    ensures PolyVal(Plus(cs1, cs2), x) == PolyVal(cs1, x) + PolyVal(cs2, x)
  {
    var n := |cs1|;
    if n > 0 {
      assert Plus(cs1, cs2)[..n - 1] == Plus(cs1[..n - 1], cs2[..n - 1]);
      PolyValPlus(cs1[..n - 1], cs2[..n - 1], x);
      var a, b := PolyVal(cs1[..n - 1], x), PolyVal(cs2[..n - 1], x);
      assert (a + b) * x == a * x + b * x;
    }
  }

  lemma {:induction false} PolyValMinus(cs1: seq<int>, cs2: seq<int>, x: int)
    requires |cs1| == |cs2|
    ensures PolyVal(Minus(cs1, cs2), x) == PolyVal(cs1, x) - PolyVal(cs2, x)
  {
    var n := |cs1|;
    if n > 0 {
      assert Minus(cs1, cs2)[..n - 1] == Minus(cs1[..n - 1], cs2[..n - 1]);
      PolyValMinus(cs1[..n - 1], cs2[..n - 1], x);
      var a, b := PolyVal(cs1[..n - 1], x), PolyVal(cs2[..n - 1], x);
      assert (a - b) * x == a * x - b * x;
    }
  }

  lemma {:induction false} PolyValMonomial(n: nat, e: nat, c: int, x: int)
    requires e < n
    ensures PolyVal(Monomial(n, e, c), x) == c * Pow(x, e)
  {
    var init := Monomial(n, e, c)[..n - 1];
    if e == 0 {
      PolyValZero(init, x);
    } else {
      assert init == Monomial(n - 1, e - 1, c);
      PolyValMonomial(n - 1, e - 1, c, x);
      assert c * Pow(x, e - 1) * x == c * Pow(x, e);
    }
  }

  /** One more term adds its monomial to the dense coefficients. */
  lemma DenseSnoc(ts: seq<Term>, t: Term, n: nat)
    ensures Dense(ts + [t], n) == Plus(Dense(ts, n), Monomial(n, t.exp, t.coef))
  {
    forall i | 0 <= i < n
      ensures Dense(ts + [t], n)[i] == Plus(Dense(ts, n), Monomial(n, t.exp, t.coef))[i]
    {
      CoefficientSnoc(ts, t, n - 1 - i);
    }
  }

  /** Evaluating the dense coefficients gives the value of the term list. */
  lemma {:induction false} PolyValDense(ts: seq<Term>, n: nat, x: int)
    requires DegreeBelow(ts, n)
    ensures PolyVal(Dense(ts, n), x) == Eval(ts, x)
  {
    if |ts| == 0 {
      PolyValZero(Dense(ts, n), x);
    } else {
      var init, last := ts[..|ts| - 1], ts[|ts| - 1];
      assert ts == init + [last];
      PolyValDense(init, n, x);
      DenseSnoc(init, last, n);
      PolyValPlus(Dense(init, n), Monomial(n, last.exp, last.coef), x);
      PolyValMonomial(n, last.exp, last.coef, x);
    }
  }

  /** n zero coefficients. */
  function Zeros(n: nat): (cs: seq<int>)
    ensures |cs| == n && forall i :: 0 <= i < n ==> cs[i] == 0
  {
    seq(n, _ => 0)
  }

  /**
   * The coefficients numpy's poly1d keeps of cs: its leading zeros are
   * dropped, but never the constant coefficient, so the zero polynomial keeps
   * a single 0.
   */
  function TrimLeadingZeros(cs: seq<int>): (t: seq<int>)
    requires |cs| > 0
    ensures 0 < |t| <= |cs| && t == cs[|cs| - |t|..]
    ensures |t| == 1 || t[0] != 0
    ensures forall i :: 0 <= i < |cs| - |t| ==> cs[i] == 0
  {
    if |cs| == 1 || cs[0] != 0 then cs else TrimLeadingZeros(cs[1..])
  }

  /** The points are pairwise distinct. */
  predicate Distinct(xs: seq<int>)
  {
    forall i, j :: 0 <= i < j < |xs| ==> xs[i] != xs[j]
  }

  /**
   * cs (|xs| coefficients, highest degree first) takes the value ys[i] at xs[i]:
   * what an interpolation routine must return for the samples (xs, ys).
   */
  predicate Interpolates(cs: seq<int>, xs: seq<int>, ys: seq<int>)
  {
    |cs| == |xs| == |ys| && forall i :: 0 <= i < |xs| ==> PolyVal(cs, xs[i]) == ys[i]
  }

  /**
   * Quotient of the polynomial cs by (x - c) by synthetic division: its
   * coefficients are the partial Horner values of cs at c.
   */
  function Quotient(cs: seq<int>, c: int): (q: seq<int>)
    requires |cs| > 0
    ensures |q| == |cs| - 1
  {
    if |cs| == 1 then []
    else Quotient(cs[..|cs| - 1], c) + [PolyVal(cs[..|cs| - 1], c)]
  }

  /** One step of synthetic division, as an identity between integers. */
  lemma SyntheticDivisionStep(x: int, c: int, qi: int, v: int, e: int)
    ensures ((x - c) * qi + v) * x + e == (x - c) * (qi * x + v) + (v * c + e)
  {
  }

  /** Division by x - c leaves the value at c as remainder. */
  lemma {:induction false} DivisionByLinear(cs: seq<int>, c: int, x: int)
    requires |cs| > 0
    ensures PolyVal(cs, x) == (x - c) * PolyVal(Quotient(cs, c), x) + PolyVal(cs, c)
  {
    var n := |cs|;
    var init, e := cs[..n - 1], cs[n - 1];
    if n == 1 {
      assert init == [];
    } else {
      DivisionByLinear(init, c, x);
      var q := Quotient(cs, c);
      assert q[..n - 2] == Quotient(init, c);
      var qi, v := PolyVal(Quotient(init, c), x), PolyVal(init, c);
      assert PolyVal(q, x) == qi * x + v;
      assert PolyVal(init, x) == (x - c) * qi + v;
      assert PolyVal(cs, x) == PolyVal(init, x) * x + e;
      assert PolyVal(cs, c) == v * c + e;
      SyntheticDivisionStep(x, c, qi, v, e);
    }
  }

  /** If the quotient by x - c is zero and c is a root, every coefficient is zero. */
  lemma {:induction false} ZeroQuotient(cs: seq<int>, c: int)
    requires |cs| > 0
    requires forall i :: 0 <= i < |cs| - 1 ==> Quotient(cs, c)[i] == 0
    requires PolyVal(cs, c) == 0
    ensures forall i :: 0 <= i < |cs| ==> cs[i] == 0
  {
    var n := |cs|;
    var init := cs[..n - 1];
    if n == 1 {
      assert init == [];
    } else {
      var q := Quotient(cs, c);
      assert q[..n - 2] == Quotient(init, c);
      assert PolyVal(init, c) == q[n - 2] == 0;
      ZeroQuotient(init, c);
      assert forall i :: 0 <= i < n - 1 ==> cs[i] == init[i];
    }
  }

  /**
   * A polynomial with |xs| coefficients that vanishes at |xs| distinct points
   * is the zero polynomial.
   */
  lemma {:induction false} RootsForceZero(cs: seq<int>, xs: seq<int>)
    decreases |cs|
    requires |cs| == |xs| && Distinct(xs)
    requires forall i :: 0 <= i < |xs| ==> PolyVal(cs, xs[i]) == 0
    ensures forall i :: 0 <= i < |cs| ==> cs[i] == 0
  {
    if |cs| > 0 {
      var c := xs[0];
      var q := Quotient(cs, c);
      var rest := xs[1..];
      forall i | 0 <= i < |rest|
        ensures PolyVal(q, rest[i]) == 0
      {
        DivisionByLinear(cs, c, rest[i]);
        assert rest[i] - c != 0;
        NonzeroFactor(rest[i] - c, PolyVal(q, rest[i]));
      }
      RootsForceZero(q, rest);
      ZeroQuotient(cs, c);
    }
  }

  lemma NonzeroFactor(a: int, b: int)
    requires a != 0 && a * b == 0
    ensures b == 0
  {
  }

  /**
   * Two coefficient sequences that interpolate the same samples at distinct
   * points are equal.
   */
  lemma InterpolationUnique(cs1: seq<int>, cs2: seq<int>, xs: seq<int>, ys: seq<int>)
    requires Distinct(xs)
    requires Interpolates(cs1, xs, ys) && Interpolates(cs2, xs, ys)
    ensures cs1 == cs2
  {
    var diff := Minus(cs1, cs2);
    forall i | 0 <= i < |xs|
      ensures PolyVal(diff, xs[i]) == 0
    {
      PolyValMinus(cs1, cs2, xs[i]);
    }
    RootsForceZero(diff, xs);
    assert forall i :: 0 <= i < |cs1| ==> cs1[i] - cs2[i] == diff[i] == 0;
  }
}
