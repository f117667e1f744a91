/**
 * Why the code works: the entry (a, b) of a worker's product A_x^T . B_x is
 * the value at x of a polynomial of degree below n_needed whose coefficient
 * of degree p-1 + k*p + k1*p*m is cell (a, b) of block (k, k1) of A^T . B.
 * Interpolating through n_needed distinct ordinals recovers that polynomial,
 * so the decoder rebuilds A^T . B.
 */
module PolynomialCode {
  import opened Algebra
  import opened Matrices
  import opened Partitioner
  import opened Polynomials
  import opened Encoder
  import opened Decoder

  /** u |-> A_x[u][a] * B_x[u][b]: the terms of entry (a, b) of A_x^T . B_x. */
  function WorkerTerms(A: Matrix, B: Matrix, g: Geometry, x: int, a: nat, b: nat): (terms: int -> int)
    requires g.Valid()
  {
    u => EncodedA(A, g, x, u, a) * EncodedB(B, g, x, u, b)
  }

  /** Entry (a, b) of A_x^T . B_x, the product the worker with ordinal x returns. */
  function WorkerCell(A: Matrix, B: Matrix, g: Geometry, x: int, a: nat, b: nat): (v: int)
    requires g.Valid()
  {
    Sum(g.SubRows(), WorkerTerms(A, B, g, x, a, b))
  }

  /** The (r/m) x (t/n) result of the worker with ordinal x. */
  function WorkerResult(A: Matrix, B: Matrix, g: Geometry, x: int): (C: Matrix)
    requires g.Valid()
    ensures IsMatrix(C, g.SubColsA(), g.SubColsB())
    ensures forall a, b :: 0 <= a < g.SubColsA() && 0 <= b < g.SubColsB() ==>
      At(C, a, b) == WorkerCell(A, B, g, x, a, b)
  {
    seq(g.SubColsA(), a requires 0 <= a < g.SubColsA() =>
      seq(g.SubColsB(), b requires 0 <= b < g.SubColsB() => WorkerCell(A, B, g, x, a, b)))
  }

  /** u |-> entry (u, a) of Ã(x), as a polynomial. */
  function RowPolysA(A: Matrix, g: Geometry, a: nat): (polys: int -> seq<Term>)
    requires g.Valid()
  {
    u => PolyA(A, g, u, a)
  }

  /** u |-> entry (u, b) of B̃(x), as a polynomial. */
  function RowPolysB(B: Matrix, g: Geometry, b: nat): (polys: int -> seq<Term>)
    requires g.Valid()
  {
    u => PolyB(B, g, u, b)
  }

  /** Entry (a, b) of Ã(x)^T B̃(x): the sum over rows u of Ã[u][a] * B̃[u][b]. */
  function ProductPoly(A: Matrix, B: Matrix, g: Geometry, a: nat, b: nat): (q: seq<Term>)
    requires g.Valid()
  {
    MulSum(RowPolysA(A, g, a), RowPolysB(B, g, b), g.SubRows())
  }

  /** What the worker with ordinal x computes at (a, b) is the product polynomial's value at x. */
  lemma WorkerCellIsProductValue(A: Matrix, B: Matrix, g: Geometry, x: int, a: nat, b: nat)
    requires g.Valid()
    ensures WorkerCell(A, B, g, x, a, b) == Eval(ProductPoly(A, B, g, a, b), x)
  {
    EvalMulSum(RowPolysA(A, g, a), RowPolysB(B, g, b), g.SubRows(), x, WorkerTerms(A, B, g, x, a, b));
  }

  /** The product polynomial has degree at most n_needed - 1 = pmn + p - 2. */
  lemma ProductDegree(A: Matrix, B: Matrix, g: Geometry, a: nat, b: nat)
    requires g.Valid()
    ensures DegreeBelow(ProductPoly(A, B, g, a, b), NNeeded(g.p, g.m, g.n))
  {
    var p, m, n := g.p, g.m, g.n;
    forall u | 0 <= u < g.SubRows()
      ensures DegreeBelow(RowPolysA(A, g, a)(u), p * m)
      ensures DegreeBelow(RowPolysB(B, g, b)(u), DegreeBoundB(p, m, n))
    {
      EncodingDegrees(A, B, g, u, a, b);
    }
    DegreeMulSum(RowPolysA(A, g, a), RowPolysB(B, g, b), g.SubRows(), p * m, DegreeBoundB(p, m, n));
    DegreeBound(p, m, n);
  }

  /** p*m + DegreeBoundB(p, m, n) - 1, that is (p*m) + (p + (n-1)*p*m) - 1, is n_needed. */
  lemma DegreeBound(p: nat, m: nat, n: nat)
    requires p > 0 && n > 0
    ensures p * m + DegreeBoundB(p, m, n) - 1 == NNeeded(p, m, n)
  {
    Distribute(n - 1, 1, p * m);
    assert (n - 1) * p * m == (n - 1) * (p * m);
    assert p * m * n == n * (p * m);
  }

  /**
   * The coefficient of x^(TargetDegree(k0, k1) - ExpA(j, k)) in the first K
   * column blocks of row block j' of B: only B_{j,k1} can pair with A_{j,k} there,
   * and only when k == k0.
   */
  lemma {:induction false} CoefficientRowTermsB(B: Matrix, g: Geometry, u: int, b: nat, j': nat, K: nat,
                                                j: nat, k: nat, k0: nat, k1: nat)
    requires g.Valid() && j' < g.p && j < g.p && k < g.m && k0 < g.m
    ensures Coefficient(RowTermsB(B, g, j', K, u, b), TargetDegree(g.p, g.m, k0, k1) - ExpA(g.p, j, k))
         == if j' == j && k == k0 && k1 < K then At(B, g.RowStart(j) + u, g.ColStartB(k1) + b) else 0
  {
    if K > 0 {
      var d := TargetDegree(g.p, g.m, k0, k1) - ExpA(g.p, j, k);
      var t := Term(ExpB(g.p, g.m, j', K - 1), At(B, g.RowStart(j') + u, g.ColStartB(K - 1) + b));
      var prev := RowTermsB(B, g, j', K - 1, u, b);
      assert RowTermsB(B, g, j', K, u, b) == prev + [t];
      CoefficientRowTermsB(B, g, u, b, j', K - 1, j, k, k0, k1);
      CoefficientSnoc(prev, t, d);
      ExponentsMatch(g.p, g.m, j, k, j', K - 1, k0, k1);
      assert t.exp == d <==> j' == j && k == k0 && K - 1 == k1;
    }
  }

  lemma {:induction false} CoefficientTermsB(B: Matrix, g: Geometry, u: int, b: nat, J: nat,
                                             j: nat, k: nat, k0: nat, k1: nat)
    requires g.Valid() && J <= g.p && j < g.p && k < g.m && k0 < g.m && k1 < g.n
    ensures Coefficient(TermsB(B, g, J, u, b), TargetDegree(g.p, g.m, k0, k1) - ExpA(g.p, j, k))
         == if j < J && k == k0 then At(B, g.RowStart(j) + u, g.ColStartB(k1) + b) else 0
  {
    if J > 0 {
      var d := TargetDegree(g.p, g.m, k0, k1) - ExpA(g.p, j, k);
      CoefficientTermsB(B, g, u, b, J - 1, j, k, k0, k1);
      CoefficientConcat(TermsB(B, g, J - 1, u, b), RowTermsB(B, g, J - 1, g.n, u, b), d);
      CoefficientRowTermsB(B, g, u, b, J - 1, g.n, j, k, k0, k1);
    }
  }

  /**
   * In q, the partner of A_{j,k} for degree d (the coefficient of
   * x^(d - ExpA(j, k))) is vB for k == k0 and 0 for every other k.
   */
  predicate PartnerOfRow(g: Geometry, q: seq<Term>, d: int, vB: int, j: nat, k0: nat)
  {
    forall k :: 0 <= k < g.m ==> Coefficient(q, d - ExpA(g.p, j, k)) == if k == k0 then vB else 0
  }

  /**
   * Against a polynomial q whose coefficient of x^(d - ExpA(j, k)) is vB for
   * k == k0 and 0 otherwise, row block j of A contributes A_{j,k0}[u, a] * vB
   * to degree d.
   */
  lemma {:induction false} ConvolutionRowTermsA(A: Matrix, g: Geometry, q: seq<Term>, d: int, vB: int,
                                                u: int, a: nat, j: nat, K: nat, k0: nat)
    requires g.Valid() && j < g.p && K <= g.m && k0 < g.m
    requires PartnerOfRow(g, q, d, vB, j, k0)
    ensures Convolution(RowTermsA(A, g, j, K, u, a), q, d)
         == if k0 < K then At(A, g.RowStart(j) + u, g.ColStartA(k0) + a) * vB else 0
  {
    if K > 0 {
      var t := Term(ExpA(g.p, j, K - 1), At(A, g.RowStart(j) + u, g.ColStartA(K - 1) + a));
      var prev := RowTermsA(A, g, j, K - 1, u, a);
      assert RowTermsA(A, g, j, K, u, a) == prev + [t];
      var cq := Coefficient(q, d - t.exp);
      assert cq == if K - 1 == k0 then vB else 0;
      ConvolutionRowTermsA(A, g, q, d, vB, u, a, j, K - 1, k0);
      ConvolutionSnoc(prev, t, q, d);
      if K - 1 != k0 {
        assert t.coef * cq == 0;
      }
    }
  }

  lemma StridedColumnProducts(A: Matrix, B: Matrix, colA: int, colB: int, size: int, u: int, j: int)
    ensures Strided(ColumnProducts(A, B, colA, colB), size, u)(j)
         == At(A, j * size + u, colA) * At(B, j * size + u, colB)
  {
  }

  /**
   * Against a polynomial q that holds B_{j,k1}[u, b] exactly where A_{j,k0}
   * needs its partner, the first J row blocks of A contribute
   * sum over j < J of A[j*s/p + u][colA] * B[j*s/p + u][colB] to degree d.
   */
  lemma {:induction false} ConvolutionTermsA(A: Matrix, B: Matrix, g: Geometry, q: seq<Term>, d: int,
                                             u: int, a: nat, J: nat, k0: nat, colB: int)
    requires g.Valid() && J <= g.p && k0 < g.m
    requires forall j :: 0 <= j < g.p ==> PartnerOfRow(g, q, d, At(B, g.RowStart(j) + u, colB), j, k0)
    ensures Convolution(TermsA(A, g, J, u, a), q, d)
         == Sum(J, Strided(ColumnProducts(A, B, g.ColStartA(k0) + a, colB), g.SubRows(), u))
  {
    if J > 0 {
      var rows := Strided(ColumnProducts(A, B, g.ColStartA(k0) + a, colB), g.SubRows(), u);
      var prev, row := TermsA(A, g, J - 1, u, a), RowTermsA(A, g, J - 1, g.m, u, a);
      RowContribution(A, B, g, q, d, u, a, J - 1, k0, colB);
      ConvolutionTermsA(A, B, g, q, d, u, a, J - 1, k0, colB);
      assert TermsA(A, g, J, u, a) == prev + row;
      ConvolutionConcat(prev, row, q, d);
      assert Sum(J, rows) == Sum(J - 1, rows) + rows(J - 1);
      assert Convolution(TermsA(A, g, J, u, a), q, d) == Sum(J, rows);
    }
  }

  /** Row block j's share of ConvolutionTermsA: the product in row j*s/p + u. */
  lemma RowContribution(A: Matrix, B: Matrix, g: Geometry, q: seq<Term>, d: int,
                        u: int, a: nat, j: nat, k0: nat, colB: int)
    requires g.Valid() && j < g.p && k0 < g.m
    requires PartnerOfRow(g, q, d, At(B, g.RowStart(j) + u, colB), j, k0)
    ensures Convolution(RowTermsA(A, g, j, g.m, u, a), q, d)
         == Strided(ColumnProducts(A, B, g.ColStartA(k0) + a, colB), g.SubRows(), u)(j)
  {
    ConvolutionRowTermsA(A, g, q, d, At(B, g.RowStart(j) + u, colB), u, a, j, g.m, k0);
    StridedColumnProducts(A, B, g.ColStartA(k0) + a, colB, g.SubRows(), u, j);
  }

  /**
   * Row u's product Ã[u][a] * B̃[u][b] contributes to the target degree of
   * block (k0, k1) exactly the products A[w][colA] * B[w][colB] over the rows
   * w = j*s/p + u, one per row block j.
   */
  lemma RowConvolution(A: Matrix, B: Matrix, g: Geometry, u: int, a: nat, b: nat, k0: nat, k1: nat)
    requires g.Valid() && k0 < g.m && k1 < g.n
    ensures Convolution(PolyA(A, g, u, a), PolyB(B, g, u, b), TargetDegree(g.p, g.m, k0, k1))
         == Sum(g.p, Strided(ColumnProducts(A, B, g.ColStartA(k0) + a, g.ColStartB(k1) + b), g.SubRows(), u))
  {
    var q, d, colB := PolyB(B, g, u, b), TargetDegree(g.p, g.m, k0, k1), g.ColStartB(k1) + b;
    forall j | 0 <= j < g.p
      ensures PartnerOfRow(g, q, d, At(B, g.RowStart(j) + u, colB), j, k0)
    {
      forall k | 0 <= k < g.m
        ensures Coefficient(q, d - ExpA(g.p, j, k)) == if k == k0 then At(B, g.RowStart(j) + u, colB) else 0
      {
        CoefficientTermsB(B, g, u, b, g.p, j, k, k0, k1);
      }
    }
    ConvolutionTermsA(A, B, g, q, d, u, a, g.p, k0, colB);
  }

  /**
   * The coefficient of degree p-1 + k0*p + k1*p*m of Ã(x)^T B̃(x) at cell
   * (a, b) is cell (a, b) of block (k0, k1) of A^T . B: every cross term
   * lands on another degree.
   */
  lemma ProductCoefficient(A: Matrix, B: Matrix, g: Geometry, a: nat, b: nat, k0: nat, k1: nat)
    requires g.Valid() && k0 < g.m && k1 < g.n
    ensures Coefficient(ProductPoly(A, B, g, a, b), TargetDegree(g.p, g.m, k0, k1))
         == TransposeProductAt(A, B, g.s, g.ColStartA(k0) + a, g.ColStartB(k1) + b)
  {
    var h := ColumnProducts(A, B, g.ColStartA(k0) + a, g.ColStartB(k1) + b);
    var pa, pb, d := RowPolysA(A, g, a), RowPolysB(B, g, b), TargetDegree(g.p, g.m, k0, k1);
    forall u | 0 <= u < g.SubRows()
      ensures BlockSums(h, g.SubRows(), g.p)(u) == Convolution(pa(u), pb(u), d)
    {
      RowConvolution(A, B, g, u, a, b, k0, k1);
    }
    CoefficientMulSum(pa, pb, g.SubRows(), d, BlockSums(h, g.SubRows(), g.p));
    SumBlocks(h, g.SubRows(), g.p);
    BlockSizes(g);
  }

  /**
   * Evaluated at n_needed distinct ordinals, the worker results determine the
   * product polynomial: its dense coefficients interpolate the samples of
   * every cell.
   */
  lemma ProductInterpolates(A: Matrix, B: Matrix, g: Geometry, xs: seq<int>, results: seq<Matrix>, a: nat, b: nat)
    requires g.Valid()
    requires |results| == |xs| == NNeeded(g.p, g.m, g.n)
    requires forall i :: 0 <= i < |xs| ==> results[i] == WorkerResult(A, B, g, xs[i])
    requires a < g.SubColsA() && b < g.SubColsB()
    ensures Interpolates(Dense(ProductPoly(A, B, g, a, b), |xs|), xs, CellSamples(results, a, b))
  {
    var ts := ProductPoly(A, B, g, a, b);
    ProductDegree(A, B, g, a, b);
    forall i | 0 <= i < |xs|
      ensures PolyVal(Dense(ts, |xs|), xs[i]) == CellSamples(results, a, b)[i]
    {
      PolyValDense(ts, |xs|, xs[i]);
      WorkerCellIsProductValue(A, B, g, xs[i], a, b);
    }
  }

  /**
   * With exact interpolation through the samples of cell (a, b), the decoder's
   * coefficient for block (k0, k1) is cell (a, b) of that block of A^T . B.
   */
  lemma RecoveredBlockCell(A: Matrix, B: Matrix, g: Geometry, xs: seq<int>, results: seq<Matrix>,
                           cs: seq<int>, a: nat, b: nat, k0: nat, k1: nat)
    requires g.Valid()
    requires |results| == |xs| == NNeeded(g.p, g.m, g.n) && Distinct(xs)
    requires forall i :: 0 <= i < |xs| ==> results[i] == WorkerResult(A, B, g, xs[i])
    requires a < g.SubColsA() && b < g.SubColsB() && k0 < g.m && k1 < g.n
    requires Interpolates(cs, xs, CellSamples(results, a, b))
    ensures TargetDegree(g.p, g.m, k0, k1) < |cs|
    ensures cs[|cs| - 1 - TargetDegree(g.p, g.m, k0, k1)]
         == TransposeProductAt(A, B, g.s, g.ColStartA(k0) + a, g.ColStartB(k1) + b)
  {
    var ts := ProductPoly(A, B, g, a, b);
    ProductInterpolates(A, B, g, xs, results, a, b);
    InterpolationUnique(cs, Dense(ts, |xs|), xs, CellSamples(results, a, b));
    TargetDegrees(g.p, g.m, g.n, k0, k1, k0, k1);
    ProductCoefficient(A, B, g, a, b, k0, k1);
  }

  /** The results of n_needed workers, with exact interpolation, meet what the decoder needs. */
  lemma WorkerResultsDecodable(A: Matrix, B: Matrix, g: Geometry, xs: seq<int>, results: seq<Matrix>,
                               interp: Interpolator)
    requires g.Valid()
    requires |results| == |xs| == NNeeded(g.p, g.m, g.n)
    requires forall i :: 0 <= i < |xs| ==> results[i] == WorkerResult(A, B, g, xs[i])
    requires forall a, b :: 0 <= a < g.SubColsA() && 0 <= b < g.SubColsB() ==>
      Interpolates(interp(xs, CellSamples(results, a, b)), xs, CellSamples(results, a, b))
    ensures DecodeInputs(results, xs, g.r, g.t, g.p, g.m, g.n, interp)
  {
  }

  /**
   * Round trip: if the ordinals are distinct and the interpolation is exact,
   * decoding the results of n_needed workers gives every cell of A^T . B.
   */
  lemma DecodeRoundTrip(A: Matrix, B: Matrix, g: Geometry, xs: seq<int>, results: seq<Matrix>,
                        interp: Interpolator, row: nat, col: nat)
    requires g.Valid()
    requires |results| == |xs| == NNeeded(g.p, g.m, g.n) && Distinct(xs)
    requires forall i :: 0 <= i < |xs| ==> results[i] == WorkerResult(A, B, g, xs[i])
    requires forall a, b :: 0 <= a < g.SubColsA() && 0 <= b < g.SubColsB() ==>
      Interpolates(interp(xs, CellSamples(results, a, b)), xs, CellSamples(results, a, b))
    requires row < g.r && col < g.t
    ensures DecodeInputs(results, xs, g.r, g.t, g.p, g.m, g.n, interp)
    ensures DecodedAt(results, xs, g.r, g.t, g.p, g.m, g.n, interp, row, col)
         == TransposeProductAt(A, B, g.s, row, col)
  {
    WorkerResultsDecodable(A, B, g, xs, results, interp);
    var sc, scB := g.SubColsA(), g.SubColsB();
    BlockSizes(g);
    BlockOffset(row, sc, g.m);
    BlockOffset(col, scB, g.n);
    var a, b, k0, k1 := row % sc, col % scB, row / sc, col / scB;
    RecoveredBlockCell(A, B, g, xs, results, interp(xs, CellSamples(results, a, b)), a, b, k0, k1);
  }

  /**
   * As written, the decoder indexes the coefficients numpy returns, and numpy
   * drops leading zeros. A cell whose samples are all zero (every cell, when A
   * is the zero matrix) interpolates to the zero polynomial, which numpy keeps
   * as the single coefficient 0; the index read for block (0, 0) is then past
   * its end whenever p*m*n >= 2.
   */
  lemma AsWrittenZeroCellTooShort(xs: seq<int>, cs: seq<int>, p: nat, m: nat, n: nat)
    requires p > 0 && m > 0 && n > 0 && p * m * n >= 2
    requires |xs| == NNeeded(p, m, n) && Distinct(xs)
    requires Interpolates(cs, xs, Zeros(|xs|))
    ensures TrimLeadingZeros(cs) == [0]
    ensures |xs| - 1 - TargetDegree(p, m, 0, 0) >= |TrimLeadingZeros(cs)|
  {
    var zeros := Zeros(|xs|);
    forall i | 0 <= i < |xs|
      ensures PolyVal(zeros, xs[i]) == zeros[i]
    {
      PolyValZero(zeros, xs[i]);
    }
    InterpolationUnique(cs, zeros, xs, zeros);
  }

  /** results and xs both reordered by the index map perm. */
  function Reorder<T>(s: seq<T>, perm: seq<nat>): (s': seq<T>)
    requires forall i :: 0 <= i < |perm| ==> perm[i] < |s|
    ensures |s'| == |perm| && forall i :: 0 <= i < |perm| ==> s'[i] == s[perm[i]]
  {
    seq(|perm|, i requires 0 <= i < |perm| => s[perm[i]])
  }

  /**
   * The order in which results arrive does not matter: with the same results
   * and ordinals in any other order, exact interpolation decodes every cell to
   * the same value.
   */
  lemma DecodeOrderInvariant(results: seq<Matrix>, xs: seq<int>, perm: seq<nat>,
                             r: nat, t: nat, p: nat, m: nat, n: nat, interp: Interpolator, row: nat, col: nat)
    requires DecodeInputs(results, xs, r, t, p, m, n, interp) && Distinct(xs)
    requires |perm| == |xs| && forall i :: 0 <= i < |perm| ==> perm[i] < |xs|
    requires forall i, j :: 0 <= i < j < |perm| ==> perm[i] != perm[j]
    requires forall a, b :: 0 <= a < r / m && 0 <= b < t / n ==>
      Interpolates(interp(xs, CellSamples(results, a, b)), xs, CellSamples(results, a, b))
    requires forall a, b :: 0 <= a < r / m && 0 <= b < t / n ==>
      Interpolates(interp(Reorder(xs, perm), CellSamples(Reorder(results, perm), a, b)),
                   Reorder(xs, perm), CellSamples(Reorder(results, perm), a, b))
    requires row < r && col < t
    ensures DecodeInputs(Reorder(results, perm), Reorder(xs, perm), r, t, p, m, n, interp)
    ensures DecodedAt(Reorder(results, perm), Reorder(xs, perm), r, t, p, m, n, interp, row, col)
         == DecodedAt(results, xs, r, t, p, m, n, interp, row, col)
  {
    var results', xs' := Reorder(results, perm), Reorder(xs, perm);
    var a, b := row % (r / m), col % (t / n);
    BlockIndex(row, r / m, m);
    BlockIndex(col, t / n, n);
    var ys, ys' := CellSamples(results, a, b), CellSamples(results', a, b);
    var cs := interp(xs, ys);
    forall i | 0 <= i < |xs'|
      ensures PolyVal(cs, xs'[i]) == ys'[i]
    {
      assert xs'[i] == xs[perm[i]] && ys'[i] == ys[perm[i]];
    }
    assert Interpolates(cs, xs', ys');
    forall i, j | 0 <= i < j < |xs'|
      ensures xs'[i] != xs'[j]
    {
      if perm[i] < perm[j] {
        assert xs[perm[i]] != xs[perm[j]];
      } else {
        assert xs[perm[j]] != xs[perm[i]];
      }
    }
    InterpolationUnique(cs, interp(xs', ys'), xs', ys');
  }
}
