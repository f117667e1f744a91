/**
 * The coordinator's encoder (poly_encode). For every worker ordinal i it
 * builds A_i = sum over j < p, k < m of A_{j,k} * i^(j + k*p) and
 * B_i = sum over j < p, k < n of B_{j,k} * i^(p-1-j + k*p*m), where A_{j,k}
 * is row block j, column block k of A (and likewise for B).
 */
module Encoder {
  import opened Algebra
  import opened Matrices
  import opened Partitioner
  import opened Polynomials

  /**
   * Entry (u, c) of A_{j,k} x^(j + k*p) for the first K column blocks k of
   * row block j.
   */
  function RowTermsA(A: Matrix, g: Geometry, j: nat, K: nat, u: int, c: nat): (ts: seq<Term>)
    requires g.Valid()
  {
    if K == 0 then []
    else RowTermsA(A, g, j, K - 1, u, c)
         + [Term(ExpA(g.p, j, K - 1), At(A, g.RowStart(j) + u, g.ColStartA(K - 1) + c))]
  }

  /** The terms of the first J row blocks of A, every column block of each. */
  function TermsA(A: Matrix, g: Geometry, J: nat, u: int, c: nat): (ts: seq<Term>)
    requires g.Valid()
  {
    if J == 0 then [] else TermsA(A, g, J - 1, u, c) + RowTermsA(A, g, J - 1, g.m, u, c)
  }

  /** Entry (u, c) of the encoding polynomial of A, as a polynomial in x. */
  function PolyA(A: Matrix, g: Geometry, u: int, c: nat): (ts: seq<Term>)
    requires g.Valid()
  {
    TermsA(A, g, g.p, u, c)
  }

  /** Entry (u, c) of the encoded block A_x sent to the worker with ordinal x. */
  function EncodedA(A: Matrix, g: Geometry, x: int, u: int, c: nat): (v: int)
    requires g.Valid()
  {
    Eval(PolyA(A, g, u, c), x)
  }

  /**
   * Entry (u, c) of B_{j,k} x^(p-1-j + k*p*m) for the first K column blocks k
   * of row block j.
   */
  function RowTermsB(B: Matrix, g: Geometry, j: nat, K: nat, u: int, c: nat): (ts: seq<Term>)
    requires g.Valid() && j < g.p
  {
    if K == 0 then []
    else RowTermsB(B, g, j, K - 1, u, c)
         + [Term(ExpB(g.p, g.m, j, K - 1), At(B, g.RowStart(j) + u, g.ColStartB(K - 1) + c))]
  }

  /** The terms of the first J row blocks of B, every column block of each. */
  function TermsB(B: Matrix, g: Geometry, J: nat, u: int, c: nat): (ts: seq<Term>)
    requires g.Valid() && J <= g.p
  {
    if J == 0 then [] else TermsB(B, g, J - 1, u, c) + RowTermsB(B, g, J - 1, g.n, u, c)
  }

  /** Entry (u, c) of the encoding polynomial of B, as a polynomial in x. */
  function PolyB(B: Matrix, g: Geometry, u: int, c: nat): (ts: seq<Term>)
    requires g.Valid()
  {
    TermsB(B, g, g.p, u, c)
  }

  /** Entry (u, c) of the encoded block B_x sent to the worker with ordinal x. */
  function EncodedB(B: Matrix, g: Geometry, x: int, u: int, c: nat): (v: int)
    requires g.Valid()
  {
    Eval(PolyB(B, g, u, c), x)
  }

  /**
   * The in-place `out[i] += M[row0 : row0 + rows, col0 : col0 + cols] * w` of
   * the encoder, where rows and cols are the block shape of out.
   */
  method AddScaledBlock(out: array3<int>, i: nat, M: Matrix, row0: nat, col0: nat, w: int)
    requires i < out.Length0
    modifies out
    ensures forall i', u, c :: 0 <= i' < out.Length0 && i' != i && 0 <= u < out.Length1 && 0 <= c < out.Length2 ==>
      out[i', u, c] == old(out[i', u, c])
    ensures forall u, c :: 0 <= u < out.Length1 && 0 <= c < out.Length2 ==>
      out[i, u, c] == old(out[i, u, c]) + At(M, row0 + u, col0 + c) * w
  {
    var u := 0;
    while u < out.Length1
      invariant 0 <= u <= out.Length1
      invariant forall i', u', c :: 0 <= i' < out.Length0 && 0 <= u' < out.Length1 && 0 <= c < out.Length2 ==>
        out[i', u', c] == if i' == i && u' < u then old(out[i', u', c]) + At(M, row0 + u', col0 + c) * w
                          else old(out[i', u', c])
    {
      var c := 0;
      while c < out.Length2
        invariant 0 <= c <= out.Length2
        invariant forall i', u', c' :: 0 <= i' < out.Length0 && 0 <= u' < out.Length1 && 0 <= c' < out.Length2 ==>
          out[i', u', c'] == if i' == i && (u' < u || (u' == u && c' < c))
                             then old(out[i', u', c']) + At(M, row0 + u', col0 + c') * w
                             else old(out[i', u', c'])
      {
        out[i, u, c] := out[i, u, c] + At(M, row0 + u, col0 + c) * w;
        c := c + 1;
      }
      u := u + 1;
    }
  }

  lemma RowStepA(A: Matrix, g: Geometry, j: nat, k: nat, u: nat, c: nat, x: int)
    requires g.Valid()
    ensures Eval(RowTermsA(A, g, j, k + 1, u, c), x)
         == Eval(RowTermsA(A, g, j, k, u, c), x)
            + At(A, g.RowStart(j) + u, g.ColStartA(k) + c) * Pow(x, ExpA(g.p, j, k))
  {
    EvalSnoc(RowTermsA(A, g, j, k, u, c), Term(ExpA(g.p, j, k), At(A, g.RowStart(j) + u, g.ColStartA(k) + c)), x);
  }

  lemma RowStepB(B: Matrix, g: Geometry, j: nat, k: nat, u: nat, c: nat, x: int)
    requires g.Valid() && j < g.p
    ensures Eval(RowTermsB(B, g, j, k + 1, u, c), x)
         == Eval(RowTermsB(B, g, j, k, u, c), x)
            + At(B, g.RowStart(j) + u, g.ColStartB(k) + c) * Pow(x, ExpB(g.p, g.m, j, k))
  {
    EvalSnoc(RowTermsB(B, g, j, k, u, c), Term(ExpB(g.p, g.m, j, k), At(B, g.RowStart(j) + u, g.ColStartB(k) + c)), x);
  }

  /**
   * One pass of the k loop over the column blocks of A in row block j:
   * all_A_i[i] += A_{j,k} * i^(j + k*p) for every k < m.
   */
  method AccumulateRowBlockA(allA: array3<int>, i: nat, A: Matrix, g: Geometry, j: nat)
    requires g.Valid() && i < allA.Length0
    modifies allA
    ensures forall i', u, c :: 0 <= i' < allA.Length0 && i' != i && 0 <= u < allA.Length1 && 0 <= c < allA.Length2 ==>
      allA[i', u, c] == old(allA[i', u, c])
    ensures forall u, c :: 0 <= u < allA.Length1 && 0 <= c < allA.Length2 ==>
      allA[i, u, c] == old(allA[i, u, c]) + Eval(RowTermsA(A, g, j, g.m, u, c), i)
  {
    var k := 0;
    while k < g.m
      invariant 0 <= k <= g.m
      invariant forall i', u, c :: 0 <= i' < allA.Length0 && 0 <= u < allA.Length1 && 0 <= c < allA.Length2 ==>
        allA[i', u, c] == if i' == i then old(allA[i', u, c]) + Eval(RowTermsA(A, g, j, k, u, c), i)
                          else old(allA[i', u, c])
    {
      AddScaledBlock(allA, i, A, g.RowStart(j), g.ColStartA(k), Pow(i, ExpA(g.p, j, k)));
      forall u, c | 0 <= u < allA.Length1 && 0 <= c < allA.Length2
        ensures Eval(RowTermsA(A, g, j, k + 1, u, c), i)
             == Eval(RowTermsA(A, g, j, k, u, c), i)
                + At(A, g.RowStart(j) + u, g.ColStartA(k) + c) * Pow(i, ExpA(g.p, j, k))
      {
        RowStepA(A, g, j, k, u, c, i);
      }
      k := k + 1;
    }
  }

  /**
   * One pass of the k loop over the column blocks of B in row block j:
   * all_B_i[i] += B_{j,k} * i^(p-1-j + k*p*m) for every k < n.
   */
  method AccumulateRowBlockB(allB: array3<int>, i: nat, B: Matrix, g: Geometry, j: nat)
    requires g.Valid() && j < g.p && i < allB.Length0
    modifies allB
    ensures forall i', u, c :: 0 <= i' < allB.Length0 && i' != i && 0 <= u < allB.Length1 && 0 <= c < allB.Length2 ==>
      allB[i', u, c] == old(allB[i', u, c])
    ensures forall u, c :: 0 <= u < allB.Length1 && 0 <= c < allB.Length2 ==>
      allB[i, u, c] == old(allB[i, u, c]) + Eval(RowTermsB(B, g, j, g.n, u, c), i)
  {
    var k := 0;
    while k < g.n
      invariant 0 <= k <= g.n
      invariant forall i', u, c :: 0 <= i' < allB.Length0 && 0 <= u < allB.Length1 && 0 <= c < allB.Length2 ==>
        allB[i', u, c] == if i' == i then old(allB[i', u, c]) + Eval(RowTermsB(B, g, j, k, u, c), i)
                          else old(allB[i', u, c])
    {
      AddScaledBlock(allB, i, B, g.RowStart(j), g.ColStartB(k), Pow(i, ExpB(g.p, g.m, j, k)));
      forall u, c | 0 <= u < allB.Length1 && 0 <= c < allB.Length2
        ensures Eval(RowTermsB(B, g, j, k + 1, u, c), i)
             == Eval(RowTermsB(B, g, j, k, u, c), i)
                + At(B, g.RowStart(j) + u, g.ColStartB(k) + c) * Pow(i, ExpB(g.p, g.m, j, k))
      {
        RowStepB(B, g, j, k, u, c, i);
      }
      k := k + 1;
    }
  }

  /**
   * One pass of the encoder's loop over j: the k loop over A's column blocks,
   * then the k loop over B's.
   */
  method EncodeRowBlock(allA: array3<int>, allB: array3<int>, i: nat, A: Matrix, B: Matrix, g: Geometry, j: nat)
    requires g.Valid() && allA != allB && j < g.p
    requires i < allA.Length0 && i < allB.Length0
    modifies allA, allB
    ensures forall i', u, c :: 0 <= i' < allA.Length0 && i' != i && 0 <= u < allA.Length1 && 0 <= c < allA.Length2 ==>
      allA[i', u, c] == old(allA[i', u, c])
    ensures forall u, c :: 0 <= u < allA.Length1 && 0 <= c < allA.Length2 ==>
      allA[i, u, c] == old(allA[i, u, c]) + Eval(RowTermsA(A, g, j, g.m, u, c), i)
    ensures forall i', u, c :: 0 <= i' < allB.Length0 && i' != i && 0 <= u < allB.Length1 && 0 <= c < allB.Length2 ==>
      allB[i', u, c] == old(allB[i', u, c])
    ensures forall u, c :: 0 <= u < allB.Length1 && 0 <= c < allB.Length2 ==>
      allB[i, u, c] == old(allB[i, u, c]) + Eval(RowTermsB(B, g, j, g.n, u, c), i)
  {
    AccumulateRowBlockA(allA, i, A, g, j);
    AccumulateRowBlockB(allB, i, B, g, j);
  }

  /** Row block j adds its own terms to the encoding of A. */
  lemma TermsStepA(A: Matrix, g: Geometry, j: nat, x: int)
    requires g.Valid()
    ensures forall u, c: nat :: Eval(TermsA(A, g, j + 1, u, c), x)
                               == Eval(TermsA(A, g, j, u, c), x) + Eval(RowTermsA(A, g, j, g.m, u, c), x)
  {
    forall u, c: nat
      ensures Eval(TermsA(A, g, j + 1, u, c), x)
           == Eval(TermsA(A, g, j, u, c), x) + Eval(RowTermsA(A, g, j, g.m, u, c), x)
    {
      EvalConcat(TermsA(A, g, j, u, c), RowTermsA(A, g, j, g.m, u, c), x);
    }
  }

  /** Row block j adds its own terms to the encoding of B. */
  lemma TermsStepB(B: Matrix, g: Geometry, j: nat, x: int)
    requires g.Valid() && j < g.p
    ensures forall u, c: nat :: Eval(TermsB(B, g, j + 1, u, c), x)
                               == Eval(TermsB(B, g, j, u, c), x) + Eval(RowTermsB(B, g, j, g.n, u, c), x)
  {
    forall u, c: nat
      ensures Eval(TermsB(B, g, j + 1, u, c), x)
           == Eval(TermsB(B, g, j, u, c), x) + Eval(RowTermsB(B, g, j, g.n, u, c), x)
    {
      EvalConcat(TermsB(B, g, j, u, c), RowTermsB(B, g, j, g.n, u, c), x);
    }
  }

  /**
   * The body of the encoder's loop over i: the j loop that adds every block
   * of A and of B, weighted by its power of i, to worker i's two blocks.
   */
  method EncodeWorker(allA: array3<int>, allB: array3<int>, i: nat, A: Matrix, B: Matrix, g: Geometry)
    requires g.Valid() && allA != allB
    requires i < allA.Length0 && i < allB.Length0
    modifies allA, allB
    ensures forall i', u, c :: 0 <= i' < allA.Length0 && i' != i && 0 <= u < allA.Length1 && 0 <= c < allA.Length2 ==>
      allA[i', u, c] == old(allA[i', u, c])
    ensures forall u, c :: 0 <= u < allA.Length1 && 0 <= c < allA.Length2 ==>
      allA[i, u, c] == old(allA[i, u, c]) + EncodedA(A, g, i, u, c)
    ensures forall i', u, c :: 0 <= i' < allB.Length0 && i' != i && 0 <= u < allB.Length1 && 0 <= c < allB.Length2 ==>
      allB[i', u, c] == old(allB[i', u, c])
    ensures forall u, c :: 0 <= u < allB.Length1 && 0 <= c < allB.Length2 ==>
      allB[i, u, c] == old(allB[i, u, c]) + EncodedB(B, g, i, u, c)
  {
    var j := 0;
    while j < g.p
      invariant 0 <= j <= g.p
      invariant forall i', u, c :: 0 <= i' < allA.Length0 && i' != i && 0 <= u < allA.Length1 && 0 <= c < allA.Length2 ==>
        allA[i', u, c] == old(allA[i', u, c])
      invariant forall u, c :: 0 <= u < allA.Length1 && 0 <= c < allA.Length2 ==>
        allA[i, u, c] == old(allA[i, u, c]) + Eval(TermsA(A, g, j, u, c), i)
      invariant forall i', u, c :: 0 <= i' < allB.Length0 && i' != i && 0 <= u < allB.Length1 && 0 <= c < allB.Length2 ==>
        allB[i', u, c] == old(allB[i', u, c])
      invariant forall u, c :: 0 <= u < allB.Length1 && 0 <= c < allB.Length2 ==>
        allB[i, u, c] == old(allB[i, u, c]) + Eval(TermsB(B, g, j, u, c), i)
    {
      EncodeRowBlock(allA, allB, i, A, B, g, j);
      TermsStepA(A, g, j, i);
      TermsStepB(B, g, j, i);
      j := j + 1;
    }
  }

  /**
   * poly_encode: all_A_i and all_B_i start at zero, and worker i's blocks
   * become the encoding polynomials of A and B evaluated at x = i.
   */
  method Encode(A: Matrix, B: Matrix, nWorkers: nat, r: nat, s: nat, t: nat, p: nat, m: nat, n: nat)
    returns (allA: array3<int>, allB: array3<int>)
    requires Geometry(r, s, t, p, m, n).Valid()
    requires IsMatrix(A, s, r) && IsMatrix(B, s, t)
    ensures fresh(allA) && fresh(allB)
    ensures allA.Length0 == nWorkers && allA.Length1 == s / p && allA.Length2 == r / m
    ensures allB.Length0 == nWorkers && allB.Length1 == s / p && allB.Length2 == t / n
    ensures forall i, u, c :: 0 <= i < nWorkers && 0 <= u < s / p && 0 <= c < r / m ==>
      allA[i, u, c] == EncodedA(A, Geometry(r, s, t, p, m, n), i, u, c)
    ensures forall i, u, c :: 0 <= i < nWorkers && 0 <= u < s / p && 0 <= c < t / n ==>
      allB[i, u, c] == EncodedB(B, Geometry(r, s, t, p, m, n), i, u, c)
  {
    var g := Geometry(r, s, t, p, m, n);
    allA := new int[nWorkers, s / p, r / m]((_, _, _) => 0);
    allB := new int[nWorkers, s / p, t / n]((_, _, _) => 0);
    var i := 0;
    while i < nWorkers
      invariant 0 <= i <= nWorkers
      invariant forall i', u, c :: 0 <= i' < nWorkers && 0 <= u < s / p && 0 <= c < r / m ==>
        allA[i', u, c] == if i' < i then EncodedA(A, g, i', u, c) else 0
      invariant forall i', u, c :: 0 <= i' < nWorkers && 0 <= u < s / p && 0 <= c < t / n ==>
        allB[i', u, c] == if i' < i then EncodedB(B, g, i', u, c) else 0
    {
      EncodeWorker(allA, allB, i, A, B, g);
      i := i + 1;
    }
  }

  /** Constant coefficient of row block j's terms of A: only A_{0,0} has exponent 0. */
  lemma {:induction false} RowTermsAAtZero(A: Matrix, g: Geometry, j: nat, K: nat, u: nat, c: nat)
    requires g.Valid()
    ensures Coefficient(RowTermsA(A, g, j, K, u, c), 0) == if j == 0 && K > 0 then At(A, u, c) else 0
  {
    if K > 0 {
      var prev := RowTermsA(A, g, j, K - 1, u, c);
      var t := Term(ExpA(g.p, j, K - 1), At(A, g.RowStart(j) + u, g.ColStartA(K - 1) + c));
      assert RowTermsA(A, g, j, K, u, c) == prev + [t];
      RowTermsAAtZero(A, g, j, K - 1, u, c);
      CoefficientSnoc(prev, t, 0);
      ExpAZero(g.p, j, K - 1);
      if j == 0 && K == 1 {
        assert g.RowStart(0) == 0 && g.ColStartA(0) == 0;
      }
    }
  }

  lemma {:induction false} TermsAAtZero(A: Matrix, g: Geometry, J: nat, u: nat, c: nat)
    requires g.Valid()
    ensures Coefficient(TermsA(A, g, J, u, c), 0) == if J > 0 then At(A, u, c) else 0
  {
    if J > 0 {
      TermsAAtZero(A, g, J - 1, u, c);
      CoefficientConcat(TermsA(A, g, J - 1, u, c), RowTermsA(A, g, J - 1, g.m, u, c), 0);
      RowTermsAAtZero(A, g, J - 1, g.m, u, c);
    }
  }

  /** Constant coefficient of row block j's terms of B: only B_{p-1,0} has exponent 0. */
  lemma {:induction false} RowTermsBAtZero(B: Matrix, g: Geometry, j: nat, K: nat, u: nat, c: nat)
    requires g.Valid() && j < g.p
    ensures Coefficient(RowTermsB(B, g, j, K, u, c), 0)
         == if j == g.p - 1 && K > 0 then At(B, g.RowStart(g.p - 1) + u, c) else 0
  {
    if K > 0 {
      var prev := RowTermsB(B, g, j, K - 1, u, c);
      var t := Term(ExpB(g.p, g.m, j, K - 1), At(B, g.RowStart(j) + u, g.ColStartB(K - 1) + c));
      assert RowTermsB(B, g, j, K, u, c) == prev + [t];
      RowTermsBAtZero(B, g, j, K - 1, u, c);
      CoefficientSnoc(prev, t, 0);
      ExpBZero(g.p, g.m, j, K - 1);
      if K == 1 {
        assert g.ColStartB(0) == 0;
      }
    }
  }

  lemma {:induction false} TermsBAtZero(B: Matrix, g: Geometry, J: nat, u: nat, c: nat)
    requires g.Valid() && J <= g.p
    ensures Coefficient(TermsB(B, g, J, u, c), 0) == if J == g.p then At(B, g.RowStart(g.p - 1) + u, c) else 0
  {
    if J > 0 {
      TermsBAtZero(B, g, J - 1, u, c);
      CoefficientConcat(TermsB(B, g, J - 1, u, c), RowTermsB(B, g, J - 1, g.n, u, c), 0);
      RowTermsBAtZero(B, g, J - 1, g.n, u, c);
    }
  }

  /**
   * At ordinal 0 only the zero-exponent terms survive: worker 0 is sent block
   * A_{0,0} and block B_{p-1,0}.
   */
  lemma EncodedAtZero(A: Matrix, B: Matrix, g: Geometry, u: nat, c: nat)
    requires g.Valid()
    ensures EncodedA(A, g, 0, u, c) == At(A, u, c)
    ensures EncodedB(B, g, 0, u, c) == At(B, g.RowStart(g.p - 1) + u, c)
  {
    EvalAtZero(PolyA(A, g, u, c));
    TermsAAtZero(A, g, g.p, u, c);
    EvalAtZero(PolyB(B, g, u, c));
    TermsBAtZero(B, g, g.p, u, c);
  }

  lemma {:induction false} DegreeRowTermsA(A: Matrix, g: Geometry, j: nat, K: nat, u: nat, c: nat)
    requires g.Valid() && j < g.p && K <= g.m
    ensures DegreeBelow(RowTermsA(A, g, j, K, u, c), g.p * g.m)
  {
    if K > 0 {
      var t := Term(ExpA(g.p, j, K - 1), At(A, g.RowStart(j) + u, g.ColStartA(K - 1) + c));
      assert RowTermsA(A, g, j, K, u, c) == RowTermsA(A, g, j, K - 1, u, c) + [t];
      DegreeRowTermsA(A, g, j, K - 1, u, c);
      ExponentBounds(g.p, g.m, g.n, j, K - 1, 0);
      DegreeConcat(RowTermsA(A, g, j, K - 1, u, c), [t], g.p * g.m);
    }
  }

  lemma {:induction false} DegreeTermsA(A: Matrix, g: Geometry, J: nat, u: nat, c: nat)
    requires g.Valid() && J <= g.p
    ensures DegreeBelow(TermsA(A, g, J, u, c), g.p * g.m)
  {
    if J > 0 {
      DegreeTermsA(A, g, J - 1, u, c);
      DegreeRowTermsA(A, g, J - 1, g.m, u, c);
      DegreeConcat(TermsA(A, g, J - 1, u, c), RowTermsA(A, g, J - 1, g.m, u, c), g.p * g.m);
    }
  }

  lemma {:induction false} DegreeRowTermsB(B: Matrix, g: Geometry, j: nat, K: nat, u: nat, c: nat)
    requires g.Valid() && j < g.p && K <= g.n
    ensures DegreeBelow(RowTermsB(B, g, j, K, u, c), DegreeBoundB(g.p, g.m, g.n))
  {
    if K > 0 {
      var t := Term(ExpB(g.p, g.m, j, K - 1), At(B, g.RowStart(j) + u, g.ColStartB(K - 1) + c));
      assert RowTermsB(B, g, j, K, u, c) == RowTermsB(B, g, j, K - 1, u, c) + [t];
      DegreeRowTermsB(B, g, j, K - 1, u, c);
      ExponentBounds(g.p, g.m, g.n, j, 0, K - 1);
      DegreeConcat(RowTermsB(B, g, j, K - 1, u, c), [t], DegreeBoundB(g.p, g.m, g.n));
    }
  }

  lemma {:induction false} DegreeTermsB(B: Matrix, g: Geometry, J: nat, u: nat, c: nat)
    requires g.Valid() && J <= g.p
    ensures DegreeBelow(TermsB(B, g, J, u, c), DegreeBoundB(g.p, g.m, g.n))
  {
    if J > 0 {
      DegreeTermsB(B, g, J - 1, u, c);
      DegreeRowTermsB(B, g, J - 1, g.n, u, c);
      DegreeConcat(TermsB(B, g, J - 1, u, c), RowTermsB(B, g, J - 1, g.n, u, c), DegreeBoundB(g.p, g.m, g.n));
    }
  }

  /**
   * The encoding polynomial of A has degree at most (p-1) + (m-1)*p, that of
   * B at most (p-1) + (n-1)*p*m.
   */
  lemma EncodingDegrees(A: Matrix, B: Matrix, g: Geometry, u: nat, c: nat, c': nat)
    requires g.Valid()
    ensures DegreeBelow(PolyA(A, g, u, c), g.p * g.m)
    ensures DegreeBelow(PolyB(B, g, u, c'), DegreeBoundB(g.p, g.m, g.n))
  {
    DegreeTermsA(A, g, g.p, u, c);
    DegreeTermsB(B, g, g.p, u, c');
  }
}
