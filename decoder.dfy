/**
 * The master's decoding step: for every cell (a, b) of a worker's result,
 * interpolate the polynomial through the collected values of that cell and
 * read the cells of every output block C_{k,k1} off its coefficients.
 */
module Decoder {
  import opened Algebra
  import opened Matrices
  import opened Partitioner

  /**
   * Polynomial interpolation through the points (xs[i], ys[i]): the
   * coefficients of the interpolating polynomial, highest degree first.
   * The master computes it with a floating-point Lagrange routine followed by
   * rounding; the model takes it as a parameter.
   */
  type Interpolator = (seq<int>, seq<int>) -> seq<int>

  /** Cell (a, b) of every collected result, in the order they were collected. */
  function CellSamples(results: seq<Matrix>, a: nat, b: nat): (ys: seq<int>)
    ensures |ys| == |results|
    ensures forall i :: 0 <= i < |results| ==> ys[i] == At(results[i], a, b)
  {
    seq(|results|, i requires 0 <= i < |results| => At(results[i], a, b))
  }

  /**
   * What decoding needs: positive block counts that divide r and t, exactly
   * n_needed collected results of shape (r/m) x (t/n) with one evaluation
   * point each, and an interpolator that returns n_needed coefficients for
   * every cell.
   */
  predicate DecodeInputs(results: seq<Matrix>, xs: seq<int>, r: nat, t: nat, p: nat, m: nat, n: nat,
                         interp: Interpolator)
  {
    p > 0 && m > 0 && n > 0 && r % m == 0 && t % n == 0
    && |results| == NNeeded(p, m, n) && |xs| == |results|
    && (forall i :: 0 <= i < |results| ==> IsMatrix(results[i], r / m, t / n))
    && forall a, b :: 0 <= a < r / m && 0 <= b < t / n ==>
         |interp(xs, CellSamples(results, a, b))| == |results|
  }

  /**
   * Output cell (row, col) lies in block (row / (r/m), col / (t/n)) at offset
   * (row % (r/m), col % (t/n)); it is the coefficient of that block's target
   * degree in the polynomial interpolated through that offset's samples.
   */
  function DecodedAt(results: seq<Matrix>, xs: seq<int>, r: nat, t: nat, p: nat, m: nat, n: nat,
                     interp: Interpolator, row: nat, col: nat): (v: int)
    requires DecodeInputs(results, xs, r, t, p, m, n, interp)
    requires row < r && col < t
  {
    var sc, scB := r / m, t / n;
    BlockIndex(row, sc, m);
    BlockIndex(col, scB, n);
    TargetDegrees(p, m, n, row / sc, col / scB, row / sc, col / scB);
    var cs := interp(xs, CellSamples(results, row % sc, col % scB));
    cs[|results| - 1 - TargetDegree(p, m, row / sc, col / scB)]
  }

  /**
   * Reassembles the r x t product from the collected results. Every cell is
   * written, and each holds the coefficient DecodedAt names for it.
   */
  method Decode(neededC: seq<Matrix>, neededX: seq<int>, aSubcols: nat, bSubcols: nat,
                r: nat, t: nat, p: nat, m: nat, n: nat, interp: Interpolator)
    returns (C: array2<int>)
    requires DecodeInputs(neededC, neededX, r, t, p, m, n, interp)
    ensures fresh(C) && C.Length0 == r && C.Length1 == t
    ensures forall row, col :: 0 <= row < r && 0 <= col < t ==>
      C[row, col] == DecodedAt(neededC, neededX, r, t, p, m, n, interp, row, col)
  {
    var nNeeded := |neededC|;
    // the block sizes passed in are recomputed from r, t, m and n
    var sc, scB := r / m, t / n;
    assert m * sc == r && n * scB == t;
    C := new int[r, t];
    var a := 0;
    while a < sc
      invariant 0 <= a <= sc
      invariant forall row, col :: 0 <= row < r && 0 <= col < t && row % sc < a ==>
        C[row, col] == DecodedAt(neededC, neededX, r, t, p, m, n, interp, row, col)
    {
      var b := 0;
      while b < scB
        invariant 0 <= b <= scB
        invariant forall row, col :: (0 <= row < r && 0 <= col < t
          && (row % sc < a || (row % sc == a && col % scB < b))) ==>
          C[row, col] == DecodedAt(neededC, neededX, r, t, p, m, n, interp, row, col)
      {
        var currPolynomial := interp(neededX, CellSamples(neededC, a, b));
        DecodeCell(C, neededC, neededX, r, t, p, m, n, interp, a, b, currPolynomial);
        b := b + 1;
      }
      a := a + 1;
    }
  }

  /**
   * The k loop for one cell offset (a, b): writes offset (a, b) of every
   * output block from the polynomial interpolated for that offset.
   */
  method DecodeCell(C: array2<int>, neededC: seq<Matrix>, neededX: seq<int>,
                    r: nat, t: nat, p: nat, m: nat, n: nat, interp: Interpolator,
                    a: nat, b: nat, currPolynomial: seq<int>)
    requires DecodeInputs(neededC, neededX, r, t, p, m, n, interp)
    requires C.Length0 == r && C.Length1 == t
    requires a < r / m && b < t / n
    requires currPolynomial == interp(neededX, CellSamples(neededC, a, b))
    modifies C
    ensures forall row, col :: 0 <= row < r && 0 <= col < t ==>
      C[row, col] == if row % (r / m) == a && col % (t / n) == b
                     then DecodedAt(neededC, neededX, r, t, p, m, n, interp, row, col)
                     else old(C[row, col])
  {
    var sc := r / m;
    var k := 0;
    while k < m
      invariant 0 <= k <= m
      invariant forall row, col :: 0 <= row < r && 0 <= col < t ==>
        C[row, col] == if row % sc == a && col % (t / n) == b && row / sc < k
                       then DecodedAt(neededC, neededX, r, t, p, m, n, interp, row, col)
                       else old(C[row, col])
    {
      DecodeBlockRow(C, neededC, neededX, r, t, p, m, n, interp, a, b, k, currPolynomial);
      k := k + 1;
    }
    forall row | 0 <= row < r
      ensures row / sc < m
    {
      BlockIndex(row, sc, m);
    }
  }

  /** The k1 loop: offset (a, b) of the output blocks (k, 0), ..., (k, n - 1). */
  method DecodeBlockRow(C: array2<int>, neededC: seq<Matrix>, neededX: seq<int>,
                        r: nat, t: nat, p: nat, m: nat, n: nat, interp: Interpolator,
                        a: nat, b: nat, k: nat, currPolynomial: seq<int>)
    requires DecodeInputs(neededC, neededX, r, t, p, m, n, interp)
    requires C.Length0 == r && C.Length1 == t
    requires a < r / m && b < t / n && k < m
    requires currPolynomial == interp(neededX, CellSamples(neededC, a, b))
    modifies C
    ensures forall row, col :: 0 <= row < r && 0 <= col < t ==>
      C[row, col] == if row % (r / m) == a && col % (t / n) == b && row / (r / m) == k
                     then DecodedAt(neededC, neededX, r, t, p, m, n, interp, row, col)
                     else old(C[row, col])
  {
    var scB := t / n;
    var k1 := 0;
    while k1 < n
      invariant 0 <= k1 <= n
      invariant forall row, col :: 0 <= row < r && 0 <= col < t ==>
        C[row, col] == if row % (r / m) == a && col % scB == b && row / (r / m) == k && col / scB < k1
                       then DecodedAt(neededC, neededX, r, t, p, m, n, interp, row, col)
                       else old(C[row, col])
    {
      WriteBlockCell(C, neededC, neededX, r, t, p, m, n, interp, a, b, k, k1, currPolynomial);
      k1 := k1 + 1;
    }
    forall col | 0 <= col < t
      ensures col / scB < n
    {
      BlockIndex(col, scB, n);
    }
  }

  /** Output cell (Placement(k, a, r/m), Placement(k1, b, t/n)) and where it sits. */
  lemma CellPosition(r: nat, t: nat, m: nat, n: nat, a: nat, b: nat, k: nat, k1: nat)
    requires m > 0 && n > 0 && r % m == 0 && t % n == 0
    requires a < r / m && b < t / n && k < m && k1 < n
    ensures Placement(k, a, r / m) < r && Placement(k1, b, t / n) < t
    ensures Placement(k, a, r / m) / (r / m) == k && Placement(k, a, r / m) % (r / m) == a
    ensures Placement(k1, b, t / n) / (t / n) == k1 && Placement(k1, b, t / n) % (t / n) == b
  {
    BlockCell(Placement(k, a, r / m), k, a, r / m);
    BlockCell(Placement(k1, b, t / n), k1, b, t / n);
    PlacementInRange(r / m, m, k, a);
    PlacementInRange(t / n, n, k1, b);
  }

  /** Every (block, offset) pair lands inside the output. */
  lemma PlacementInRange(size: nat, count: nat, k: nat, a: nat)
    requires k < count && a < size
    ensures Placement(k, a, size) < count * size
  {
    MulMono(k + 1, count, size);
  }

  /**
   * Every output index w is reached from exactly one (block, offset) pair:
   * (w / size, w % size). With PlacementInRange, the decoder's placement is a
   * bijection between pairs and indices, on rows and on columns alike.
   */
  lemma PlacementOneToOne(size: nat, count: nat, w: nat)
    requires w < count * size
    ensures size > 0 && w / size < count && w % size < size
    ensures forall k, a :: 0 <= k < count && 0 <= a < size ==>
      (Placement(k, a, size) == w <==> k == w / size && a == w % size)
  {
    BlockOffset(w, size, count);
    forall k, a | 0 <= k < count && 0 <= a < size
      ensures Placement(k, a, size) == w <==> k == w / size && a == w % size
    {
      BlockCell(w, k, a, size);
    }
  }

  /** The single assignment of the innermost loop. */
  method WriteBlockCell(C: array2<int>, neededC: seq<Matrix>, neededX: seq<int>,
                        r: nat, t: nat, p: nat, m: nat, n: nat, interp: Interpolator,
                        a: nat, b: nat, k: nat, k1: nat, currPolynomial: seq<int>)
    requires DecodeInputs(neededC, neededX, r, t, p, m, n, interp)
    requires C.Length0 == r && C.Length1 == t
    requires a < r / m && b < t / n && k < m && k1 < n
    requires currPolynomial == interp(neededX, CellSamples(neededC, a, b))
    modifies C
    ensures forall row, col :: 0 <= row < r && 0 <= col < t ==>
      C[row, col] == if row / (r / m) == k && row % (r / m) == a && col / (t / n) == k1 && col % (t / n) == b
                     then DecodedAt(neededC, neededX, r, t, p, m, n, interp, row, col)
                     else old(C[row, col])
  {
    var sc, scB := r / m, t / n;
    CellPosition(r, t, m, n, a, b, k, k1);
    TargetDegrees(p, m, n, k, k1, k, k1);
    var row, col := Placement(k, a, sc), Placement(k1, b, scB);
    C[row, col] := currPolynomial[|neededC| - 1 - TargetDegree(p, m, k, k1)];
    forall row', col' | 0 <= row' < r && 0 <= col' < t
      ensures (row' / sc == k && row' % sc == a && col' / scB == k1 && col' % scB == b)
           <==> (row' == row && col' == col)
    {
      BlockCell(row', k, a, sc);
      BlockCell(col', k1, b, scB);
    }
  }
}
