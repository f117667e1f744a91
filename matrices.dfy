/** Integer matrices as row-major sequences of rows. */
module Matrices {
  import opened Algebra

  type Matrix = seq<seq<int>>

  /** M has `rows` rows of `cols` entries each. */
  predicate IsMatrix(M: Matrix, rows: nat, cols: nat)
  {
    |M| == rows && forall i :: 0 <= i < rows ==> |M[i]| == cols
  }

  /** Entry (i, j) of M, read as 0 outside M so that the sums below are total. */
  function At(M: Matrix, i: int, j: int): (v: int)
  {
    if 0 <= i < |M| && 0 <= j < |M[i]| then M[i][j] else 0
  }

  /** Entry (col1, col2) of M1^T . M2, contracting over rows [0, rows). */
  function TransposeProductAt(M1: Matrix, M2: Matrix, rows: nat, col1: int, col2: int): (v: int)
  {
    Sum(rows, ColumnProducts(M1, M2, col1, col2))
  }

  /** w |-> M1[w][col1] * M2[w][col2], the terms of entry (col1, col2) of M1^T . M2. */
  function ColumnProducts(M1: Matrix, M2: Matrix, col1: int, col2: int): (f: int -> int)
  {
    w => At(M1, w, col1) * At(M2, w, col2)
  }
}
