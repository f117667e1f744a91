# Polynomial code for distributed A^T · B: encoder and decoder

This project models the integer core of a polynomial-coded matrix product. The
coordinator (`poly_encode`) cuts A (s × r) and B (s × t) into blocks:

- p row blocks of s/p rows each;
- m column blocks of r/m columns for A, and n column blocks of t/n columns for B.

For every worker ordinal i it accumulates two blocks:

- A_i = Σ_{j<p, k<m} A_{j,k} · i^(j + k·p);
- B_i = Σ_{j<p, k<n} B_{j,k} · i^(p−1−j + k·p·m).

Worker i returns A_iᵀ · B_i. The coordinator's decoder (`poly_decode`) receives
n_needed = p·m·n + p − 1 of these results. For every cell (a, b) of a result it
interpolates a polynomial through the collected samples. It then writes the
coefficient of degree p−1 + k·p + k1·p·m into cell
(k·(r/m) + a, k1·(t/n) + b) of the r × t output C.

Files:

- `algebra.dfy`: powers, finite sums, and sums regrouped block by block.
- `matrices.dfy`: matrices as sequences of rows, and the entries of M1ᵀ · M2.
- `partitioner.dfy`: block geometry, the exponents of the code, target degrees and n_needed.
- `polynomials.dfy`: polynomials in two forms. A term list is how the encoder builds a polynomial. Dense coefficients, highest degree first, are how interpolation returns one. It also proves that interpolation is unique.
- `encoder.dfy`: `poly_encode` as methods over `array3<int>`, proved against the specification functions `EncodedA` and `EncodedB`.
- `decoder.dfy`: `poly_decode` as methods over `array2<int>`, proved against the specification function `DecodedAt`.
- `correctness.dfy`: why the scheme works.
  - Each worker result is the value of a product polynomial of degree below n_needed.
  - Each target coefficient of that polynomial is a cell of Aᵀ · B.
  - Decoding therefore recovers Aᵀ · B.
  - Decoding does not depend on the order in which results arrive.

The interpolation routine (scipy's `lagrange` followed by `np.rint`) is a
parameter `interp` of the decoder. The round-trip lemmas assume that it is exact
and that it returns n_needed coefficients.

## Model

| member | source | states |
|---|---|---|
| Encoder.Encode | encoder_decoder.py:20-39 | The two arrays are new, with shapes (n_workers, s/p, r/m) and (n_workers, s/p, t/n). Every entry of worker i's blocks is the encoding polynomial of A (resp. B) evaluated at x = i. Since the arrays start at zero, that is the whole sum over j < p and k < m (resp. k < n). |
| Encoder.EncodeWorker | encoder_decoder.py:24-37 | The j loop for worker i adds EncodedA / EncodedB at x = i to worker i's blocks. The blocks of every other worker are unchanged. |
| Encoder.EncodeRowBlock | encoder_decoder.py:26-37 | One pass of the j loop adds row block j's terms of A and of B to worker i's blocks. Nothing else changes. |
| Encoder.AccumulateRowBlockA | encoder_decoder.py:29-33 | The k loop over A's column blocks adds Σ_{k<m} A_{j,k} · i^(j+k·p) to worker i's block of A. |
| Encoder.AccumulateRowBlockB | encoder_decoder.py:34-37 | The k loop over B's column blocks adds Σ_{k<n} B_{j,k} · i^(p−1−j+k·p·m) to worker i's block of B. The comment at encoder_decoder.py:15 writes this sum up to m−1; the code at line 34 loops over range(n), and the model follows the code. |
| Encoder.AddScaledBlock | encoder_decoder.py:32-33 | The in-place `+=` of one block times one weight: each entry of out[i] gains the matching block entry times w. The other workers are unchanged. |
| Encoder.EncodedAtZero | encoder_decoder.py:29-37 | At ordinal 0 only the zero-exponent blocks survive: A_0 is block A_{0,0}, and B_0 is block B_{p−1,0}. |
| Encoder.TermsAAtZero | encoder_decoder.py:29-33 | The constant coefficient of the first J row blocks of A's encoding is entry (u, c) of A_{0,0} when J > 0, and 0 otherwise. |
| Encoder.TermsBAtZero | encoder_decoder.py:34-37 | The constant coefficient of the first J row blocks of B's encoding is entry (u, c) of B_{p−1,0} once all p row blocks are in, and 0 before that. |
| Encoder.EncodingDegrees | encoder_decoder.py:13-15 | A's encoding polynomial has degree below p·m. B's has degree below p + (n−1)·p·m. |
| Partitioner.RowBlocksPartition | encoder_decoder.py:26-27 | Row block j spans [j·s/p, (j+1)·s/p). These p ranges tile [0, s): every row lies in exactly one of them, namely block w / (s/p). |
| Partitioner.ColumnBlocksPartitionA | encoder_decoder.py:30 | The intended column blocks of A, [k·r/m, (k+1)·r/m), tile [0, r): every column lies in exactly one of them. |
| Partitioner.ColumnBlocksPartitionB | encoder_decoder.py:35 | The intended column blocks of B, [k·t/n, (k+1)·t/n), tile [0, t): every column lies in exactly one of them. |
| Partitioner.ExpAZero | encoder_decoder.py:33 | The exponent j + k·p is 0 if and only if j = 0 and k = 0. |
| Partitioner.ExpBZero | encoder_decoder.py:37 | The exponent p−1−j + k·p·m is 0 if and only if j = p−1 and k = 0. |
| Partitioner.ExponentBounds | encoder_decoder.py:33-37 | A's exponents stay below p·m. B's exponents stay below DegreeBoundB = p + (n−1)·p·m. |
| Partitioner.ExponentsMatch | encoder_decoder.py:49 | Exponent(A_{j,k}) + exponent(B_{j',k'}) equals the target degree of block (k0, k1) if and only if j = j', k = k0 and k' = k1. So every cross term lands on a degree that the decoder never reads. |
| Partitioner.TargetDegrees | encoder_decoder.py:58-61 | The target degree p−1 + k·p + k1·p·m is below n_needed. It is distinct for distinct (k, k1), in both directions of the equivalence. |
| Partitioner.TargetBelow | encoder_decoder.py:61 | Each target degree is below n_needed, so the index n_needed−1−degree is inside the coefficient sequence. |
| Partitioner.AsWrittenSliceMismatch | encoder_decoder.py:30 | In the valid geometry r=4, s=2, t=4, p=m=n=2, the source's column slice of A for k = 1 is three columns wide while the block is two. |
| Partitioner.AsWrittenSliceBroadcasts | encoder_decoder.py:30 | In the valid geometry r=4, s=3, t=4, p=1, m=n=2, the source's column slice of A for k = 1 is one column wide while the block is two. |
| Partitioner.AsWrittenFirstSliceFits | encoder_decoder.py:30 | The source's first column slice, k = 0, always has exactly a block's width. With a single column block (m = 1, resp. n = 1) the written column start is therefore harmless. |
| Partitioner.AsWrittenAgreesWhenWellShaped | encoder_decoder.py:30 | If every as-written slice has exactly the block width, the as-written start k·subrows equals the intended start k·subcols for every k. |
| Decoder.Decode | encoder_decoder.py:43-63 | C is a new r × t array, and every cell is written. Cell (row, col) holds the coefficient of degree TargetDegree(row / (r/m), col / (t/n)), taken from the polynomial interpolated for offset (row % (r/m), col % (t/n)). The contract does not depend on the aSubcols and bSubcols arguments. |
| Decoder.DecodeCell | encoder_decoder.py:58-61 | The k loop writes offset (a, b) of every output block and no other cell. |
| Decoder.DecodeBlockRow | encoder_decoder.py:59-61 | The k1 loop writes offset (a, b) of blocks (k, 0) … (k, n−1) and no other cell. |
| Decoder.WriteBlockCell | encoder_decoder.py:60-61 | One assignment writes exactly the cell at block (k, k1), offset (a, b), with the coefficient at index n_needed−1−TargetDegree(k, k1). |
| Decoder.PlacementInRange | encoder_decoder.py:60 | Index k·size + a of a block pair with k < count and a < size lies inside the output. |
| Decoder.PlacementOneToOne | encoder_decoder.py:60 | Each output index w is hit by exactly one (block, offset) pair, (w / size, w % size). With PlacementInRange, the placement is a bijection, so every cell of C is written exactly once. |
| PolynomialCode.WorkerCellIsProductValue | polycode.py:72 | Cell (a, b) of worker x's product A_xᵀ · B_x, that is Σ_u Ã[u][a] · B̃[u][b] at x, is the value at x of the product polynomial of the two encodings. |
| PolynomialCode.ProductDegree | polycode.py:94 | The product polynomial has degree below n_needed = p·m·n + p − 1. |
| PolynomialCode.ProductCoefficient | encoder_decoder.py:49 | The coefficient of degree p−1 + k0·p + k1·p·m of the product polynomial at (a, b) is cell (a, b) of block (k0, k1) of Aᵀ · B. |
| PolynomialCode.ProductInterpolates | encoder_decoder.py:57 | At n_needed ordinals, the dense coefficients of the product polynomial interpolate the samples of every cell. |
| PolynomialCode.RecoveredBlockCell | encoder_decoder.py:57-61 | Any exact interpolant of a cell's samples at distinct ordinals yields, at the decoder's index, that cell of the matching block of Aᵀ · B. |
| PolynomialCode.DecodeRoundTrip | encoder_decoder.py:43-63 | Take the results of n_needed workers at distinct ordinals, with exact interpolation. Then the decoder's inputs are well formed and every decoded cell (row, col) equals entry (row, col) of Aᵀ · B. |
| PolynomialCode.DecodeOrderInvariant | encoder_decoder.py:53-57 | With distinct ordinals and an interpolator that is exact for both orders, reordering the results and their ordinals together by any injective index map leaves every decoded cell unchanged. |
| PolynomialCode.AsWrittenZeroCellTooShort | encoder_decoder.py:57-61 | When p·m·n ≥ 2, at distinct ordinals, with exact interpolation: for a cell whose samples are all zero, numpy's coefficient array is [0], and the index the decoder reads for block (0, 0) is past its end. |
| Polynomials.InterpolationUnique | encoder_decoder.py:57 | Two coefficient sequences of length \|xs\| that interpolate the same samples at distinct points are equal. |
| Polynomials.TrimLeadingZeros | encoder_decoder.py:57 | The coefficients that `.c` returns are a non-empty suffix of the full sequence. Only zeros are dropped, and the result starts with a non-zero coefficient unless it has length 1. |

## Left out

- MPI transport and the coordinator's receive loop (`bcast`, `Scatter`, `Isend`/`Wait`, `Recv` from any source): the model takes the collected results and their ordinals as sequences.
- Straggler simulation (`time.sleep`, repeated products, the `Straggle` setting): timing only, no effect on any value.
- Random generation of A, B and the straggler set, console printing and argument parsing: I/O and configuration.
- The `time_section` decorator: it measures wall-clock time and appends it to the return value, so `poly_encode` returns three values and `poly_decode` two (polycode.py:53, polycode.py:108). The model's `Encode` and `Decode` do not return this runtime.
- Decoder.Decode: requires an interpolator that returns exactly n_needed integer coefficients per cell. scipy's floating-point `lagrange` and the `np.rint` rounding are not modelled. Float error is not modelled either. The shortened coefficient arrays numpy can return are covered by the second finding below.
- Decoder.Decode: computes its block sizes by exact division under the requirement that m divides r and n divides t. The source rounds `r/m` and `t/n` with `np.rint`.
- Encoder.Encode: requires that p divides s, m divides r and n divides t, for the same reason.
- Encoder.Encode: uses unbounded integers. The numpy `int` arrays and `np.power` wrap around at 64 bits, and that overflow is not modelled.
- Decoder.Decode: C starts with arbitrary entries (`new int[r, t]`), as `np.empty` leaves it; Decode's ensures gives every cell of C its decoded value, so no entry of the initial contents survives.
- Encoder.Encode: uses the intended column start k·(r/m) (resp. k·(t/n)) rather than the written k·(s/p). See the first finding.

## Findings

| source | as written | input that shows it | evidently intended | confidence | as-written member | corrected member |
|---|---|---|---|---|---|---|
| encoder_decoder.py:30 | The column slice of A_{j,k} starts at `k*A_subrows` and ends at `(k+1)*A_subcols`. The same holds at line 35 for B, with `k*B_subrows`. When s/p ≠ r/m and m ≥ 2 (for B: s/p ≠ t/n and n ≥ 2), the slices for k ≥ 1 have the wrong width, and the in-place add then fails on a shape mismatch, or broadcasts a single column across the block. The slice for k = 0 always fits, so with m = 1 (resp. n = 1) nothing goes wrong. | r=4, s=2, t=4, p=m=n=2: the slice for k=1 is 3 columns wide against a block of 2. r=4, s=3, t=4, p=1, m=n=2: it is 1 column wide and is broadcast. | The slice starts at `k*A_subcols` (resp. `k*B_subcols`), so the m (resp. n) column blocks tile the matrix. | not executed | Partitioner.AsWrittenSliceMismatch | Partitioner.ColumnBlocksPartitionA |
| encoder_decoder.py:57 | `lagrange(...).c` drops leading zero coefficients. The decoder still indexes it as if it had n_needed entries. | Any A = 0 with p·m·n ≥ 2, e.g. p=1, m=2, n=1: every cell's samples are 0, `.c` is [0], and the index for block (0, 0) is 1. | Read the coefficients padded to n_needed entries, with the missing leading ones as 0. | not executed | PolynomialCode.AsWrittenZeroCellTooShort | PolynomialCode.DecodeRoundTrip |
