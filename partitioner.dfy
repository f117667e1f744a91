/**
 * Block geometry of the polynomial code: A (s x r) and B (s x t) are cut into
 * p row blocks, A into m column blocks and B into n column blocks.
 */
module Partitioner {
  import opened Algebra

  /**
   * The run parameters that fix the geometry. The blocks have s/p rows, and
   * r/m (A) or t/n (B) columns.
   */
  datatype Geometry = Geometry(r: nat, s: nat, t: nat, p: nat, m: nat, n: nat)
  {
    /** Every block count is positive and divides its dimension exactly. */
    predicate Valid()
    {
      p > 0 && m > 0 && n > 0 && s % p == 0 && r % m == 0 && t % n == 0
    }

    function SubRows(): (rows: nat)
      requires Valid()
    {
      s / p
    }

    function SubColsA(): (cols: nat)
      requires Valid()
    {
      r / m
    }

    function SubColsB(): (cols: nat)
      requires Valid()
    {
      t / n
    }

    /** First row of row block j, in A and in B. */
    function RowStart(j: nat): (start: nat)
      requires Valid()
    {
      j * SubRows()
    }

    /** First column of column block k of A (the start the block formula intends). */
    function ColStartA(k: nat): (start: nat)
      requires Valid()
    {
      k * SubColsA()
    }

    /** Row block holding row w. */
    function RowBlockOf(w: nat): (j: nat)
      requires Valid() && SubRows() > 0
    {
      w / SubRows()
    }

    /** Column block of A holding column c. */
    function ColBlockOfA(c: nat): (k: nat)
      requires Valid() && SubColsA() > 0
    {
      c / SubColsA()
    }

    /** Column block of B holding column c. */
    function ColBlockOfB(c: nat): (k: nat)
      requires Valid() && SubColsB() > 0
    {
      c / SubColsB()
    }

    /** First column of column block k of B. */
    function ColStartB(k: nat): (start: nat)
      requires Valid()
    {
      k * SubColsB()
    }
  }

  /**
   * Number of worker results the coordinator waits for: one more than the
   * largest degree of the product polynomial.
   */
  function NNeeded(p: nat, m: nat, n: nat): (count: nat)
    requires p > 0
  {
    p * m * n + p - 1
  }

  /** Exponent of block A_{j,k} in the encoding polynomial of A. */
  function ExpA(p: nat, j: nat, k: nat): (e: nat)
  {
    j + k * p
  }

  /** Exponent of block B_{j,k} in the encoding polynomial of B. */
  function ExpB(p: nat, m: nat, j: nat, k: nat): (e: nat)
    requires j < p
  {
    p - 1 - j + k * p * m
  }

  /** Only A_{0,0} carries the exponent 0. */
  lemma ExpAZero(p: nat, j: nat, k: nat)
    requires p > 0
    ensures ExpA(p, j, k) == 0 <==> j == 0 && k == 0
  {
    if k > 0 {
      MulAtLeast(p, k);
    }
  }

  /** Only B_{p-1,0} carries the exponent 0. */
  lemma ExpBZero(p: nat, m: nat, j: nat, k: nat)
    requires m > 0 && j < p
    ensures ExpB(p, m, j, k) == 0 <==> j == p - 1 && k == 0
  {
    if k > 0 {
      MulAtLeast(p * m, k);
      assert k * p * m == (p * m) * k;
    }
  }

  /** The exclusive degree bound of B's encoding polynomial: p + (n-1)*p*m. */
  function DegreeBoundB(p: nat, m: nat, n: nat): (bound: nat)
    requires n > 0
  {
    p + (n - 1) * p * m
  }

  /**
   * A's exponents stay below p*m and B's below p + (n-1)*p*m, so the product
   * of the two encodings has degree at most pmn + p - 2.
   */
  lemma ExponentBounds(p: nat, m: nat, n: nat, j: nat, kA: nat, kB: nat)
    requires j < p && kA < m && kB < n
    ensures ExpA(p, j, kA) < p * m
    ensures ExpB(p, m, j, kB) < DegreeBoundB(p, m, n)
  {
    MulMono(kA + 1, m, p);
    MulMono(kB, n - 1, p * m);
    assert kB * p * m == kB * (p * m);
    assert (n - 1) * p * m == (n - 1) * (p * m);
  }

  /** The blocks tile the matrices exactly. */
  lemma BlockSizes(g: Geometry)
    requires g.Valid()
    ensures g.p * g.SubRows() == g.s && g.m * g.SubColsA() == g.r && g.n * g.SubColsB() == g.t
  {
  }

  /** Degree whose coefficient holds output block (k, k1). */
  function TargetDegree(p: nat, m: nat, k: nat, k1: nat): (d: nat)
    requires p > 0
  {
    p - 1 + k * p + k1 * p * m
  }

  /**
   * The exponent of A_{j,k} plus that of B_{j',k'} reaches the target degree of
   * (k0, k1) only for matching row blocks j == j' and k == k0, k' == k1: every
   * cross term of the product lands on a degree the decoder never reads.
   */
  lemma ExponentsMatch(p: nat, m: nat, j: nat, k: nat, j': nat, k': nat, k0: nat, k1: nat)
    requires p > 0 && m > 0
    requires j < p && j' < p && k < m && k0 < m
    ensures ExpA(p, j, k) + ExpB(p, m, j', k') == TargetDegree(p, m, k0, k1)
        <==> j == j' && k == k0 && k' == k1
  {
    if ExpA(p, j, k) + ExpB(p, m, j', k') == TargetDegree(p, m, k0, k1) {
      var q := (k0 - k) + (k1 - k') * m;
      ExponentGap(p, m, k, k', k0, k1);
      assert j - j' == p * q;
      SmallMultiple(j - j', p, q);
      assert k - k0 == m * (k1 - k');
      SmallMultiple(k - k0, m, k1 - k');
    }
  }

  /** The gap between two block offsets k*p + k'*p*m is a multiple of p. */
  lemma ExponentGap(p: int, m: int, k: int, k': int, k0: int, k1: int)
    ensures (k0 * p + k1 * p * m) - (k * p + k' * p * m) == p * ((k0 - k) + (k1 - k') * m)
  {
    assert k0 * p - k * p == p * (k0 - k);
    assert k1 * p * m - k' * p * m == p * ((k1 - k') * m);
  }

  /** Distinct output blocks are read from distinct degrees, all below NNeeded. */
  lemma TargetDegrees(p: nat, m: nat, n: nat, k: nat, k1: nat, k': nat, k1': nat)
    requires p > 0 && m > 0 && n > 0
    requires k < m && k1 < n && k' < m && k1' < n
    ensures TargetDegree(p, m, k, k1) < NNeeded(p, m, n)
    ensures TargetDegree(p, m, k, k1) == TargetDegree(p, m, k', k1') <==> k == k' && k1 == k1'
  {
    assert TargetDegree(p, m, k, k1) == ExpA(p, p - 1, k) + ExpB(p, m, p - 1, k1);
    ExponentsMatch(p, m, p - 1, k, p - 1, k1, k', k1');
    TargetBelow(p, m, n, k, k1);
  }

  lemma TargetBelow(p: nat, m: nat, n: nat, k: nat, k1: nat)
    requires p > 0 && k < m && k1 < n
    ensures TargetDegree(p, m, k, k1) < NNeeded(p, m, n)
  {
    var pm := p * m;
    MulMono(k, m - 1, p);
    MulMono(k1, n - 1, pm);
    MulPred(m, p);
    MulPred(n, pm);
    assert k1 * p * m == k1 * pm;
    assert pm * n == p * m * n;
  }

  /** Index w of a range of count blocks of the given size lies in block w / size only. */
  lemma BlockIndex(w: nat, size: nat, count: nat)
    requires w < count * size
    ensures size > 0 && w / size < count
    ensures forall j :: 0 <= j < count ==> (j * size <= w < (j + 1) * size <==> j == w / size)
  {
    var q := w / size;
    assert w == q * size + w % size;
    MulPred(q + 1, size);
    if q >= count {
      MulMono(count, q, size);
    }
    forall j | 0 <= j < count
      ensures j * size <= w < (j + 1) * size <==> j == q
    {
      MulPred(j + 1, size);
      if j < q {
        MulMono(j + 1, q, size);
      } else if j > q {
        MulMono(q + 1, j, size);
      }
    }
  }

  /** An index below count * size is at offset w % size of block w / size < count. */
  lemma BlockOffset(w: nat, size: nat, count: nat)
    requires w < count * size
    ensures size > 0 && w / size < count && w % size < size
    ensures w == (w / size) * size + w % size
  {
    BlockIndex(w, size, count);
  }

  /**
   * Index of offset a inside block k, for blocks of the given size: the block
   * start k * size (RowStart, ColStartA, ColStartB) plus the offset.
   */
  function Placement(k: nat, a: nat, size: nat): (w: nat)
  {
    k * size + a
  }

  /** Offset a of block k sits at Placement(k, a, size) and at no other index w. */
  lemma BlockCell(w: nat, k: nat, a: nat, size: nat)
    requires a < size
    ensures Placement(k, a, size) / size == k && Placement(k, a, size) % size == a
    ensures (w / size == k && w % size == a) <==> w == Placement(k, a, size)
  {
    var x := Placement(k, a, size);
    var q, r := x / size, x % size;
    assert q * size + r == k * size + a;
    assert a - r == size * (q - k);
    SmallMultiple(a - r, size, q - k);
  }

  /**
   * Row block j spans rows [j*s/p, (j+1)*s/p); these p ranges tile [0, s) and
   * every row belongs to exactly one of them, the one RowBlockOf names.
   */
  lemma RowBlocksPartition(g: Geometry)
    requires g.Valid()
    ensures g.RowStart(g.p) == g.s
    ensures forall w :: 0 <= w < g.s ==> (g.RowBlockOf(w) < g.p &&
      forall j :: 0 <= j < g.p ==> (g.RowStart(j) <= w < g.RowStart(j + 1) <==> j == g.RowBlockOf(w)))
  {
    assert g.p * g.SubRows() == g.s;
    forall w | 0 <= w < g.s
      ensures g.RowBlockOf(w) < g.p &&
        forall j :: 0 <= j < g.p ==> (g.RowStart(j) <= w < g.RowStart(j + 1) <==> j == g.RowBlockOf(w))
    {
      BlockIndex(w, g.SubRows(), g.p);
    }
  }

  /** Column block k of A spans [k*r/m, (k+1)*r/m); these m ranges tile [0, r). */
  lemma ColumnBlocksPartitionA(g: Geometry)
    requires g.Valid()
    ensures g.ColStartA(g.m) == g.r
    ensures forall c :: 0 <= c < g.r ==> (g.ColBlockOfA(c) < g.m &&
      forall k :: 0 <= k < g.m ==> (g.ColStartA(k) <= c < g.ColStartA(k + 1) <==> k == g.ColBlockOfA(c)))
  {
    assert g.m * g.SubColsA() == g.r;
    forall c | 0 <= c < g.r
      ensures g.ColBlockOfA(c) < g.m &&
        forall k :: 0 <= k < g.m ==> (g.ColStartA(k) <= c < g.ColStartA(k + 1) <==> k == g.ColBlockOfA(c))
    {
      BlockIndex(c, g.SubColsA(), g.m);
    }
  }

  /** Column block k of B spans [k*t/n, (k+1)*t/n); these n ranges tile [0, t). */
  lemma ColumnBlocksPartitionB(g: Geometry)
    requires g.Valid()
    ensures g.ColStartB(g.n) == g.t
    ensures forall c :: 0 <= c < g.t ==> (g.ColBlockOfB(c) < g.n &&
      forall k :: 0 <= k < g.n ==> (g.ColStartB(k) <= c < g.ColStartB(k + 1) <==> k == g.ColBlockOfB(c)))
  {
    assert g.n * g.SubColsB() == g.t;
    forall c | 0 <= c < g.t
      ensures g.ColBlockOfB(c) < g.n &&
        forall k :: 0 <= k < g.n ==> (g.ColStartB(k) <= c < g.ColStartB(k + 1) <==> k == g.ColBlockOfB(c))
    {
      BlockIndex(c, g.SubColsB(), g.n);
    }
  }

  /** Width numpy gives the slice [start:end] of an axis of length len. */
  function SliceWidth(start: nat, end: nat, len: nat): (width: nat)
  {
    var e := if end < len then end else len;
    var b := if start < len then start else len;
    if e > b then e - b else 0
  }

  /**
   * Width of the k-th column slice the encoder takes, as written: it starts at
   * k * subrows (not k * subcols) and ends at (k + 1) * subcols.
   */
  function ColumnSliceWidthAsWritten(subrows: nat, subcols: nat, len: nat, k: nat): (width: nat)
  {
    SliceWidth(k * subrows, (k + 1) * subcols, len)
  }

  /**
   * The first as-written slice, [0 : subcols], always has a block's width, so
   * with a single column block (m = 1, resp. n = 1) the source is unaffected.
   */
  lemma AsWrittenFirstSliceFits(subrows: nat, subcols: nat, count: nat)
    requires count > 0
    ensures ColumnSliceWidthAsWritten(subrows, subcols, count * subcols, 0) == subcols
  {
    if subcols > 0 {
      MulAtLeast(subcols, count);
    }
  }

  /**
   * With r = 4, s = 2, t = 4, p = m = n = 2 the second column slice of A is
   * three columns wide while a block has two, so the in-place add fails.
   */
  lemma AsWrittenSliceMismatch()
    ensures Geometry(4, 2, 4, 2, 2, 2).Valid()
    ensures ColumnSliceWidthAsWritten(1, 2, 4, 1) == 3 != Geometry(4, 2, 4, 2, 2, 2).SubColsA()
  {
  }

  /**
   * With r = 4, s = 3, t = 4, p = 1, m = n = 2 the second column slice of A is
   * one column wide while a block has two: numpy broadcasts that single column
   * across the block, so the add goes through with the wrong entries.
   */
  lemma AsWrittenSliceBroadcasts()
    ensures Geometry(4, 3, 4, 1, 2, 2).Valid()
    ensures ColumnSliceWidthAsWritten(3, 2, 4, 1) == 1 < Geometry(4, 3, 4, 1, 2, 2).SubColsA()
  {
  }

  /**
   * Whenever every as-written slice has exactly a block's width, it starts
   * where the intended block starts, so the corrected ColStartA/ColStartB
   * agree with the source on every geometry where its slices are well shaped.
   */
  lemma AsWrittenAgreesWhenWellShaped(subrows: nat, subcols: nat, count: nat)
    requires subcols > 0
    requires forall k :: 0 <= k < count ==>
      ColumnSliceWidthAsWritten(subrows, subcols, count * subcols, k) == subcols
    ensures forall k :: 0 <= k < count ==> k * subrows == k * subcols
  {
    if count >= 2 {
      var len := count * subcols;
      assert 2 * subcols <= len;
      assert ColumnSliceWidthAsWritten(subrows, subcols, len, 1) == subcols;
      assert subrows == subcols;
    }
  }
}
