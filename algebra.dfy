/** Integer powers and finite sums used by the encoder's weights and the proofs about them. */
module Algebra {

  /** x to the power e; 0 to the power 0 is 1, as numpy's power gives it. */
  function Pow(x: int, e: nat): (y: int)
  {
    if e == 0 then 1 else x * Pow(x, e - 1)
  }

  lemma {:induction false} PowAdd(x: int, a: nat, b: nat)
    ensures Pow(x, a + b) == Pow(x, a) * Pow(x, b)
  {
    if b > 0 {
      PowAdd(x, a, b - 1);
      calc {
        Pow(x, a + b);
        x * Pow(x, a + b - 1);
        x * (Pow(x, a) * Pow(x, b - 1));
        Pow(x, a) * (x * Pow(x, b - 1));
        Pow(x, a) * Pow(x, b);
      }
    }
  }

  /** Only the zero exponent survives at x = 0. */
  lemma PowAtZero(e: nat)
    ensures Pow(0, e) == if e == 0 then 1 else 0
  {
  }

  lemma Distribute(a: int, b: int, c: int)
    ensures a * c + b * c == (a + b) * c
  {
  }

  lemma MulPred(a: int, c: int)
    ensures (a - 1) * c == a * c - c
  {
  }

  /** A positive multiple of p is at least p. */
  lemma {:induction false} MulAtLeast(p: int, q: int)
    requires p > 0 && q > 0
    ensures p * q >= p
  {
    if q > 1 {
      MulAtLeast(p, q - 1);
      assert p * q == p * (q - 1) + p;
    }
  }

  /** Multiplying by a natural number keeps the order. */
  lemma {:induction false} MulMono(a: int, b: int, c: nat)
    requires a <= b
    ensures a * c <= b * c
  {
    if c > 0 {
      MulMono(a, b, c - 1);
      assert a * c == a * (c - 1) + a;
      assert b * c == b * (c - 1) + b;
    }
  }

  /** A multiple of p strictly between -p and p is zero. */
  lemma SmallMultiple(x: int, p: int, q: int)
    requires p > 0 && x == p * q && -p < x < p
    ensures q == 0
  {
    if q > 0 {
      MulAtLeast(p, q);
    } else if q < 0 {
      MulAtLeast(p, -q);
    }
  }

  /** f(0) + f(1) + ... + f(n - 1). */
  function Sum(n: nat, f: int -> int): (total: int)
  {
    if n == 0 then 0 else Sum(n - 1, f) + f(n - 1)
  }

  lemma {:induction false} SumAdd(n: nat, f: int -> int, g: int -> int, h: int -> int)
    requires forall i :: 0 <= i < n ==> h(i) == f(i) + g(i)
    ensures Sum(n, h) == Sum(n, f) + Sum(n, g)
  {
    if n > 0 {
      SumAdd(n - 1, f, g, h);
    }
  }

  lemma {:induction false} SumZero(n: nat, f: int -> int)
    requires forall i :: 0 <= i < n ==> f(i) == 0
    ensures Sum(n, f) == 0
  {
    if n > 0 {
      SumZero(n - 1, f);
    }
  }

  /** i |-> f(start + i): f seen from start on. */
  function Shifted(f: int -> int, start: int): (g: int -> int)
  {
    i => f(start + i)
  }

  /** A sum over [0, n1 + n2) splits at n1. */
  lemma {:induction false} SumSplit(n1: nat, n2: nat, f: int -> int)
    ensures Sum(n1 + n2, f) == Sum(n1, f) + Sum(n2, Shifted(f, n1))
  {
    if n2 > 0 {
      SumSplit(n1, n2 - 1, f);
      assert Shifted(f, n1)(n2 - 1) == f(n1 + n2 - 1);
    }
  }

  /** j |-> f(j * size + u): f at offset u of every block of the given size. */
  function Strided(f: int -> int, size: int, u: int): (h: int -> int)
  {
    j => f(j * size + u)
  }

  /** u |-> the sum of f at offset u of the first count blocks. */
  function BlockSums(f: int -> int, size: int, count: nat): (h: int -> int)
  {
    u => Sum(count, Strided(f, size, u))
  }

  /** One more block adds the sum over that block's own range. */
  lemma SumBlocksStep(f: int -> int, size: nat, c: nat)
    ensures Sum(size, BlockSums(f, size, c + 1))
         == Sum(size, BlockSums(f, size, c)) + Sum(size, Shifted(f, c * size))
  {
    var last := Shifted(f, c * size);
    forall u | 0 <= u < size
      ensures BlockSums(f, size, c + 1)(u) == BlockSums(f, size, c)(u) + last(u)
    {
      var g := Strided(f, size, u);
      assert Sum(c + 1, g) == Sum(c, g) + g(c);
      assert g(c) == f(c * size + u) == last(u);
    }
    SumAdd(size, BlockSums(f, size, c), last, BlockSums(f, size, c + 1));
  }

  /**
   * Summing f over [0, count * size) block by block: the outer sum runs over the
   * offset u inside a block, the inner one over the block index j.
   */
  lemma {:induction false} SumBlocks(f: int -> int, size: nat, count: nat)
    ensures Sum(size, BlockSums(f, size, count)) == Sum(count * size, f)
  {
    if count == 0 {
      forall u | 0 <= u < size
        ensures BlockSums(f, size, 0)(u) == 0
      {
      }
      SumZero(size, BlockSums(f, size, 0));
    } else {
      var c := count - 1;
      MulMono(0, c, size);
      MulPred(count, size);
      var start: nat := c * size;
      SumBlocks(f, size, c);
      SumBlocksStep(f, size, c);
      SumSplit(start, size, f);
    }
  }
}
