/** The matrix product every kernel must produce: C = A * B for A (m by k) and
    B (k by n) stored row-major, each element a dot product accumulated in
    32-bit arithmetic with the reduction index z increasing from 0. */
module MatrixProduct {
  import opened Wrapping
  import opened RowMajor

  /** The operand buffers hold at least an m-by-k and a k-by-n matrix. */
  predicate Shaped(a: seq<Int32>, b: seq<Int32>, m: nat, k: nat, n: nat)
  {
    |a| >= m * k && |b| >= k * n
  }

  /** The accumulator of element (r, s) after the reduction steps z = 0 .. t-1,
      in that order, starting from 0. */
  function Dot(a: seq<Int32>, b: seq<Int32>, m: nat, k: nat, n: nat, r: nat, s: nat, t: nat): Int32
    requires Shaped(a, b, m, k, n) && r < m && s < n && t <= k
    decreases t
  {
    if t == 0 then 0
    else
      InBuffer(m, k, r, t - 1);
      InBuffer(k, n, t - 1, s);
      Mac(Dot(a, b, m, k, n, r, s, t - 1), a[Idx(k, r, t - 1)], b[Idx(n, t - 1, s)])
  }

  /** The same sum in exact (unbounded) integer arithmetic. */
  function ExactDot(a: seq<Int32>, b: seq<Int32>, m: nat, k: nat, n: nat, r: nat, s: nat, t: nat): int
    requires Shaped(a, b, m, k, n) && r < m && s < n && t <= k
    decreases t
  {
    if t == 0 then 0
    else
      InBuffer(m, k, r, t - 1);
      InBuffer(k, n, t - 1, s);
      ExactDot(a, b, m, k, n, r, s, t - 1) + a[Idx(k, r, t - 1)] as int * b[Idx(n, t - 1, s)] as int
  }

  /** The first p elements, row-major, of the matrix of accumulators after t
      reduction steps. */
  function Cells(a: seq<Int32>, b: seq<Int32>, m: nat, k: nat, n: nat, t: nat, p: nat): (c: seq<Int32>)
    requires Shaped(a, b, m, k, n) && t <= k && p <= m * n
    ensures |c| == p
    decreases p
  {
    if p == 0 then []
    else
      Split(m, n, p - 1);
      Cells(a, b, m, k, n, t, p - 1) + [Dot(a, b, m, k, n, (p - 1) / n, (p - 1) % n, t)]
  }

  /** The m-by-n matrix of accumulators after t reduction steps, row-major. */
  function Partial(a: seq<Int32>, b: seq<Int32>, m: nat, k: nat, n: nat, t: nat): (c: seq<Int32>)
    requires Shaped(a, b, m, k, n) && t <= k
    ensures |c| == m * n
  {
    Cells(a, b, m, k, n, t, m * n)
  }

  /** The m-by-n product, row-major: every accumulator after all k steps. */
  function Product(a: seq<Int32>, b: seq<Int32>, m: nat, k: nat, n: nat): (c: seq<Int32>)
    requires Shaped(a, b, m, k, n)
    ensures |c| == m * n
  {
    Partial(a, b, m, k, n, k)
  }

  /** Among the first p cells, the one of element (r, s) holds the accumulator
      of (r, s) after t steps. */
  lemma {:induction false} CellsAt(a: seq<Int32>, b: seq<Int32>, m: nat, k: nat, n: nat, t: nat, p: nat, r: nat, s: nat)
    requires Shaped(a, b, m, k, n) && t <= k && r < m && s < n && Idx(n, r, s) < p <= m * n
    ensures Cells(a, b, m, k, n, t, p)[Idx(n, r, s)] == Dot(a, b, m, k, n, r, s, t)
    decreases p
  {
    if Idx(n, r, s) < p - 1 {
      CellsAt(a, b, m, k, n, t, p - 1, r, s);
    }
  }

  /** Element (r, s) of the matrix after t steps is the accumulator of (r, s)
      after t steps. */
  lemma PartialAt(a: seq<Int32>, b: seq<Int32>, m: nat, k: nat, n: nat, t: nat, r: nat, s: nat)
    requires Shaped(a, b, m, k, n) && t <= k && r < m && s < n
    ensures Idx(n, r, s) < m * n
    ensures Partial(a, b, m, k, n, t)[Idx(n, r, s)] == Dot(a, b, m, k, n, r, s, t)
  {
    InBuffer(m, n, r, s);
    CellsAt(a, b, m, k, n, t, m * n, r, s);
  }

  /** Element (r, s) of the product is the full dot product of row r of A and
      column s of B. */
  lemma ProductAt(a: seq<Int32>, b: seq<Int32>, m: nat, k: nat, n: nat, r: nat, s: nat)
    requires Shaped(a, b, m, k, n) && r < m && s < n
    ensures Idx(n, r, s) < |Product(a, b, m, k, n)|
    ensures Product(a, b, m, k, n)[Idx(n, r, s)] == Dot(a, b, m, k, n, r, s, k)
  {
    PartialAt(a, b, m, k, n, k, r, s);
  }

  /** Before any reduction step every accumulator is 0. */
  lemma PartialStart(a: seq<Int32>, b: seq<Int32>, m: nat, k: nat, n: nat)
    requires Shaped(a, b, m, k, n)
    ensures forall r, s :: 0 <= r < m && 0 <= s < n ==> Idx(n, r, s) < m * n && Partial(a, b, m, k, n, 0)[Idx(n, r, s)] == 0
  {
    forall r, s | 0 <= r < m && 0 <= s < n
      ensures Idx(n, r, s) < m * n && Partial(a, b, m, k, n, 0)[Idx(n, r, s)] == 0
    {
      PartialAt(a, b, m, k, n, 0, r, s);
    }
  }

  /** One reduction step z takes element (r, s) of the matrix after z steps to
      the element after z + 1 steps by `c += a * b`. */
  lemma PartialStep(a: seq<Int32>, b: seq<Int32>, m: nat, k: nat, n: nat, z: nat, r: nat, s: nat)
    requires Shaped(a, b, m, k, n) && z < k && r < m && s < n
    ensures Idx(n, r, s) < m * n && Idx(k, r, z) < |a| && Idx(n, z, s) < |b|
    ensures Partial(a, b, m, k, n, z + 1)[Idx(n, r, s)] ==
            Mac(Partial(a, b, m, k, n, z)[Idx(n, r, s)], a[Idx(k, r, z)], b[Idx(n, z, s)])
  {
    InBuffer(m, k, r, z);
    InBuffer(k, n, z, s);
    PartialAt(a, b, m, k, n, z, r, s);
    PartialAt(a, b, m, k, n, z + 1, r, s);
  }

  /** The accumulated value is the exact sum wrapped to 32 bits: accumulating in
      32 bits step by step loses nothing beyond the final wrap. */
  lemma {:induction false} DotIsWrappedExactDot(a: seq<Int32>, b: seq<Int32>, m: nat, k: nat, n: nat, r: nat, s: nat, t: nat)
    requires Shaped(a, b, m, k, n) && r < m && s < n && t <= k
    ensures Dot(a, b, m, k, n, r, s, t) == Wrap(ExactDot(a, b, m, k, n, r, s, t))
    decreases t
  {
    if t > 0 {
      InBuffer(m, k, r, t - 1);
      InBuffer(k, n, t - 1, s);
      DotIsWrappedExactDot(a, b, m, k, n, r, s, t - 1);
      MacIsWrappedSum(ExactDot(a, b, m, k, n, r, s, t - 1), a[Idx(k, r, t - 1)], b[Idx(n, t - 1, s)]);
    }
  }

  /** When the exact sum fits in 32 bits, the element is that sum:
      C[r][s] = sum over z < k of A[r][z] * B[z][s]. */
  lemma DotIsSumWhenInRange(a: seq<Int32>, b: seq<Int32>, m: nat, k: nat, n: nat, r: nat, s: nat)
    requires Shaped(a, b, m, k, n) && r < m && s < n
    requires -HALF <= ExactDot(a, b, m, k, n, r, s, k) < HALF
    ensures Dot(a, b, m, k, n, r, s, k) as int == ExactDot(a, b, m, k, n, r, s, k)
  {
    DotIsWrappedExactDot(a, b, m, k, n, r, s, k);
  }

  /** A dot product with a zero row of A is 0. */
  lemma {:induction false} DotOfZeroRow(a: seq<Int32>, b: seq<Int32>, m: nat, k: nat, n: nat, r: nat, s: nat, t: nat)
    requires Shaped(a, b, m, k, n) && r < m && s < n && t <= k
    requires forall p :: 0 <= p < |a| ==> a[p] == 0
    ensures Dot(a, b, m, k, n, r, s, t) == 0
    decreases t
  {
    if t > 0 {
      InBuffer(m, k, r, t - 1);
      DotOfZeroRow(a, b, m, k, n, r, s, t - 1);
    }
  }

  /** A zero matrix A times any B is the zero matrix. */
  lemma ZeroTimesAnything(a: seq<Int32>, b: seq<Int32>, m: nat, k: nat, n: nat)
    requires Shaped(a, b, m, k, n)
    requires forall p :: 0 <= p < |a| ==> a[p] == 0
    ensures forall r, s :: 0 <= r < m && 0 <= s < n ==> Idx(n, r, s) < m * n && Product(a, b, m, k, n)[Idx(n, r, s)] == 0
  {
    forall r, s | 0 <= r < m && 0 <= s < n
      ensures Idx(n, r, s) < m * n && Product(a, b, m, k, n)[Idx(n, r, s)] == 0
    {
      ProductAt(a, b, m, k, n, r, s);
      DotOfZeroRow(a, b, m, k, n, r, s, k);
    }
  }
}
