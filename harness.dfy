/** The driver in `main` of c/mmult.c: it always runs the reference kernel into
    c, runs the kernel that the command-line index selects into r, and then
    compares the two element by element. Argument parsing, the pseudo-random
    filling of a and b and the profiler hooks are outside the model: the parsed
    index and the filled operands are parameters. */
module Harness {
  import opened Wrapping
  import opened RowMajor
  import opened Tiling
  import opened MatrixProduct
  import opened Kernels

  datatype Option<T> = None | Some(value: T)

  /** The verification loop's outcome: every element agrees, or the first
      element, in row-major order, where the `assert` stops the process. */
  datatype Verdict = Pass | Mismatch(row: nat, col: nat)

  /** How a run of `main` ends: `return 1` when no index was given, `exit(1)`
      on an index other than 1, 2 or 3, and `return 0` after the verification
      loop. The loop's aborting `assert` is a Dafny `assert` in `Run`: it is
      proved never to fire. */
  datatype Outcome = MissingIndex | InvalidIndex(idx: int) | Verified

  /** The verification loop: compares reference c and candidate r at every
      (i, j) of the M-by-N result, row by row, and stops at the first element
      where they differ. It passes exactly when the two results agree on all
      M * N elements. */
  method VerifyResult(c: array<Int32>, r: array<Int32>) returns (v: Verdict)
    requires c.Length >= M * N && r.Length >= M * N
    ensures v == Pass <==> c[..M * N] == r[..M * N]
    ensures v.Mismatch? ==>
      v.row < M && v.col < N && Idx(N, v.row, v.col) < M * N &&
      c[Idx(N, v.row, v.col)] != r[Idx(N, v.row, v.col)] &&
      forall p :: 0 <= p < Idx(N, v.row, v.col) ==> c[p] == r[p]
  {
    var i := 0;
    while i < M
      invariant 0 <= i <= M
      invariant forall p :: 0 <= p < i * N ==> c[p] == r[p]
    {
      var j := 0;
      while j < N
        invariant 0 <= j <= N
        invariant forall p :: 0 <= p < i * N + j ==> c[p] == r[p]
      {
        InBuffer(M, N, i, j);
        if c[Idx(N, i, j)] != r[Idx(N, i, j)] {
          assert c[..M * N][Idx(N, i, j)] != r[..M * N][Idx(N, i, j)];
          return Mismatch(i, j);
        }
        j := j + 1;
      }
      i := i + 1;
    }
    assert c[..M * N] == r[..M * N];
    return Pass;
  }

  /** `main` from the parsed index on: the reference kernel always runs into
      c before the index is looked at; indices 1, 2 and 3 run mmult_v1,
      mmult_v2 and mmult_v3 into r. With the compile-time dimensions every
      selected kernel agrees with the reference, so the verification never
      fails. */
  method Run(arg: Option<int>, a: array<Int32>, b: array<Int32>, c: array<Int32>, r: array<Int32>)
    returns (out: Outcome)
    requires a.Length == M * K && b.Length == K * N && c.Length == M * N && r.Length == M * N
    requires a != c && b != c && a != r && b != r && c != r
    modifies c, r
    ensures a[..] == old(a[..]) && b[..] == old(b[..])
    ensures arg.None? ==> out == MissingIndex && c[..] == old(c[..]) && r[..] == old(r[..])
    ensures arg.Some? && !(1 <= arg.value <= 3) ==>
      out == InvalidIndex(arg.value) && c[..] == Product(a[..], b[..], M, K, N) && r[..] == old(r[..])
    ensures arg.Some? && 1 <= arg.value <= 3 ==>
      out == Verified && c[..] == Product(a[..], b[..], M, K, N) && r[..] == c[..]
  {
    if arg.None? {
      return MissingIndex;
    }
    var idx := arg.value;
    MultiplyNaive(M, K, N, a, b, c);
    assert c[..] == c[..M * N];
    if idx == 1 {
      MultiplyTiled(M, K, N, a, b, r);
    } else if idx == 2 {
      MultiplyStreaming(M, K, N, a, b, r);
    } else if idx == 3 {
      MultiplyBlocked(M, K, N, a, b, r);
    } else {
      return InvalidIndex(idx);
    }
    assert r[..] == r[..M * N];
    var v := VerifyResult(c, r);
    assert v == Pass;
    return Verified;
  }
}
