/** The four multiplication kernels of c/mmult.c. Each writes the m-by-n
    product of a (m by k) and b (k by n) into the row-major buffer c in place. */
module Kernels {
  import opened Wrapping
  import opened RowMajor
  import opened Tiling
  import opened MatrixProduct

  /** The dot product of row r of a and column s of b, accumulated in a local
      with z increasing from 0 (`int acc = 0; for (z...) acc += ...`). */
  method DotAccumulate(m: nat, k: nat, n: nat, a: array<Int32>, b: array<Int32>, r: nat, s: nat) returns (acc: Int32)
    requires Shaped(a[..], b[..], m, k, n) && r < m && s < n
    ensures Idx(n, r, s) < m * n && acc == Product(a[..], b[..], m, k, n)[Idx(n, r, s)]
  {
    acc := 0;
    var z := 0;
    while z < k
      invariant 0 <= z <= k
      invariant acc == Dot(a[..], b[..], m, k, n, r, s, z)
    {
      InBuffer(m, k, r, z);
      InBuffer(k, n, z, s);
      acc := Mac(acc, a[Idx(k, r, z)], b[Idx(n, z, s)]);
      z := z + 1;
    }
    ProductAt(a[..], b[..], m, k, n, r, s);
  }

  /** mmult_v0, the reference kernel: for each element in row-major order, the
      full dot product, assigned once. The result does not depend on what c
      held before, and nothing past the first m * n elements is written. */
  method MultiplyNaive(m: nat, k: nat, n: nat, a: array<Int32>, b: array<Int32>, c: array<Int32>)
    requires a.Length >= m * k && b.Length >= k * n && c.Length >= m * n && a != c && b != c
    modifies c
    ensures c[..m * n] == Product(a[..], b[..], m, k, n)
    ensures c[m * n..] == old(c[m * n..])
    ensures a[..] == old(a[..]) && b[..] == old(b[..])
  {
    ghost var want := Product(a[..], b[..], m, k, n);
    AllInBuffer(m, n);
    var i := 0;
    while i < m
      invariant 0 <= i <= m
      invariant forall r, s :: 0 <= r < m && 0 <= s < n ==>
        c[Idx(n, r, s)] == if r < i then want[Idx(n, r, s)] else old(c[Idx(n, r, s)])
      invariant forall p :: m * n <= p < c.Length ==> c[p] == old(c[p])
    {
      var j := 0;
      while j < n
        invariant 0 <= j <= n
        invariant forall r, s :: 0 <= r < m && 0 <= s < n ==>
          c[Idx(n, r, s)] == if r < i || (r == i && s < j) then want[Idx(n, r, s)] else old(c[Idx(n, r, s)])
        invariant forall p :: m * n <= p < c.Length ==> c[p] == old(c[p])
      {
        var acc := DotAccumulate(m, k, n, a, b, i, j);
        c[Idx(n, i, j)] := acc;
        j := j + 1;
      }
      i := i + 1;
    }
    Finish(m, n, c, want);
  }

  /** What the tiled kernels do inside one tile: mmult_v1 computes each full dot
      product in a local, mmult_v2 zeroes the tile and streams every reduction
      step over the whole tile, mmult_v3 zeroes the tile and runs the reduction
      in blocks of TILE_SIZE steps per element. */
  datatype TileBody = FullDots | Streaming | Blocked

  /** Whether (r, s) lies in the tile [i, iMax) x [j, jMax). */
  predicate InTile(i: nat, iMax: nat, j: nat, jMax: nat, r: nat, s: nat)
  {
    i <= r < iMax && j <= s < jMax
  }

  /** mmult_v1: the (i, j) plane in tiles, each element of a tile getting its
      full dot product in a local. Row and column tiles are clamped to the
      compile-time M and N, so the kernel needs m == M and n == N, as `main`
      passes them; the reduction runs to the parameter k, whatever it is. */
  method MultiplyTiled(m: nat, k: nat, n: nat, a: array<Int32>, b: array<Int32>, c: array<Int32>)
    requires m == M && n == N
    requires a.Length >= M * k && b.Length >= k * N && c.Length >= M * N && a != c && b != c
    modifies c
    ensures c[..M * N] == Product(a[..], b[..], M, k, N)
    ensures c[M * N..] == old(c[M * N..])
    ensures a[..] == old(a[..]) && b[..] == old(b[..])
  {
    TileSweep(FullDots, m, k, n, a, b, c);
  }

  /** mmult_v2: the (i, j) plane in tiles; each tile is zeroed, then the
      reduction index z runs outside the (ii, jj) loops, adding one product
      term to every element of the tile per step. Like mmult_v1 it clamps to
      M and N only and never reads K, so any k is correct. */
  method MultiplyStreaming(m: nat, k: nat, n: nat, a: array<Int32>, b: array<Int32>, c: array<Int32>)
    requires m == M && n == N
    requires a.Length >= M * k && b.Length >= k * N && c.Length >= M * N && a != c && b != c
    modifies c
    ensures c[..M * N] == Product(a[..], b[..], M, k, N)
    ensures c[M * N..] == old(c[M * N..])
    ensures a[..] == old(a[..]) && b[..] == old(b[..])
  {
    TileSweep(Streaming, m, k, n, a, b, c);
  }

  /** mmult_v3: the (i, j) plane in tiles; each tile is zeroed, then the
      reduction runs in blocks of TILE_SIZE steps clamped to the compile-time
      K, each block completed for every element of the tile in turn. The block
      clamp is why this kernel, unlike the other two, also needs k == K. */
  method MultiplyBlocked(m: nat, k: nat, n: nat, a: array<Int32>, b: array<Int32>, c: array<Int32>)
    requires m == M && k == K && n == N
    requires a.Length >= M * K && b.Length >= K * N && c.Length >= M * N && a != c && b != c
    modifies c
    ensures c[..M * N] == Product(a[..], b[..], M, K, N)
    ensures c[M * N..] == old(c[M * N..])
    ensures a[..] == old(a[..]) && b[..] == old(b[..])
  {
    TileSweep(Blocked, m, k, n, a, b, c);
  }

  /** mmult_v1, mmult_v2 and mmult_v3 share their outer loops: the (i, j) plane
      is cut into TILE_SIZE by TILE_SIZE tiles and `body` fills each tile. They
      differ only in `body`. The i-tile loop, parallel in the source, runs here
      in order; its iterations write disjoint row bands. */
  method TileSweep(body: TileBody, m: nat, k: nat, n: nat, a: array<Int32>, b: array<Int32>, c: array<Int32>)
    requires m == M && n == N && (body.Blocked? ==> k == K)
    requires a.Length >= M * k && b.Length >= k * N && c.Length >= M * N && a != c && b != c
    modifies c
    ensures c[..M * N] == Product(a[..], b[..], M, k, N)
    ensures c[M * N..] == old(c[M * N..])
  {
    ghost var want := Product(a[..], b[..], M, k, N);
    AllInBuffer(M, N);
    var i := 0;
    while i < m
      invariant forall r, s :: 0 <= r < M && 0 <= s < N ==>
        c[Idx(N, r, s)] == if r < i then want[Idx(N, r, s)] else old(c[Idx(N, r, s)])
      invariant forall p :: M * N <= p < c.Length ==> c[p] == old(c[p])
    {
      TileBand(body, k, n, a, b, c, i, want);
      i := i + TILE_SIZE;
    }
    Finish(M, N, c, want);
  }

  /** One iteration i of the tiled kernels' outer loop, the `j` loop: the tiles
      of the row band [i, i + TILE_SIZE), left to right, each clamped to the
      compile-time M and N, get their products; nothing outside the band
      changes. */
  method TileBand(body: TileBody, k: nat, n: nat, a: array<Int32>, b: array<Int32>, c: array<Int32>, i: nat, ghost want: seq<Int32>)
    requires (body.Blocked? ==> k == K) && n == N && i < M
    requires a.Length >= M * k && b.Length >= k * N && c.Length >= M * N && a != c && b != c
    requires want == Product(a[..], b[..], M, k, N)
    modifies c
    ensures forall r, s :: 0 <= r < M && 0 <= s < N ==>
      c[Idx(N, r, s)] == if InTile(i, i + TILE_SIZE, 0, N, r, s) then want[Idx(N, r, s)] else old(c[Idx(N, r, s)])
    ensures forall p :: M * N <= p < c.Length ==> c[p] == old(c[p])
  {
    var j := 0;
    while j < n
      invariant forall r, s :: 0 <= r < M && 0 <= s < N ==>
        c[Idx(N, r, s)] == if InTile(i, i + TILE_SIZE, 0, j, r, s) then want[Idx(N, r, s)] else old(c[Idx(N, r, s)])
      invariant forall p :: M * N <= p < c.Length ==> c[p] == old(c[p])
    {
      var iiMax := i + TILE_SIZE;
      if iiMax > M {
        iiMax := M;
      }
      var jjMax := j + TILE_SIZE;
      if jjMax > N {
        jjMax := N;
      }
      assert iiMax == TileEnd(i, M) && jjMax == TileEnd(j, N);
      FillTile(body, k, a, b, c, i, iiMax, j, jjMax, want);
      j := j + TILE_SIZE;
    }
  }

  /** The tile [i, iMax) x [j, jMax) gets its product by the chosen tile body;
      nothing else changes. */
  method FillTile(body: TileBody, k: nat, a: array<Int32>, b: array<Int32>, c: array<Int32>,
                  i: nat, iMax: nat, j: nat, jMax: nat, ghost want: seq<Int32>)
    requires body.Blocked? ==> k == K
    requires a.Length >= M * k && b.Length >= k * N && c.Length >= M * N && a != c && b != c
    requires i <= iMax <= M && j <= jMax <= N
    requires want == Product(a[..], b[..], M, k, N)
    modifies c
    ensures forall r, s :: 0 <= r < M && 0 <= s < N ==>
      c[Idx(N, r, s)] == if InTile(i, iMax, j, jMax, r, s) then want[Idx(N, r, s)] else old(c[Idx(N, r, s)])
    ensures forall p :: M * N <= p < c.Length ==> c[p] == old(c[p])
  {
    match body {
      case FullDots => FullDotsTile(k, a, b, c, i, iMax, j, jMax, want);
      case Streaming => StreamingTile(k, a, b, c, i, iMax, j, jMax, want);
      case Blocked => BlockedTile(k, a, b, c, i, iMax, j, jMax, want);
    }
  }

  /** One row ii of an mmult_v1 tile, the `jj` loop: columns [j, jMax) of row
      ii get their full dot products, each computed in a local; nothing else
      changes. */
  method FullDotsRow(k: nat, a: array<Int32>, b: array<Int32>, c: array<Int32>,
                     ii: nat, j: nat, jMax: nat, ghost want: seq<Int32>)
    requires a.Length >= M * k && b.Length >= k * N && c.Length >= M * N && a != c && b != c
    requires ii < M && j <= jMax <= N
    requires want == Product(a[..], b[..], M, k, N)
    modifies c
    ensures forall r, s :: 0 <= r < M && 0 <= s < N ==>
      c[Idx(N, r, s)] == if InTile(ii, ii + 1, j, jMax, r, s) then want[Idx(N, r, s)] else old(c[Idx(N, r, s)])
    ensures forall p :: M * N <= p < c.Length ==> c[p] == old(c[p])
  {
    AllInBuffer(M, N);
    var jj := j;
    while jj < jMax
      invariant j <= jj <= jMax
      invariant forall r, s :: 0 <= r < M && 0 <= s < N ==>
        c[Idx(N, r, s)] == if InTile(ii, ii + 1, j, jj, r, s) then want[Idx(N, r, s)] else old(c[Idx(N, r, s)])
      invariant forall p :: M * N <= p < c.Length ==> c[p] == old(c[p])
    {
      var acc := DotAccumulate(M, k, N, a, b, ii, jj);
      c[Idx(N, ii, jj)] := acc;
      jj := jj + 1;
    }
  }

  /** The tile body of mmult_v1, the `ii` loop: every element of the tile
      [i, iMax) x [j, jMax) gets its full dot product; nothing else changes. */
  method FullDotsTile(k: nat, a: array<Int32>, b: array<Int32>, c: array<Int32>,
                      i: nat, iMax: nat, j: nat, jMax: nat, ghost want: seq<Int32>)
    requires a.Length >= M * k && b.Length >= k * N && c.Length >= M * N && a != c && b != c
    requires i <= iMax <= M && j <= jMax <= N
    requires want == Product(a[..], b[..], M, k, N)
    modifies c
    ensures forall r, s :: 0 <= r < M && 0 <= s < N ==>
      c[Idx(N, r, s)] == if InTile(i, iMax, j, jMax, r, s) then want[Idx(N, r, s)] else old(c[Idx(N, r, s)])
    ensures forall p :: M * N <= p < c.Length ==> c[p] == old(c[p])
  {
    var ii := i;
    while ii < iMax
      invariant i <= ii <= iMax
      invariant forall r, s :: 0 <= r < M && 0 <= s < N ==>
        c[Idx(N, r, s)] == if InTile(i, ii, j, jMax, r, s) then want[Idx(N, r, s)] else old(c[Idx(N, r, s)])
      invariant forall p :: M * N <= p < c.Length ==> c[p] == old(c[p])
    {
      FullDotsRow(k, a, b, c, ii, j, jMax, want);
      ii := ii + 1;
    }
  }

  /** Columns [j, jMax) of row ii become 0; nothing else changes. */
  method ZeroRow(c: array<Int32>, ii: nat, j: nat, jMax: nat)
    requires c.Length >= M * N && ii < M && j <= jMax <= N
    modifies c
    ensures forall r, s :: 0 <= r < M && 0 <= s < N ==>
      c[Idx(N, r, s)] == if InTile(ii, ii + 1, j, jMax, r, s) then 0 else old(c[Idx(N, r, s)])
    ensures forall p :: M * N <= p < c.Length ==> c[p] == old(c[p])
  {
    var jj := j;
    while jj < jMax
      invariant j <= jj <= jMax
      invariant forall r, s :: 0 <= r < M && 0 <= s < N ==>
        c[Idx(N, r, s)] == if InTile(ii, ii + 1, j, jj, r, s) then 0 else old(c[Idx(N, r, s)])
      invariant forall p :: M * N <= p < c.Length ==> c[p] == old(c[p])
    {
      InBuffer(M, N, ii, jj);
      c[Idx(N, ii, jj)] := 0;
      jj := jj + 1;
    }
  }

  /** The zeroing loops of mmult_v2 and mmult_v3: every element of the tile
      [i, iMax) x [j, jMax) becomes 0; nothing else changes. */
  method ZeroTile(c: array<Int32>, i: nat, iMax: nat, j: nat, jMax: nat)
    requires c.Length >= M * N && i <= iMax <= M && j <= jMax <= N
    modifies c
    ensures forall r, s :: 0 <= r < M && 0 <= s < N ==>
      c[Idx(N, r, s)] == if InTile(i, iMax, j, jMax, r, s) then 0 else old(c[Idx(N, r, s)])
    ensures forall p :: M * N <= p < c.Length ==> c[p] == old(c[p])
  {
    var ii := i;
    while ii < iMax
      invariant i <= ii <= iMax
      invariant forall r, s :: 0 <= r < M && 0 <= s < N ==>
        c[Idx(N, r, s)] == if InTile(i, ii, j, jMax, r, s) then 0 else old(c[Idx(N, r, s)])
      invariant forall p :: M * N <= p < c.Length ==> c[p] == old(c[p])
    {
      ZeroRow(c, ii, j, jMax);
      ii := ii + 1;
    }
  }

  /** Row ii of one iteration z of mmult_v2's reduction loop:
      `c[ii][jj] += a[ii][z] * b[z][jj]` in 32 bits for jj in [j, jMax), which
      takes each of these elements from its accumulator after z steps to its
      accumulator after z + 1 steps; nothing else changes. */
  method StreamRow(k: nat, a: array<Int32>, b: array<Int32>, c: array<Int32>,
                   ii: nat, j: nat, jMax: nat, z: nat)
    requires a.Length >= M * k && b.Length >= k * N && c.Length >= M * N && a != c && b != c
    requires ii < M && j <= jMax <= N && z < k
    requires forall r, s :: InTile(ii, ii + 1, j, jMax, r, s) ==>
      Idx(N, r, s) < M * N && c[Idx(N, r, s)] == Partial(a[..], b[..], M, k, N, z)[Idx(N, r, s)]
    modifies c
    ensures forall r, s :: 0 <= r < M && 0 <= s < N ==>
      c[Idx(N, r, s)] == if InTile(ii, ii + 1, j, jMax, r, s) then Partial(a[..], b[..], M, k, N, z + 1)[Idx(N, r, s)]
                         else old(c[Idx(N, r, s)])
    ensures forall p :: M * N <= p < c.Length ==> c[p] == old(c[p])
  {
    ghost var next := Partial(a[..], b[..], M, k, N, z + 1);
    AllInBuffer(M, N);
    var jj := j;
    while jj < jMax
      invariant j <= jj <= jMax
      invariant forall r, s :: 0 <= r < M && 0 <= s < N ==>
        c[Idx(N, r, s)] == if InTile(ii, ii + 1, j, jj, r, s) then next[Idx(N, r, s)] else old(c[Idx(N, r, s)])
      invariant forall p :: M * N <= p < c.Length ==> c[p] == old(c[p])
    {
      PartialStep(a[..], b[..], M, k, N, z, ii, jj);
      c[Idx(N, ii, jj)] := Mac(c[Idx(N, ii, jj)], a[Idx(k, ii, z)], b[Idx(N, z, jj)]);
      jj := jj + 1;
    }
  }

  /** One iteration z of mmult_v2's reduction loop over the whole tile: each
      element of the tile moves from its accumulator after z steps to its
      accumulator after z + 1 steps; nothing outside the tile changes. */
  method StreamStep(k: nat, a: array<Int32>, b: array<Int32>, c: array<Int32>,
                    i: nat, iMax: nat, j: nat, jMax: nat, z: nat)
    requires a.Length >= M * k && b.Length >= k * N && c.Length >= M * N && a != c && b != c
    requires i <= iMax <= M && j <= jMax <= N && z < k
    requires forall r, s :: InTile(i, iMax, j, jMax, r, s) ==>
      Idx(N, r, s) < M * N && c[Idx(N, r, s)] == Partial(a[..], b[..], M, k, N, z)[Idx(N, r, s)]
    modifies c
    ensures forall r, s :: 0 <= r < M && 0 <= s < N ==>
      c[Idx(N, r, s)] == if InTile(i, iMax, j, jMax, r, s) then Partial(a[..], b[..], M, k, N, z + 1)[Idx(N, r, s)]
                         else old(c[Idx(N, r, s)])
    ensures forall p :: M * N <= p < c.Length ==> c[p] == old(c[p])
  {
    ghost var next := Partial(a[..], b[..], M, k, N, z + 1);
    var ii := i;
    while ii < iMax
      invariant i <= ii <= iMax
      invariant forall r, s :: 0 <= r < M && 0 <= s < N ==>
        c[Idx(N, r, s)] == if InTile(i, ii, j, jMax, r, s) then next[Idx(N, r, s)] else old(c[Idx(N, r, s)])
      invariant forall p :: M * N <= p < c.Length ==> c[p] == old(c[p])
    {
      StreamRow(k, a, b, c, ii, j, jMax, z);
      ii := ii + 1;
    }
  }

  /** The tile body of mmult_v2: zero the tile, then stream the reduction over
      it; the tile gets its product and nothing else changes. */
  method StreamingTile(k: nat, a: array<Int32>, b: array<Int32>, c: array<Int32>,
                       i: nat, iMax: nat, j: nat, jMax: nat, ghost want: seq<Int32>)
    requires a.Length >= M * k && b.Length >= k * N && c.Length >= M * N && a != c && b != c
    requires i <= iMax <= M && j <= jMax <= N
    requires want == Product(a[..], b[..], M, k, N)
    modifies c
    ensures forall r, s :: 0 <= r < M && 0 <= s < N ==>
      c[Idx(N, r, s)] == if InTile(i, iMax, j, jMax, r, s) then want[Idx(N, r, s)] else old(c[Idx(N, r, s)])
    ensures forall p :: M * N <= p < c.Length ==> c[p] == old(c[p])
  {
    ZeroTile(c, i, iMax, j, jMax);
    StreamReduction(k, a, b, c, i, iMax, j, jMax, want);
  }

  /** mmult_v2's reduction loop: for z = 0 .. k-1 add the z-th product term to
      every element of a zeroed tile. After step z every element of the tile
      holds its accumulator after z steps, so at the end its full dot product;
      nothing outside the tile changes. */
  method StreamReduction(k: nat, a: array<Int32>, b: array<Int32>, c: array<Int32>,
                         i: nat, iMax: nat, j: nat, jMax: nat, ghost want: seq<Int32>)
    requires a.Length >= M * k && b.Length >= k * N && c.Length >= M * N && a != c && b != c
    requires i <= iMax <= M && j <= jMax <= N
    requires want == Product(a[..], b[..], M, k, N)
    requires forall r, s :: InTile(i, iMax, j, jMax, r, s) ==> Idx(N, r, s) < M * N && c[Idx(N, r, s)] == 0
    modifies c
    ensures forall r, s :: 0 <= r < M && 0 <= s < N ==>
      c[Idx(N, r, s)] == if InTile(i, iMax, j, jMax, r, s) then want[Idx(N, r, s)] else old(c[Idx(N, r, s)])
    ensures forall p :: M * N <= p < c.Length ==> c[p] == old(c[p])
  {
    PartialStart(a[..], b[..], M, k, N);
    var z := 0;
    while z < k
      invariant z <= k
      invariant forall r, s :: 0 <= r < M && 0 <= s < N ==>
        c[Idx(N, r, s)] == if InTile(i, iMax, j, jMax, r, s) then Partial(a[..], b[..], M, k, N, z)[Idx(N, r, s)] else old(c[Idx(N, r, s)])
      invariant forall p :: M * N <= p < c.Length ==> c[p] == old(c[p])
    {
      StreamStep(k, a, b, c, i, iMax, j, jMax, z);
      z := z + 1;
    }
  }

  /** mmult_v3's innermost loop: element (r, s) resumes its accumulation at step
      `from` and runs it up to step `to`, so it moves from its accumulator after
      `from` steps to its accumulator after `to` steps; nothing else changes. */
  method ResumeCell(k: nat, a: array<Int32>, b: array<Int32>, c: array<Int32>, r: nat, s: nat, from: nat, to: nat)
    requires a.Length >= M * k && b.Length >= k * N && c.Length >= M * N && a != c && b != c
    requires r < M && s < N && from <= to <= k
    requires Idx(N, r, s) < M * N && c[Idx(N, r, s)] == Partial(a[..], b[..], M, k, N, from)[Idx(N, r, s)]
    modifies c
    ensures c[Idx(N, r, s)] == Partial(a[..], b[..], M, k, N, to)[Idx(N, r, s)]
    ensures forall p :: 0 <= p < c.Length && p != Idx(N, r, s) ==> c[p] == old(c[p])
  {
    var p := Idx(N, r, s);
    assert c[p] == Dot(a[..], b[..], M, k, N, r, s, from) by {
      PartialAt(a[..], b[..], M, k, N, from, r, s);
    }
    var zz := from;
    while zz < to
      invariant from <= zz <= to
      invariant c[p] == Dot(a[..], b[..], M, k, N, r, s, zz)
      invariant forall q :: 0 <= q < c.Length && q != p ==> c[q] == old(c[q])
    {
      InBuffer(M, k, r, zz);
      InBuffer(k, N, zz, s);
      c[p] := Mac(c[p], a[Idx(k, r, zz)], b[Idx(N, zz, s)]);
      zz := zz + 1;
    }
    PartialAt(a[..], b[..], M, k, N, to, r, s);
  }

  /** Row ii of one iteration of mmult_v3's z-block loop: each element of
      columns [j, jMax) computes the block end zzMax = min(z + TILE_SIZE, K)
      afresh and moves from its accumulator after z steps to its accumulator
      after zzMax steps; nothing else changes. */
  method BlockRow(k: nat, a: array<Int32>, b: array<Int32>, c: array<Int32>,
                  ii: nat, j: nat, jMax: nat, z: nat)
    requires k == K
    requires a.Length >= M * k && b.Length >= k * N && c.Length >= M * N && a != c && b != c
    requires ii < M && j <= jMax <= N && z < k
    requires forall r, s :: InTile(ii, ii + 1, j, jMax, r, s) ==>
      Idx(N, r, s) < M * N && c[Idx(N, r, s)] == Partial(a[..], b[..], M, k, N, z)[Idx(N, r, s)]
    modifies c
    ensures forall r, s :: 0 <= r < M && 0 <= s < N ==>
      c[Idx(N, r, s)] == if InTile(ii, ii + 1, j, jMax, r, s) then Partial(a[..], b[..], M, k, N, TileEnd(z, K))[Idx(N, r, s)]
                         else old(c[Idx(N, r, s)])
    ensures forall p :: M * N <= p < c.Length ==> c[p] == old(c[p])
  {
    ghost var next := Partial(a[..], b[..], M, k, N, TileEnd(z, K));
    AllInBuffer(M, N);
    var jj := j;
    while jj < jMax
      invariant j <= jj <= jMax
      invariant forall r, s :: 0 <= r < M && 0 <= s < N ==>
        c[Idx(N, r, s)] == if InTile(ii, ii + 1, j, jj, r, s) then next[Idx(N, r, s)] else old(c[Idx(N, r, s)])
      invariant forall p :: M * N <= p < c.Length ==> c[p] == old(c[p])
    {
      var zzMax := z + TILE_SIZE;
      if zzMax > K {
        zzMax := K;
      }
      ResumeCell(k, a, b, c, ii, jj, z, zzMax);
      jj := jj + 1;
    }
  }

  /** One iteration of mmult_v3's z-block loop over the whole tile: every
      element of the tile moves from its accumulator after z steps to its
      accumulator after min(z + TILE_SIZE, K) steps; nothing outside the tile
      changes. */
  method BlockStep(k: nat, a: array<Int32>, b: array<Int32>, c: array<Int32>,
                   i: nat, iMax: nat, j: nat, jMax: nat, z: nat)
    requires k == K
    requires a.Length >= M * k && b.Length >= k * N && c.Length >= M * N && a != c && b != c
    requires i <= iMax <= M && j <= jMax <= N && z < k
    requires forall r, s :: InTile(i, iMax, j, jMax, r, s) ==>
      Idx(N, r, s) < M * N && c[Idx(N, r, s)] == Partial(a[..], b[..], M, k, N, z)[Idx(N, r, s)]
    modifies c
    ensures forall r, s :: 0 <= r < M && 0 <= s < N ==>
      c[Idx(N, r, s)] == if InTile(i, iMax, j, jMax, r, s) then Partial(a[..], b[..], M, k, N, TileEnd(z, K))[Idx(N, r, s)]
                         else old(c[Idx(N, r, s)])
    ensures forall p :: M * N <= p < c.Length ==> c[p] == old(c[p])
  {
    ghost var next := Partial(a[..], b[..], M, k, N, TileEnd(z, K));
    var ii := i;
    while ii < iMax
      invariant i <= ii <= iMax
      invariant forall r, s :: 0 <= r < M && 0 <= s < N ==>
        c[Idx(N, r, s)] == if InTile(i, ii, j, jMax, r, s) then next[Idx(N, r, s)] else old(c[Idx(N, r, s)])
      invariant forall p :: M * N <= p < c.Length ==> c[p] == old(c[p])
    {
      BlockRow(k, a, b, c, ii, j, jMax, z);
      ii := ii + 1;
    }
  }

  /** The tile body of mmult_v3: zero the tile, then run the reduction over it
      in blocks; the tile gets its product and nothing else changes. */
  method BlockedTile(k: nat, a: array<Int32>, b: array<Int32>, c: array<Int32>,
                     i: nat, iMax: nat, j: nat, jMax: nat, ghost want: seq<Int32>)
    requires k == K
    requires a.Length >= M * k && b.Length >= k * N && c.Length >= M * N && a != c && b != c
    requires i <= iMax <= M && j <= jMax <= N
    requires want == Product(a[..], b[..], M, k, N)
    modifies c
    ensures forall r, s :: 0 <= r < M && 0 <= s < N ==>
      c[Idx(N, r, s)] == if InTile(i, iMax, j, jMax, r, s) then want[Idx(N, r, s)] else old(c[Idx(N, r, s)])
    ensures forall p :: M * N <= p < c.Length ==> c[p] == old(c[p])
  {
    ZeroTile(c, i, iMax, j, jMax);
    BlockReduction(k, a, b, c, i, iMax, j, jMax, want);
  }

  /** mmult_v3's z-block loop: blocks z = 0, TILE_SIZE, ... below K run over a
      zeroed tile. After each block every element of the tile holds its
      accumulator after the steps done so far, so at the end its full dot
      product; nothing outside the tile changes. */
  method BlockReduction(k: nat, a: array<Int32>, b: array<Int32>, c: array<Int32>,
                        i: nat, iMax: nat, j: nat, jMax: nat, ghost want: seq<Int32>)
    requires k == K
    requires a.Length >= M * k && b.Length >= k * N && c.Length >= M * N && a != c && b != c
    requires i <= iMax <= M && j <= jMax <= N
    requires want == Product(a[..], b[..], M, k, N)
    requires forall r, s :: InTile(i, iMax, j, jMax, r, s) ==> Idx(N, r, s) < M * N && c[Idx(N, r, s)] == 0
    modifies c
    ensures forall r, s :: 0 <= r < M && 0 <= s < N ==>
      c[Idx(N, r, s)] == if InTile(i, iMax, j, jMax, r, s) then want[Idx(N, r, s)] else old(c[Idx(N, r, s)])
    ensures forall p :: M * N <= p < c.Length ==> c[p] == old(c[p])
  {
    PartialStart(a[..], b[..], M, k, N);
    var z := 0;
    while z < k
      invariant z <= k && z % TILE_SIZE == 0
      invariant forall r, s :: 0 <= r < M && 0 <= s < N ==>
        c[Idx(N, r, s)] == if InTile(i, iMax, j, jMax, r, s) then Partial(a[..], b[..], M, k, N, z)[Idx(N, r, s)] else old(c[Idx(N, r, s)])
      invariant forall p :: M * N <= p < c.Length ==> c[p] == old(c[p])
    {
      BlockStep(k, a, b, c, i, iMax, j, jMax, z);
      FullReductionBlock(z);
      z := z + TILE_SIZE;
    }
  }

  /** Once every element (r, s) of c agrees with `want` and `want` has exactly
      m * n elements, the first m * n elements of c are `want`. */
  lemma Finish(m: nat, n: nat, c: array<Int32>, want: seq<Int32>)
    requires c.Length >= m * n && |want| == m * n
    requires forall r, s :: 0 <= r < m && 0 <= s < n ==>
      Idx(n, r, s) < m * n && c[Idx(n, r, s)] == want[Idx(n, r, s)]
    ensures c[..m * n] == want
  {
    forall p | 0 <= p < m * n
      ensures c[p] == want[p]
    {
      Split(m, n, p);
      assert Idx(n, p / n, p % n) == p;
    }
  }
}
