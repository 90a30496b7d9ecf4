# Dense integer matrix multiply kernels (mmult)

A Dafny model of `c/mmult.c`. The program multiplies an M-by-K matrix `a` by a
K-by-N matrix `b`, both stored row-major in flat `int` buffers. It writes the
M-by-N result into a flat buffer `c`, using one of four kernels:

- `mmult_v0`, the reference triple loop. Each element gets its dot product in
  a local accumulator and is assigned once.
- `mmult_v1` cuts the (i, j) output plane into `TILE_SIZE` by `TILE_SIZE`
  tiles. Each element of a tile still gets its full dot product in a local.
- `mmult_v2` tiles the plane in the same way. It zeroes each tile, then runs
  the reduction index z outside the (ii, jj) loops, adding into the output in
  place.
- `mmult_v3` also zeroes each tile. It then cuts the reduction itself into
  blocks of `TILE_SIZE` steps.

`main` first reads a command-line index and returns with status 1 when there
is none. Otherwise it runs `mmult_v0` into `c` and then looks at the index.
For 1, 2 or 3 it runs `mmult_v1`, `mmult_v2` or `mmult_v3` into `r` and
compares the two results element by element. For any other index it exits
with status 1 without running a second kernel or comparing.

The model has six modules, one file each:

- `wrapping.dfy` (`Wrapping`): 32-bit elements (`Int32`) and the kernels'
  accumulation step `acc += x * y`. The step is `Mac`: the product and the
  sum both wrap to 32 bits, two's complement.
- `layout.dfy` (`RowMajor`): the row-major offset `r * cols + s` and the facts
  that keep offsets inside their buffers.
- `tiling.dfy` (`Tiling`): the compile-time constants `M = 1200`, `K = 800`,
  `N = 1600` and `TILE_SIZE = 32`. It also holds the tile clamp
  `min(start + TILE_SIZE, bound)`. It proves that the clamped tiles partition
  each dimension and that the tiled loops visit its indices in increasing
  order.
- `product.dfy` (`MatrixProduct`): the specification every kernel meets.
  `Dot` is the accumulator of one element after t reduction steps, taken in
  increasing z from 0. `Partial` is the whole matrix of accumulators after t
  steps, and `Product` is `Partial` after all k steps.
- `kernels.dfy` (`Kernels`): the four kernels as methods over arrays, with
  loops as in the source. Every method is proved against `Product` or
  `Partial`.
- `harness.dfy` (`Harness`): the verification loop of `main` and the
  selector dispatch.

All three tiled kernels share the source's outer loops: `TileSweep` runs over
i and `TileBand` over j. They differ only in what fills one tile (`TileBody`).
As in the source, the row and column clamps use the compile-time `M` and `N`,
so every tiled kernel requires `m == M && n == N`. The reduction loops run to
the parameter `k`, as the source does. `mmult_v1` and `mmult_v2` never read
`K`, so they are proved correct for every `k`, including k = 1. Only
`mmult_v3` clamps its reduction blocks to the compile-time `K`, so it alone
also requires `k == K`. `main` passes `M`, `K` and `N`, which meets all of
these.

Every kernel adds the terms of an element in increasing z, starting from 0.
The model therefore states one exact equality, `c[..M * N] == Product(...)`,
in wrapping arithmetic. It needs no appeal to associativity.
`DotIsWrappedExactDot` adds that the wrapped accumulation is the exact sum
reduced modulo 2^32.

## Model

| member | source | states |
|---|---|---|
| `Wrapping.Wrap` | c/mmult.c:21 | the wrapped value is congruent to its argument modulo 2^32 and equals it when it is in the 32-bit range |
| `Wrapping.WrapCongruent` | c/mmult.c:21 | two integers that agree modulo 2^32 wrap to the same 32-bit value |
| `Wrapping.Mac` | c/mmult.c:21 | the accumulation step `acc += a * b` (also lines 51, 91, 139); `MacIsWrappedSum` states that it is the exact `acc + a * b` wrapped to 32 bits |
| `Wrapping.MacIsWrappedSum` | c/mmult.c:21 | one step `acc += a * b` in 32 bits is the exact `acc + a * b` wrapped, even though the product is wrapped first |
| `RowMajor.Idx` | c/mmult.c:21-22 | the offset `r * cols + s` decodes back to row r and column s |
| `RowMajor.InBuffer` | c/mmult.c:22 | every element (r, s) of a rows-by-cols matrix lies below rows * cols |
| `RowMajor.Split` | c/mmult.c:22 | every offset below rows * cols is the offset of the element named by its quotient and remainder |
| `Tiling.TileEnd` | c/mmult.c:37-43 | the clamp `iiMax = min(i + TILE_SIZE, M)` (also lines 69-75, 109-115, 133-135); it ends a tile one edge after its start or at the bound, whichever comes first |
| `Tiling.TileOf` | c/mmult.c:31 | the tile start holding index x is a multiple of TILE_SIZE with x inside its tile |
| `Tiling.TileInBounds` | c/mmult.c:37-43 | each visited tile is non-empty and at most TILE_SIZE long; it ends at or before the bound; only a tile that ends at the bound can be short |
| `Tiling.TilesPartition` | c/mmult.c:31-43 | an index below the bound lies in the tile of a visited start if and only if that start is `TileOf(x)`, so the clamped tiles cover [0, bound) exactly once |
| `Tiling.TiledOrder` | c/mmult.c:31-47 | the indices the tile loop and its clamped inner loop visit, in order; `TiledOrderIsRange` states that they are 0 .. bound - 1, each once, in increasing order |
| `Tiling.TiledOrderIsRange` | c/mmult.c:31-47 | the tile loop with its clamped inner loop visits every index from 0 to bound - 1 exactly once, in increasing order, and none at or past the bound; for the reduction blocks of `mmult_v3` (c/mmult.c:125-137) this is the order z = 0, 1, ..., K - 1 |
| `Tiling.FullReductionBlock` | c/mmult.c:125-135 | every reduction block of `mmult_v3` is a full block of TILE_SIZE steps ending on a tile boundary, since K = 800 is a multiple of 32 |
| `Tiling.LastRowTile` | c/mmult.c:7-10 | with M = 1200 the last row tile starts at 1184 and holds rows 1184 to 1199, 16 rows |
| `Tiling.LastColumnAndReductionTiles` | c/mmult.c:8-10 | the last column tile (from 1568) and the last reduction tile (from 768) are full |
| `MatrixProduct.Dot` | c/mmult.c:19-21 | the accumulator `acc` of one element after t steps z = 0 .. t-1; `DotIsWrappedExactDot` states that it is the exact sum of the first t products wrapped to 32 bits |
| `MatrixProduct.Product` | c/mmult.c:12-25 | the m * n array that `mmult_v0` leaves, row-major; `ProductAt` states that its element (r, s) is the full dot product of (r, s) |
| `MatrixProduct.CellsAt` | c/mmult.c:15-22 | among the first p cells of the accumulator matrix, the one at (r, s) is the accumulator of element (r, s) |
| `MatrixProduct.PartialAt` | c/mmult.c:85-94 | element (r, s) of the matrix after t reduction steps is the accumulator of (r, s) after t steps |
| `MatrixProduct.ProductAt` | c/mmult.c:19-22 | element (r, s) of the product is the dot product of row r of a and column s of b over all k steps |
| `MatrixProduct.PartialStart` | c/mmult.c:77-83 | before any reduction step every accumulator is 0, matching the zeroed tile |
| `MatrixProduct.PartialStep` | c/mmult.c:91 | reduction step z takes each element from its value after z steps to its value after z + 1 steps by `c += a * b` |
| `MatrixProduct.DotIsWrappedExactDot` | c/mmult.c:19-21 | the 32-bit accumulator equals the exact integer dot product wrapped to 32 bits |
| `MatrixProduct.DotIsSumWhenInRange` | c/mmult.c:19-22 | when the exact dot product fits in 32 bits, the element is exactly the sum over z < k of `a[i][z] * b[z][j]` |
| `MatrixProduct.DotOfZeroRow` | c/mmult.c:19-21 | a dot product with an all-zero a is 0 at every step |
| `MatrixProduct.ZeroTimesAnything` | c/mmult.c:12-25 | a zero matrix a times any b gives the all-zero product |
| `Kernels.DotAccumulate` | c/mmult.c:19-21 | the local accumulator, run for z = 0 .. k-1, ends as the product's element (r, s) |
| `Kernels.MultiplyNaive` | c/mmult.c:12-25 | `mmult_v0` leaves the first m * n elements of c equal to the product, whatever c held before; it writes nothing past m * n and leaves a and b unchanged |
| `Kernels.MultiplyTiled` | c/mmult.c:27-57 | given m == M and n == N and any k, `mmult_v1` leaves c equal to the product (the same array `mmult_v0` gives); the tail of c, a and b are unchanged |
| `Kernels.MultiplyStreaming` | c/mmult.c:59-97 | given m == M and n == N and any k, `mmult_v2` leaves c equal to the product; the tail of c, a and b are unchanged |
| `Kernels.MultiplyBlocked` | c/mmult.c:99-146 | given m, k, n equal to M, K, N, `mmult_v3` leaves c equal to the product; the tail of c, a and b are unchanged |
| `Kernels.TileSweep` | c/mmult.c:31 | the i-tile loop, in order: after it every row below M holds its product, and each iteration writes only its own row band |
| `Kernels.TileBand` | c/mmult.c:33-43 | the j-tile loop for one band: each tile, clamped to M and N, gets its product; nothing outside the band changes |
| `Kernels.FillTile` | c/mmult.c:45-54 | the body of one tile, chosen by kernel, gives each element of the tile its product and changes nothing else |
| `Kernels.FullDotsRow` | c/mmult.c:47-53 | one row of a `mmult_v1` tile gets its full dot products; nothing else changes |
| `Kernels.FullDotsTile` | c/mmult.c:45-54 | every element of a `mmult_v1` tile gets its full dot product; nothing else changes |
| `Kernels.ZeroRow` | c/mmult.c:79-82 | one row of the tile becomes 0; nothing else changes |
| `Kernels.ZeroTile` | c/mmult.c:77-83 | after the zeroing loops every element of the tile is 0 and nothing outside it changed |
| `Kernels.StreamRow` | c/mmult.c:89-92 | for one row of the tile, step z moves each element from its value after z steps to its value after z + 1 steps |
| `Kernels.StreamStep` | c/mmult.c:87-93 | step z moves every element of the tile from its value after z steps to its value after z + 1 steps; nothing outside the tile changes |
| `Kernels.StreamReduction` | c/mmult.c:85-94 | after steps 0 .. t-1 each tile element holds its partial sum over z < t, elements outside the tile are unchanged, and at the end the tile holds the product |
| `Kernels.StreamingTile` | c/mmult.c:77-94 | zeroing, then streaming, gives each element of the tile its product and changes nothing else |
| `Kernels.ResumeCell` | c/mmult.c:137-140 | the zz loop moves one element from its value after `from` steps to its value after `to` steps and writes nothing else |
| `Kernels.BlockRow` | c/mmult.c:129-141 | for one row of the tile, the block starting at z moves each element to its partial sum over steps below min(z + TILE_SIZE, K) |
| `Kernels.BlockStep` | c/mmult.c:127-142 | the block starting at z moves every tile element to its partial sum over steps below `zzMax = min(z + TILE_SIZE, K)`; nothing outside the tile changes |
| `Kernels.BlockReduction` | c/mmult.c:125-143 | after each reduction block the tile holds its partial sums so far, and at the end the product; nothing outside the tile changes |
| `Kernels.BlockedTile` | c/mmult.c:117-143 | zeroing, then the blocked reduction, gives each element of the tile its product and changes nothing else |
| `Harness.VerifyResult` | c/mmult.c:196-198 | the verification loop passes exactly when c and r agree on all M * N elements; otherwise it stops at the first differing (i, j) in row-major order |
| `Harness.Run` | c/mmult.c:156-198 | a missing index returns before any work; any index runs `mmult_v0` first; an index outside 1..3 then exits; 1, 2 and 3 run `mmult_v1`, `mmult_v2` or `mmult_v3` and the verification always passes |

## Left out

- The OpenMP `#pragma omp parallel for` on the i-tile loops (c/mmult.c:30, 62, 102). The model runs that loop in order. Each iteration writes only its own row band (`TileBand`'s postcondition), so any interleaving of iterations writes the same result.
- Argument parsing in `main` (`argc`, `atoi`): the parsed index is the parameter `arg` of `Harness.Run`. `None` stands for a missing argument.
- `calloc` and the `srand`/`rand` filling of `a` and `b`: the filled buffers are parameters, of any contents. Allocation failure is not modelled.
- The gperftools profiler calls and the `printf`/`fprintf` messages: they have no effect on the buffers.
- Fixed-width overflow: C leaves signed `int` overflow undefined. The model instead applies two's-complement wrap-around uniformly to every product and every sum. `DotIsSumWhenInRange` gives the exact sum when no wrap occurs.
- Aliasing: the C signatures allow `a` or `b` to alias `c`. The model requires distinct arrays, as `main` passes them.
- The tiled kernels at other row and column counts: the row and column clamps use the compile-time `M` and `N`, so the tiled kernels are modelled only with `m == M && n == N`, and `mmult_v3` also only with `k == K`. A small product such as A = [[1, 2, 3], [4, 5, 6]] times B = [[7, 8], [9, 10], [11, 12]] (m = 2, k = 3, n = 2), or a product with m = 1 or n = 1, is therefore covered only by `mmult_v0`. A product with k = 1 is covered by `mmult_v0`, `mmult_v1` and `mmult_v2`.
- The value of that small product, [[58, 64], [139, 154]], is not proved as a concrete lemma: evaluating several wrapped dot products in one proof exceeds the solver's resource limit.
- Idempotence of repeated runs is not stated as a separate member. Each kernel's postcondition fixes its output as a function of `a` and `b` alone, so two runs on the same inputs give the same output.
- Cache behaviour and performance are not verifiable properties and are not modelled.

## Notes on the code

- In `main` the reference kernel runs before the selector is checked (c/mmult.c:174-190). An invalid index therefore exits only after `mmult_v0` has filled `c`. `Harness.Run` models this order: an invalid index leaves `c` equal to the product and `r` untouched. It does not model an early exit before any multiplication.
- The tiled kernels clamp to the compile-time dimensions, not to their parameters. The model keeps this and states the requirement on the dimensions explicitly, rather than clamping to `m` and `n` (and, in `mmult_v3`, to `k`).
