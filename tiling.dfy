/** The compile-time dimensions and the tile clamp shared by the tiled kernels. */
module Tiling {

  /** Rows of A and of the result. */
  const M: nat := 1200
  /** Columns of A and rows of B: the reduction dimension. */
  const K: nat := 800
  /** Columns of B and of the result. */
  const N: nat := 1600
  /** Edge length of every tile. */
  const TILE_SIZE: nat := 32

  /** The end of the tile that starts at `start`: one tile edge further, clamped
      to `bound` (`iiMax = i + TILE_SIZE; if (iiMax > M) iiMax = M;`). */
  function TileEnd(start: nat, bound: nat): nat
  {
    if start + TILE_SIZE > bound then bound else start + TILE_SIZE
  }

  /** A start the tiled loops visit: a multiple of the tile edge below the bound. */
  predicate IsTileStart(start: nat, bound: nat)
  {
    start % TILE_SIZE == 0 && start < bound
  }

  /** The start of the one tile that holds index `x`. */
  function TileOf(x: nat): (start: nat)
    ensures start % TILE_SIZE == 0 && start <= x < start + TILE_SIZE
  {
    x / TILE_SIZE * TILE_SIZE
  }

  /** Each tile a loop visits is non-empty, no longer than a tile edge, and stays
      inside the bound; only the last one may be shorter. */
  lemma TileInBounds(start: nat, bound: nat)
    requires IsTileStart(start, bound)
    ensures start < TileEnd(start, bound) <= bound
    ensures TileEnd(start, bound) - start <= TILE_SIZE
    ensures TileEnd(start, bound) - start < TILE_SIZE ==> TileEnd(start, bound) == bound
  {
  }

  /** The tiles [start, TileEnd(start, bound)) of the visited starts partition
      [0, bound): every index below the bound lies in the tile of exactly one
      visited start, namely TileOf(x). */
  lemma TilesPartition(bound: nat, start: nat, x: nat)
    requires IsTileStart(start, bound) && x < bound
    ensures IsTileStart(TileOf(x), bound)
    ensures start <= x < TileEnd(start, bound) <==> start == TileOf(x)
  {
    var q := start / TILE_SIZE;
    assert start == q * TILE_SIZE;
    if start <= x < start + TILE_SIZE {
      assert x / TILE_SIZE == q;
    }
  }

  /** The indices lo, lo + 1, ..., hi - 1, in increasing order. */
  function Range(lo: nat, hi: nat): (s: seq<nat>)
    ensures |s| == if lo < hi then hi - lo else 0
    ensures forall p :: 0 <= p < |s| ==> s[p] == lo + p
    decreases hi - lo
  {
    if lo < hi then [lo] + Range(lo + 1, hi) else []
  }

  /** The indices that a tile loop and the loop inside each tile visit, in
      order: tile starts `start`, `start + TILE_SIZE`, ... below `bound`, and
      within each tile the indices from its start up to its clamped end
      (`for (i = 0; i < m; i += TILE_SIZE) ... for (ii = i; ii < iiMax; ii++)`). */
  function TiledOrder(start: nat, bound: nat): seq<nat>
    decreases bound - start
  {
    if start < bound then Range(start, TileEnd(start, bound)) + TiledOrder(start + TILE_SIZE, bound)
    else []
  }

  /** Two adjacent ranges concatenate to one range. */
  lemma RangeSplit(lo: nat, mid: nat, hi: nat)
    requires lo <= mid <= hi
    ensures Range(lo, mid) + Range(mid, hi) == Range(lo, hi)
  {
    assert forall p :: 0 <= p < hi - lo ==> (Range(lo, mid) + Range(mid, hi))[p] == lo + p;
  }

  /** The clamped tiles partition [start, bound) in order: the tiled loops
      visit every index from `start` to `bound - 1` exactly once, in increasing
      order, and no index at or past the bound. For the rows, columns and
      reduction steps of the tiled kernels, start is 0. */
  lemma {:induction false} TiledOrderIsRange(start: nat, bound: nat)
    requires start <= bound
    ensures TiledOrder(start, bound) == Range(start, bound)
    decreases bound - start
  {
    if start < bound {
      if start + TILE_SIZE < bound {
        TiledOrderIsRange(start + TILE_SIZE, bound);
        RangeSplit(start, start + TILE_SIZE, bound);
      } else {
        assert TiledOrder(start + TILE_SIZE, bound) == [];
      }
    }
  }

  /** K = 800 is a multiple of the tile edge, so every reduction block that
      starts on a tile boundary below K is a full block. */
  lemma FullReductionBlock(z: nat)
    requires IsTileStart(z, K)
    ensures TileEnd(z, K) == z + TILE_SIZE && (z + TILE_SIZE) % TILE_SIZE == 0
  {
    var q := z / TILE_SIZE;
    assert z == q * TILE_SIZE;
    assert z + TILE_SIZE == (q + 1) * TILE_SIZE;
  }

  /** With M = 1200 the last row tile starts at row 1184 and holds rows 1184 to
      1199: 16 rows, not 32. */
  lemma LastRowTile()
    ensures IsTileStart(1184, M) && TileOf(M - 1) == 1184
    ensures TileEnd(1184, M) == M && TileEnd(1184, M) - 1184 == 16
  {
  }

  /** N = 1600 and K = 800 are multiples of the tile edge, so their last tiles
      are full. */
  lemma LastColumnAndReductionTiles()
    ensures TileOf(N - 1) == 1568 && TileEnd(1568, N) == N && N - 1568 == TILE_SIZE
    ensures TileOf(K - 1) == 768 && TileEnd(768, K) == K && K - 768 == TILE_SIZE
  {
  }
}
