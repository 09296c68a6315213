/**
 * The index arithmetic of the block-level kernel: the block's share of
 * the output, the threads' shares of a tile, and the guard of the loops
 * that stage input into the circular buffers. Each piece whose code as
 * written differs from what it evidently means comes twice: as written
 * (the `...AsWritten` members, with a lemma that exhibits the difference)
 * and corrected (used by the kernel model).
 */
module KernelIndex {
  import opened CoRankSearch

  /** The number of slots of each circular buffer, `TILE_SIZE`. */
  const TileSize: int := 1024

  /** C++ division of `int`s, which truncates toward zero. */
  function CDiv(x: int, y: int): (q: int)
    requires y > 0
    ensures x >= 0 ==> q == x / y
    ensures x < 0 ==> q <= 0
  {
    if x >= 0 then x / y else -((-x) / y)
  }

  // ---- The block's range of the output --------------------------------

  const TwoTo32: int := 0x1_0000_0000
  const TwoTo31: int := 0x8000_0000

  /** An unsigned 32-bit result. */
  function U32(x: int): (r: int)
    ensures 0 <= r < TwoTo32
  {
    x % TwoTo32
  }

  /** An unsigned 32-bit value stored in an `int`. */
  function ToInt32(x: int): (r: int)
    requires 0 <= x < TwoTo32
    ensures -TwoTo31 <= r < TwoTo31
    ensures x < TwoTo31 ==> r == x
  {
    if x < TwoTo31 then x else x - TwoTo32
  }

  /** The first output index of block `b` of `g`, as written: the macro
      `ceildiv` expands so that `blockIdx.x * ceildiv(m + n, gridDim.x)`
      means `(blockIdx.x * (m + n + gridDim.x - 1)) / gridDim.x`, and, as
      `blockIdx.x` and `gridDim.x` are unsigned, the product is taken
      modulo 2^32. */
  function BlockStartAsWritten(b: int, g: int, total: int): (r: int)
    requires 0 <= b < TwoTo32 && 0 < g < TwoTo32
    ensures -TwoTo31 <= r < TwoTo31
    ensures 0 <= total && total + g - 1 < TwoTo32 && b * (total + g - 1) < TwoTo31 ==>
              r == BlockStart(b, g, total)
  {
    NoWrap(b, g, total);
    ToInt32(U32(b * U32(total + g - 1)) / g)
  }

  /** The end of the output range of block `b` of `g`, as written: the same
      product for `b + 1`, and `m + n` where it is smaller. */
  function BlockEndAsWritten(b: int, g: int, total: int): (r: int)
    requires 0 <= b && b + 1 < TwoTo32 && 0 < g < TwoTo32
    ensures -TwoTo31 <= r < TwoTo31
    ensures 0 <= total && total + g - 1 < TwoTo32 && (b + 1) * (total + g - 1) < TwoTo31 ==>
              r == BlockEnd(b, g, total)
  {
    var w := U32((b + 1) * U32(total + g - 1));
    DivMonotone(0, w, g);
    DivAtMost(w, g);
    var u := w / g;
    var e := if u < U32(total) then u else U32(total);
    assert 0 <= total && total + g - 1 < TwoTo32 && (b + 1) * (total + g - 1) < TwoTo31 ==>
             e == BlockEnd(b, g, total) < TwoTo31 by {
      NoWrap(b + 1, g, total);
      U32Small(total);
    }
    ToInt32(e)
  }

  /** A value that fits in 32 bits is its own unsigned 32-bit result. */
  lemma {:induction false} U32Small(x: int)
    ensures 0 <= x < TwoTo32 ==> U32(x) == x
  {
  }

  /** Where nothing wraps around, the block bound as written is the exact
      quotient. */
  lemma {:induction false} NoWrap(b: int, g: int, total: int)
    requires 0 <= b && 0 < g
    ensures 0 <= total && total + g - 1 < TwoTo32 && b * (total + g - 1) < TwoTo31 ==>
              U32(b * U32(total + g - 1)) == b * (total + g - 1) &&
              0 <= (b * (total + g - 1)) / g < TwoTo31 &&
              U32(b * U32(total + g - 1)) / g == BlockStart(b, g, total)
  {
    if 0 <= total && total + g - 1 < TwoTo32 && b * (total + g - 1) < TwoTo31 {
      var x := total + g - 1;
      U32Small(x);
      MulMonotone(0, b, x);
      U32Small(b * x);
      DivMonotone(0, b * x, g);
      DivAtMost(b * x, g);
    }
  }

  /** The first output index of block `b` of `g`: the same expression in
      exact arithmetic, as a 64-bit computation gives it. */
  function BlockStart(b: int, g: int, total: int): (r: int)
    requires 0 <= b && 0 < g && 0 <= total
    ensures 0 <= r
  {
    MulMonotone(0, b, total + g - 1);
    (b * (total + g - 1)) / g
  }

  /** The end of the output range of block `b` of `g`. */
  function BlockEnd(b: int, g: int, total: int): (r: int)
    requires 0 <= b && 0 < g && 0 <= total
    ensures 0 <= r <= total
  {
    Min(BlockStart(b + 1, g, total), total)
  }

  lemma {:induction false} MulMonotone(x: int, y: int, z: int)
    requires 0 <= x <= y && 0 <= z
    ensures x * z <= y * z
  {
    assert y * z - x * z == (y - x) * z;
  }

  lemma {:induction false} DivMonotone(x: int, y: int, g: int)
    requires 0 <= x <= y && 0 < g
    ensures x / g <= y / g
  {
    var qx, qy := x / g, y / g;
    assert g * qx + x % g == x && g * qy + y % g == y;
    assert qx * g == g * qx && (qy + 1) * g == g * qy + g;
    if qx > qy {
      MulMonotone(qy + 1, qx, g);
    }
  }

  lemma {:induction false} DivAtMost(x: int, g: int)
    requires 0 <= x && 0 < g
    ensures x / g <= x
  {
    var q := x / g;
    assert g * q + x % g == x;
    DivMonotone(0, x, g);
    MulMonotone(1, g, q);
  }

  lemma {:induction false} MulDivCancel(k: int, g: int)
    requires 0 < g
    ensures (k * g) / g == k
  {
    var q, r := (k * g) / g, (k * g) % g;
    assert g * q + r == k * g;
    assert (q - k) * g == -r && (k - q) * g == r;
    if q > k {
      MulMonotone(1, q - k, g);
    } else if q < k {
      MulMonotone(1, k - q, g);
    }
  }

  /** The blocks' ranges cover the output in order: block 0 starts at 0,
      each block starts where the one before it ends (or later, once the
      output is used up), and the last one ends at `m + n`. */
  lemma {:induction false} BlockRangesTile(g: int, total: int, b: int)
    requires 0 < g && 0 <= total && 0 <= b < g
    ensures BlockStart(0, g, total) == 0
    ensures BlockStart(b, g, total) <= BlockStart(b + 1, g, total)
    ensures BlockEnd(b, g, total) == Min(BlockStart(b + 1, g, total), total)
    ensures BlockEnd(g - 1, g, total) == total
  {
    MulMonotone(0, b, total + g - 1);
    MulMonotone(b, b + 1, total + g - 1);
    DivMonotone(b * (total + g - 1), (b + 1) * (total + g - 1), g);
    assert g * (total + g - 1) == (total + g - 1) * g;
    MulDivCancel(total + g - 1, g);
  }

  /** With `m + n` = 1000000 and the launch's `gridDim.x` = 7813 (blocks of
      128 threads), the product for block 4262 wraps around: block 4261
      should cover the outputs 549633 to 549761, but its range as written
      ends at 41, before it starts, so no block writes them. */
  lemma {:induction false} BlockRangeWraps()
    ensures (1000000 + 127) / 128 == 7813
    ensures BlockStart(4261, 7813, 1000000) == BlockStartAsWritten(4261, 7813, 1000000) == 549633
    ensures BlockEnd(4261, 7813, 1000000) == 549762
    ensures BlockEndAsWritten(4261, 7813, 1000000) == 41
  {
  }

  // ---- The threads' ranges of a tile ----------------------------------

  /** Thread `t`'s first output index in a tile of `TILE_SIZE` outputs, as
      written: `threadIdx.x * ceildiv(TILE_SIZE, blockDim.x)` expands to
      `(threadIdx.x * (TILE_SIZE + blockDim.x - 1)) / blockDim.x`. */
  function ThreadBoundAsWritten(t: int, blockDim: int): (r: int)
    requires 0 <= t && 0 < blockDim
    ensures ThreadBound(t, blockDim) <= r
  {
    var q := (TileSize + blockDim - 1) / blockDim;
    assert q * blockDim <= TileSize + blockDim - 1;
    MulMonotone(q * blockDim, TileSize + blockDim - 1, t);
    assert t * (q * blockDim) == (t * q) * blockDim;
    MulDivCancel(t * q, blockDim);
    DivMonotone((t * q) * blockDim, (TileSize + blockDim - 1) * t, blockDim);
    assert (TileSize + blockDim - 1) * t == t * (TileSize + blockDim - 1);
    (t * (TileSize + blockDim - 1)) / blockDim
  }

  /** Thread `t`'s first output index in a tile: `t` times the tile's
      share per thread, `ceildiv(TILE_SIZE, blockDim.x)`. */
  function ThreadBound(t: int, blockDim: int): (r: int)
    requires 0 <= t && 0 < blockDim
    ensures 0 <= r
    ensures TileSize % blockDim == 0 ==> r == t * (TileSize / blockDim)
  {
    MulMonotone(0, t, (TileSize + blockDim - 1) / blockDim);
    t * ((TileSize + blockDim - 1) / blockDim)
  }

  /** As written, the bounds overrun the tile: with 128 threads, thread 113
      covers the outputs 1016 to 1024 of a tile, one more than the tile
      holds. */
  lemma {:induction false} ThreadBoundOverrunsAt128()
    ensures ThreadBoundAsWritten(113, 128) == 1016 && ThreadBoundAsWritten(114, 128) == 1025 > TileSize
  {
  }

  /** As written, for any block of more than one thread, the end of the last
      thread's range is `TILE_SIZE + blockDim.x - 1`, past the tile. */
  lemma {:induction false} ThreadBoundOverrunsTile(blockDim: int)
    requires 1 < blockDim
    ensures ThreadBoundAsWritten(blockDim, blockDim) == TileSize + blockDim - 1 > TileSize
  {
    assert blockDim * (TileSize + blockDim - 1) == (TileSize + blockDim - 1) * blockDim;
    MulDivCancel(TileSize + blockDim - 1, blockDim);
  }

  /** When the block size divides `TILE_SIZE`, the corrected bounds cut the
      tile into consecutive ranges: they start at 0, do not decrease, stay
      within the tile and end at `TILE_SIZE`. */
  lemma {:induction false} ThreadBoundsTile(t: int, blockDim: int)
    requires 0 < blockDim && TileSize % blockDim == 0 && 0 <= t < blockDim
    ensures ThreadBound(0, blockDim) == 0
    ensures 0 <= ThreadBound(t, blockDim) <= ThreadBound(t + 1, blockDim) <= TileSize
    ensures ThreadBound(blockDim, blockDim) == TileSize
  {
    var q := (TileSize + blockDim - 1) / blockDim;
    assert q == TileSize / blockDim;
    assert q * blockDim == TileSize;
    MulMonotone(t, t + 1, q);
    MulMonotone(t + 1, blockDim, q);
  }

  // ---- The staging guard ----------------------------------------------

  /** The guard of a staging loop as written: the `x`-th element of a
      refill is read if `x` is below both the block's unconsumed input
      `len - consumed` and the number of free slots. */
  predicate StageGuardAsWritten(x: int, len: int, consumed: int, sConsumed: int): (ok: bool)
    ensures ok <==> x < Min(len - consumed, sConsumed)
  {
    x < len - consumed && x < sConsumed
  }

  /** The corrected guard: `x` must be below the block's input not yet
      staged, `len - offset`. */
  predicate StageGuard(x: int, len: int, offset: int, sConsumed: int): (ok: bool)
    ensures ok <==> x < Min(len - offset, sConsumed)
    ensures ok && 0 <= x ==> offset + x < len
  {
    x < len - offset && x < sConsumed
  }

  /** Whenever elements are staged but not yet consumed (`consumed <
      offset`) and the refill has room for more than what is left, the
      guard as written lets index `x = len - offset` through, and that
      read is at `offset + x = len`, the first element after the block's
      input. With one block, `m = n = 1500`, the even numbers in `A` and
      the odd numbers in `B`, the second tile starts with `len = 1500`,
      `consumed = 512`, `offset = 1024` and `sConsumed = 512`, so the
      kernel reads `A[1500]`, past the end of `A`. */
  lemma {:induction false} StageGuardAsWrittenOverreads(len: int, consumed: int, offset: int, sConsumed: int)
    requires 0 <= consumed < offset <= len && len - offset < sConsumed
    ensures StageGuardAsWritten(len - offset, len, consumed, sConsumed)
    ensures !StageGuard(len - offset, len, offset, sConsumed)
  {
  }

  /** The instance of `StageGuardAsWrittenOverreads` above: one block,
      `m = n = 1500`, the even numbers in `A` and the odd numbers in `B`.
      The first tile consumes 512 elements of each, so the second tile's
      refill of `A_S` has `consumed = 512`, `offset = 1024` and 512 free
      places. The guard as written admits every `x` below 512, so the
      reads `A[1024 + x]` run from `A[1500]` to `A[1535]`, past the end of
      `A`; the corrected guard stops at `x = 475`, the read of `A[1499]`. */
  lemma {:induction false} StageGuardOverreadsEvensOdds()
    ensures StageGuardAsWritten(476, 1500, 512, 512) && !StageGuard(476, 1500, 1024, 512) && 1024 + 476 == 1500
    ensures StageGuardAsWritten(511, 1500, 512, 512) && 1024 + 511 == 1535
    ensures StageGuard(475, 1500, 1024, 512) && 1024 + 475 == 1499
  {
    StageGuardAsWrittenOverreads(1500, 512, 1024, 512);
  }
}
