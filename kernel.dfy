/**
 * One block of the circular-buffer merge kernel. The block's threads are
 * simulated one after another; each loop over `threadIdx.x` becomes a loop
 * of its own, so the barriers between the phases are the boundaries of the
 * helper methods.
 */
module Kernel {
  import opened MergeSpec
  import opened CoRankSearch
  import opened CoRank
  import opened CircularMerge
  import opened KernelIndex

  // ---- Staging: refilling a circular buffer ---------------------------

  /** What logical element `x` of a ring (counted from slot `start`) holds
      once a refill of its `sConsumed` free places has staged the first
      `upto` of them: the free places come after the `TILE_SIZE -
      sConsumed` elements still in use, and the refill copies the block's
      input from `offset` on, as far as the block's `len` elements go. */
  ghost function StagedValue(o: seq<int>, start: int, sConsumed: int, src: seq<int>, base: int,
                             offset: int, len: int, upto: int, x: int): int
    requires |o| == TileSize && 0 <= sConsumed && 0 <= base && 0 <= offset && base + len <= |src|
  {
    var kept := TileSize - sConsumed;
    if kept <= x < kept + Min(upto, len - offset) then src[base + offset + (x - kept)]
    else o[Slot(start, x, TileSize)]
  }

  /** Ring `r` is ring `o` with the first `upto` places of the refill
      staged, and every other slot as it was. */
  ghost predicate StagedUpTo(r: seq<int>, o: seq<int>, start: int, sConsumed: int, src: seq<int>, base: int,
                             offset: int, len: int, upto: int)
  {
    && |r| == TileSize && |o| == TileSize && 0 <= sConsumed <= TileSize
    && 0 <= base && 0 <= offset && base + len <= |src| && 0 <= upto <= sConsumed
    && forall x {:trigger Slot(start, x, TileSize)} :: 0 <= x < TileSize ==>
         r[Slot(start, x, TileSize)] == StagedValue(o, start, sConsumed, src, base, offset, len, upto, x)
  }

  /** Different logical elements of a window of fewer than `TILE_SIZE`
      elements occupy different slots. */
  lemma {:induction false} SlotInjective(start: int, x: int, y: int)
    requires 0 <= x < TileSize && 0 <= y < TileSize && x != y
    ensures Slot(start, x, TileSize) != Slot(start, y, TileSize)
  {
  }

  lemma {:induction false} StagedNothing(o: seq<int>, start: int, sConsumed: int, src: seq<int>, base: int, offset: int, len: int)
    requires |o| == TileSize && 0 <= sConsumed <= TileSize && 0 <= base && 0 <= offset && base + len <= |src|
    ensures StagedUpTo(o, o, start, sConsumed, src, base, offset, len, 0)
  {
  }

  /** One place of the refill: staged when the guard admits it, and
      otherwise past the block's input, so that nothing is to be staged. */
  lemma {:induction false} StageStep(r: seq<int>, o: seq<int>, start: int, sConsumed: int, src: seq<int>, base: int,
                  offset: int, len: int, upto: int)
    requires StagedUpTo(r, o, start, sConsumed, src, base, offset, len, upto) && upto < sConsumed
    ensures StageGuard(upto, len, offset, sConsumed) ==>
      StagedUpTo(r[Slot(start, TileSize - sConsumed + upto, TileSize) := src[base + offset + upto]],
                 o, start, sConsumed, src, base, offset, len, upto + 1)
    ensures !StageGuard(upto, len, offset, sConsumed) ==>
      StagedUpTo(r, o, start, sConsumed, src, base, offset, len, upto + 1)
  {
    var p := TileSize - sConsumed + upto;
    if StageGuard(upto, len, offset, sConsumed) {
      var r' := r[Slot(start, p, TileSize) := src[base + offset + upto]];
      forall x | 0 <= x < TileSize
        ensures r'[Slot(start, x, TileSize)] == StagedValue(o, start, sConsumed, src, base, offset, len, upto + 1, x)
      {
        if x != p {
          SlotInjective(start, x, p);
        }
      }
    }
  }

  /** The threads' copy loop of one round of a refill: thread `t` stages
      place `i + t` when the corrected guard admits it. */
  method StageRound(ring: array<int>, start: int, sConsumed: int, src: seq<int>, base: int, offset: int,
                    len: int, blockDim: int, i: int, ghost o: seq<int>)
    requires StagedUpTo(ring[..], o, start, sConsumed, src, base, offset, len, i) && i < sConsumed && 0 < blockDim
    modifies ring
    ensures StagedUpTo(ring[..], o, start, sConsumed, src, base, offset, len, Min(i + blockDim, sConsumed))
  {
    var t := 0;
    while t < blockDim
      invariant 0 <= t <= blockDim
      invariant StagedUpTo(ring[..], o, start, sConsumed, src, base, offset, len, Min(i + t, sConsumed))
    {
      if StageGuard(i + t, len, offset, sConsumed) {
        ghost var s0 := ring[..];
        StageStep(s0, o, start, sConsumed, src, base, offset, len, i + t);
        ring[Slot(start, TileSize - sConsumed + i + t, TileSize)] := src[base + offset + i + t];
        assert ring[..] == s0[Slot(start, TileSize - sConsumed + i + t, TileSize) := src[base + offset + i + t]];
      } else if i + t < sConsumed {
        StageStep(ring[..], o, start, sConsumed, src, base, offset, len, i + t);
      }
      t := t + 1;
    }
  }

  /** A refill of the `sConsumed` free places of a ring, in rounds of
      `blockDim` places: afterwards every place of the refill that the
      block's input reaches is staged and every other slot is as it was. */
  method StageRing(ring: array<int>, start: int, sConsumed: int, src: seq<int>, base: int, offset: int,
                   len: int, blockDim: int)
    requires ring.Length == TileSize && 0 <= sConsumed <= TileSize
    requires 0 <= base && 0 <= offset && base + len <= |src| && 0 < blockDim
    modifies ring
    ensures StagedUpTo(ring[..], old(ring[..]), start, sConsumed, src, base, offset, len, sConsumed)
  {
    ghost var o := ring[..];
    StagedNothing(o, start, sConsumed, src, base, offset, len);
    var i := 0;
    while i < sConsumed
      invariant 0 <= i
      invariant StagedUpTo(ring[..], o, start, sConsumed, src, base, offset, len, Min(i, sConsumed))
      decreases sConsumed - i
    {
      StageRound(ring, start, sConsumed, src, base, offset, len, blockDim, i, o);
      i := i + blockDim;
    }
  }

  /** The elements of input `blk` that a ring holds: those consumed are
      gone, and the `TILE_SIZE - sConsumed` kept start at slot `start` (all
      of them, or what is left of `blk`). */
  ghost predicate Staged(ring: seq<int>, blk: seq<int>, consumed: int, offset: int, start: int, sConsumed: int) {
    && 0 <= sConsumed <= TileSize && offset == consumed + TileSize - sConsumed
    && 0 <= consumed <= |blk|
    && IsWindow(blk[consumed..Min(offset, |blk|)], ring, start)
  }

  /** Under the tile loop's invariant `Staged`, the corrected guard reads
      only the block's input that is not yet on the ring: the read of free
      place `x` is `offset + x`, after the `TILE_SIZE - sConsumed` elements
      still in use and before the end `len` of the block's input. The
      guard as written admits these places and, besides them, exactly the
      places `x` in `[len - offset, min(len - consumed, sConsumed))`, whose
      reads are at or past `len`, outside the block's input. */
  lemma {:induction false} StagedReadsInBlock(ring: seq<int>, blk: seq<int>, consumed: int, offset: int,
                                              start: int, sConsumed: int, x: int)
    requires Staged(ring, blk, consumed, offset, start, sConsumed) && 0 <= x
    ensures StageGuard(x, |blk|, offset, sConsumed) ==>
      consumed + (TileSize - sConsumed) <= offset + x < |blk| && StageGuardAsWritten(x, |blk|, consumed, sConsumed)
    ensures StageGuardAsWritten(x, |blk|, consumed, sConsumed) && !StageGuard(x, |blk|, offset, sConsumed)
            <==> |blk| - offset <= x < Min(|blk| - consumed, sConsumed)
    ensures StageGuardAsWritten(x, |blk|, consumed, sConsumed) && !StageGuard(x, |blk|, offset, sConsumed) ==>
      |blk| <= offset + x
  {
  }

  /** After a refill the ring holds the next `TILE_SIZE` unconsumed elements
      of the block's input (or all that are left), from slot `start` on. */
  lemma {:induction false} StagedWindow(r: seq<int>, o: seq<int>, start: int, sConsumed: int, src: seq<int>, base: int,
                     offset: int, len: int, blk: seq<int>, consumed: int)
    requires StagedUpTo(r, o, start, sConsumed, src, base, offset, len, sConsumed)
    requires 0 <= len && blk == src[base..base + len] && Staged(o, blk, consumed, offset, start, sConsumed)
    ensures IsWindow(blk[consumed..consumed + Min(TileSize, len - consumed)], r, start)
  {
    var w := blk[consumed..consumed + Min(TileSize, len - consumed)];
    var kept := blk[consumed..Min(offset, len)];
    forall x | 0 <= x < |w|
      ensures w[x] == r[Slot(start, x, |r|)]
    {
      assert r[Slot(start, x, TileSize)] == StagedValue(o, start, sConsumed, src, base, offset, len, sConsumed, x);
      if x < TileSize - sConsumed {
        assert kept[x] == o[Slot(start, x, |o|)];
      }
    }
  }

  // ---- The threads' merge of one tile ----------------------------------

  /** A thread's bound clipped to the outputs the block has left,
      `C_len - C_completed`. */
  function Clip(c: int, rem: int): (r: int)
    ensures r <= rem && r <= c && (r == c || r == rem)
  {
    if c <= rem then c else rem
  }

  /** Part of a window is a window, from the slot its first element is in. */
  lemma {:induction false} WindowSlice(w: seq<int>, ring: seq<int>, start: int, i: int, j: int)
    requires IsWindow(w, ring, start) && 0 <= i <= j <= |w|
    ensures IsWindow(w[i..j], ring, start + i)
  {
    forall x | 0 <= x < j - i
      ensures w[i..j][x] == ring[Slot(start + i, x, |ring|)]
    {
      assert w[i + x] == ring[Slot(start, i + x, |ring|)];
    }
  }

  /** Replacing the next piece `M[k..l]` of an output written up to `k`
      extends it up to `l`. */
  lemma {:induction false} Extend(orig: seq<int>, lo: int, M: seq<int>, k: int, l: int, s: seq<int>, piece: seq<int>)
    requires 0 <= lo && 0 <= k <= l <= |M| && lo + l <= |orig|
    requires s == orig[..lo] + M[..k] + orig[lo + k..] && piece == M[k..l]
    ensures s[..lo + k] + piece + s[lo + l..] == orig[..lo] + M[..l] + orig[lo + l..]
  {
    assert s[..lo + k] == orig[..lo] + M[..k];
    assert s[lo + l..] == orig[lo + l..];
    assert M[..k] + M[k..l] == M[..l];
  }

  /** An in-range co-rank found by the strict search over two windows is a
      split of the windows. Kept as a lemma so that its callers, which hold
      many other facts, need not unfold the search's result themselves. */
  lemma {:induction false} SplitOnWindows(aRing: seq<int>, aStart: int, m: nat, bRing: seq<int>, bStart: int, n: nat, k: int, r: int)
    requires |aRing| > 0 && |bRing| > 0 && 0 <= k <= m + n
    requires FoundOnWindows(aRing, aStart, m, bRing, bStart, n, k, true, r)
    ensures IsSplit(Window(aRing, aStart, m), Window(bRing, bStart, n), r, k - r)
  {
  }

  /** The elements between two positions of each window, read from their
      slots, merge to the merge of the two pieces. */
  lemma {:induction false} MergedPieces(aRing: seq<int>, aStart: int, wa: seq<int>, bRing: seq<int>, bStart: int,
                                        wb: seq<int>, aC: int, bC: int, aN: int, bN: int)
    requires |aRing| == TileSize && |bRing| == TileSize
    requires IsWindow(wa, aRing, aStart) && IsWindow(wb, bRing, bStart)
    requires 0 <= aC <= aN <= |wa| && 0 <= bC <= bN <= |wb|
    ensures MergedWindows(aRing, aStart + aC, aN - aC, bRing, bStart + bC, bN - bC) == Merge(wa[aC..aN], wb[bC..bN])
  {
    WindowSlice(wa, aRing, aStart, aC, aN);
    WindowSlice(wb, bRing, bStart, bC, bN);
    assert |wa[aC..aN]| == aN - aC && |wb[bC..bN]| == bN - bC;
    MergedWindowsIs(wa[aC..aN], aRing, aStart + aC, wb[bC..bN], bRing, bStart + bC);
  }

  /** The piece a thread merges: the splits at its two bounds delimit the
      windows' elements that make up its slice `M[cc..cn]` of the tile's
      merge `M`, and they are what the sequential merge reads from the
      slots `aStart + aC` and `bStart + bC` on. */
  lemma {:induction false} ThreadPiece(aRing: seq<int>, aStart: int, wa: seq<int>, bRing: seq<int>, bStart: int, wb: seq<int>,
                    aC: int, bC: int, aN: int, bN: int)
    requires |aRing| == TileSize && |bRing| == TileSize
    requires IsWindow(wa, aRing, aStart) && IsWindow(wb, bRing, bStart)
    requires Sorted(wa) && Sorted(wb) && aC + bC <= aN + bN
    requires IsSplit(wa, wb, aC, bC) && IsSplit(wa, wb, aN, bN)
    ensures 0 <= aC <= aN && 0 <= bC <= bN
    ensures MergedWindows(aRing, aStart + aC, aN - aC, bRing, bStart + bC, bN - bC)
            == Merge(wa, wb)[aC + bC..aN + bN]
  {
    MergeSlice(wa, wb, aC, bC, aN, bN);
    MergedPieces(aRing, aStart, wa, bRing, bStart, wb, aC, bC, aN, bN);
  }

  /** What the sequential merge of a thread leaves in the output, stated
      with the thread's bounds. */
  lemma {:induction false} ThreadOutput(s: seq<int>, orig: seq<int>, base: int, aRing: seq<int>, aStart: int, bRing: seq<int>, bStart: int,
                     M: seq<int>, cCurr: int, aCurr: int, bCurr: int, cNext: int, aNext: int, bNext: int)
    requires |aRing| > 0 && |bRing| > 0 && 0 <= aCurr <= aNext && 0 <= bCurr <= bNext
    requires bCurr == cCurr - aCurr && bNext == cNext - aNext
    requires 0 <= base && base + cNext <= |orig| && cNext <= |M|
    requires s == orig[..base + cCurr]
                  + MergedWindows(aRing, aStart + aCurr, Max(0, aNext - aCurr), bRing, bStart + bCurr, Max(0, bNext - bCurr))
                  + orig[base + cCurr + Max(0, aNext - aCurr) + Max(0, bNext - bCurr)..]
    requires MergedWindows(aRing, aStart + aCurr, aNext - aCurr, bRing, bStart + bCurr, bNext - bCurr)
             == M[aCurr + bCurr..aNext + bNext]
    ensures s == orig[..base + cCurr] + M[cCurr..cNext] + orig[base + cNext..]
  {
    assert Max(0, aNext - aCurr) == aNext - aCurr && Max(0, bNext - bCurr) == bNext - bCurr;
    assert base + cCurr + (aNext - aCurr) + (bNext - bCurr) == base + cNext;
  }

  /** What thread `t` leaves in the output: merging the windows' elements
      between the splits at its bounds `cCurr` and `cNext` writes outputs
      `cCurr` to `cNext` of the merge of the windows. */
  lemma {:induction false} ThreadWrites(s: seq<int>, orig: seq<int>, base: int, aRing: seq<int>, aStart: int, wa: seq<int>,
                                        bRing: seq<int>, bStart: int, wb: seq<int>, cCurr: int, aCurr: int, bCurr: int,
                                        cNext: int, aNext: int, bNext: int)
    requires |aRing| == TileSize && |bRing| == TileSize
    requires IsWindow(wa, aRing, aStart) && IsWindow(wb, bRing, bStart) && Sorted(wa) && Sorted(wb)
    requires 0 <= cCurr <= cNext && bCurr == cCurr - aCurr && bNext == cNext - aNext
    requires 0 <= aCurr <= aNext && 0 <= bCurr <= bNext
    requires IsSplit(wa, wb, aCurr, bCurr) && IsSplit(wa, wb, aNext, bNext)
    requires 0 <= base && base + cNext <= |orig|
    requires s == orig[..base + cCurr]
                  + MergedWindows(aRing, aStart + aCurr, Max(0, aNext - aCurr), bRing, bStart + bCurr, Max(0, bNext - bCurr))
                  + orig[base + cCurr + Max(0, aNext - aCurr) + Max(0, bNext - bCurr)..]
    ensures cNext <= |Merge(wa, wb)|
    ensures s == orig[..base + cCurr] + Merge(wa, wb)[cCurr..cNext] + orig[base + cNext..]
  {
    ThreadPiece(aRing, aStart, wa, bRing, bStart, wb, aCurr, bCurr, aNext, bNext);
    ThreadOutput(s, orig, base, aRing, aStart, bRing, bStart, Merge(wa, wb), cCurr, aCurr, bCurr, cNext, aNext, bNext);
  }

  /** The bounds of thread `t` in a tile, clipped to the outputs left, and
      their co-ranks in the two windows: both are splits of the windows. */
  method ThreadCoRanks(aRing: seq<int>, aLenW: int, aSStart: int, bRing: seq<int>, bLenW: int, bSStart: int,
                       rem: int, blockDim: int, t: int, ghost wa: seq<int>, ghost wb: seq<int>)
    returns (cCurr: int, aCurr: int, bCurr: int, cNext: int, aNext: int, bNext: int)
    requires |aRing| == TileSize && |bRing| == TileSize
    requires 0 <= aLenW && 0 <= bLenW && 0 <= aSStart && 0 <= bSStart
    requires IsWindow(wa, aRing, aSStart) && |wa| == aLenW && IsWindow(wb, bRing, bSStart) && |wb| == bLenW
    requires 0 < rem && Min(TileSize, rem) <= aLenW + bLenW
    requires 0 < blockDim && TileSize % blockDim == 0 && 0 <= t < blockDim
    ensures cCurr == Clip(ThreadBound(t, blockDim), rem) && cNext == Clip(ThreadBound(t + 1, blockDim), rem)
    ensures 0 <= cCurr <= cNext <= Min(TileSize, rem)
    ensures bCurr == cCurr - aCurr && bNext == cNext - aNext
    ensures IsSplit(wa, wb, aCurr, bCurr) && IsSplit(wa, wb, aNext, bNext)
  {
    WindowUnique(wa, aRing, aSStart);
    WindowUnique(wb, bRing, bSStart);
    ThreadBoundsTile(t, blockDim);
    cCurr := ThreadBound(t, blockDim);
    cNext := ThreadBound(t + 1, blockDim);
    cCurr := if cCurr <= rem then cCurr else rem;
    cNext := if cNext <= rem then cNext else rem;
    aCurr := CoRankCircularFixed(cCurr, aRing, aLenW, bRing, bLenW, aSStart, bSStart, TileSize);
    bCurr := cCurr - aCurr;
    aNext := CoRankCircularFixed(cNext, aRing, aLenW, bRing, bLenW, aSStart, bSStart, TileSize);
    bNext := cNext - aNext;
    SplitOnWindows(aRing, aSStart, aLenW, bRing, bSStart, bLenW, cCurr, aCurr);
    SplitOnWindows(aRing, aSStart, aLenW, bRing, bSStart, bLenW, cNext, aNext);
  }

  /** Thread `t` of a tile: it finds the co-ranks of its two bounds in the
      two windows and merges what lies between them to its part of
      `C[base..]`. */
  method MergeThread(aRing: seq<int>, aLenW: int, aSStart: int, bRing: seq<int>, bLenW: int, bSStart: int,
                     C: array<int>, base: int, rem: int, blockDim: int, t: int, ghost wa: seq<int>, ghost wb: seq<int>)
    returns (cCurr: int, cNext: int)
    requires |aRing| == TileSize && |bRing| == TileSize
    requires 0 <= aLenW && 0 <= bLenW && 0 <= aSStart && 0 <= bSStart
    requires IsWindow(wa, aRing, aSStart) && |wa| == aLenW && IsWindow(wb, bRing, bSStart) && |wb| == bLenW
    requires Sorted(wa) && Sorted(wb)
    requires 0 < rem && Min(TileSize, rem) <= aLenW + bLenW
    requires 0 <= base && base + Min(TileSize, rem) <= C.Length
    requires 0 < blockDim && TileSize % blockDim == 0 && 0 <= t < blockDim
    modifies C
    ensures cCurr == Clip(ThreadBound(t, blockDim), rem) && cNext == Clip(ThreadBound(t + 1, blockDim), rem)
    ensures 0 <= cCurr <= cNext <= Min(TileSize, rem)
    ensures C[..] == old(C[..base + cCurr]) + Merge(wa, wb)[cCurr..cNext] + old(C[base + cNext..])
  {
    ghost var orig := C[..];
    var aCurr, bCurr, aNext, bNext;
    cCurr, aCurr, bCurr, cNext, aNext, bNext := ThreadCoRanks(aRing, aLenW, aSStart, bRing, bLenW, bSStart, rem, blockDim, t, wa, wb);
    SplitMonotone(wa, wb, aCurr, bCurr, aNext, bNext);
    MergeSequentialCircular(aRing, aNext - aCurr, bRing, bNext - bCurr, C, base + cCurr,
                            aSStart + aCurr, bSStart + bCurr, TileSize);
    ThreadWrites(C[..], orig, base, aRing, aSStart, wa, bRing, bSStart, wb, cCurr, aCurr, bCurr, cNext, aNext, bNext);
  }

  /** The thread loop of one tile: thread `t` merges outputs `c_curr` to
      `c_next` of the tile from the two rings. Together the threads write
      the first `min(TILE_SIZE, rem)` outputs of the merge of the windows to
      `C[base..]`, and nothing else. */
  method MergeTile(aRing: seq<int>, aLenW: int, aSStart: int, bRing: seq<int>, bLenW: int, bSStart: int,
                   C: array<int>, base: int, rem: int, blockDim: int, ghost wa: seq<int>, ghost wb: seq<int>)
    requires |aRing| == TileSize && |bRing| == TileSize
    requires 0 <= aLenW && 0 <= bLenW && 0 <= aSStart && 0 <= bSStart
    requires IsWindow(wa, aRing, aSStart) && |wa| == aLenW && IsWindow(wb, bRing, bSStart) && |wb| == bLenW
    requires Sorted(wa) && Sorted(wb)
    requires 0 < rem && Min(TileSize, rem) <= aLenW + bLenW
    requires 0 <= base && base + Min(TileSize, rem) <= C.Length
    requires 0 < blockDim && TileSize % blockDim == 0
    modifies C
    ensures C[..] == old(C[..base]) + Merge(wa, wb)[..Min(TileSize, rem)] + old(C[base + Min(TileSize, rem)..])
  {
    ghost var orig := C[..];
    ghost var M := Merge(wa, wb);
    ghost var done := 0;
    ThreadBoundsTile(0, blockDim);
    assert C[..] == orig[..base] + M[..0] + orig[base + 0..];
    var t := 0;
    while t < blockDim
      invariant 0 <= t <= blockDim && 0 <= done <= Min(TileSize, rem)
      invariant done == Clip(ThreadBound(t, blockDim), rem)
      invariant C[..] == orig[..base] + M[..done] + orig[base + done..]
    {
      ghost var s0 := C[..];
      var cCurr, cNext := MergeThread(aRing, aLenW, aSStart, bRing, bLenW, bSStart, C, base, rem, blockDim, t, wa, wb);
      Extend(orig, base, M, cCurr, cNext, s0, M[cCurr..cNext]);
      done := cNext;
      t := t + 1;
    }
    ThreadBoundsTile(blockDim - 1, blockDim);
  }

  // ---- The block's tile loop -------------------------------------------

  /** The counters of a block's tile loop, one field per local variable of
      the source: the tiles done, the outputs written, the inputs consumed,
      the inputs staged (`offset`), the ring start slots and the free
      places of the rings. */
  datatype Progress = Progress(counter: int, cCompleted: int, aConsumed: int, bConsumed: int,
                               aOffset: int, bOffset: int, aSStart: int, bSStart: int,
                               aSConsumed: int, bSConsumed: int)

  /** The block's output so far: after `counter` tiles the block has written
      the first `cCompleted` outputs `M[..cCompleted]` of the merge `M` of
      its inputs `Ablk` and `Bblk` to `C[cCurr..]`, and they are made of the
      first `aConsumed` elements of `Ablk` and `bConsumed` of `Bblk`. */
  ghost predicate Progressed(Cs: seq<int>, orig: seq<int>, M: seq<int>, Ablk: seq<int>, Bblk: seq<int>,
                             cCurr: int, p: Progress) {
    && 0 <= p.counter && |M| == |Ablk| + |Bblk| && p.cCompleted == Min(p.counter * TileSize, |M|)
    && p.aConsumed + p.bConsumed == p.cCompleted && IsSplit(Ablk, Bblk, p.aConsumed, p.bConsumed)
    && 0 <= cCurr && cCurr + |M| <= |orig| && |Cs| == |orig|
    && Cs == orig[..cCurr] + M[..p.cCompleted] + orig[cCurr + p.cCompleted..]
  }

  /** While outputs are left, each ring holds the staged and unconsumed
      elements of its input. */
  ghost predicate RingsHold(aSs: seq<int>, bSs: seq<int>, Ablk: seq<int>, Bblk: seq<int>, p: Progress) {
    && |aSs| == TileSize && |bSs| == TileSize
    && 0 <= p.aSStart < TileSize && 0 <= p.bSStart < TileSize
    && (p.cCompleted < |Ablk| + |Bblk| ==>
          && Staged(aSs, Ablk, p.aConsumed, p.aOffset, p.aSStart, p.aSConsumed)
          && Staged(bSs, Bblk, p.bConsumed, p.bOffset, p.bSStart, p.bSConsumed))
  }

  /** The invariant of the tile loop, where `M` is the merge of `Ablk`
      and `Bblk`. */
  ghost predicate TileState(Cs: seq<int>, orig: seq<int>, M: seq<int>, aSs: seq<int>, bSs: seq<int>,
                            Ablk: seq<int>, Bblk: seq<int>, cCurr: int, p: Progress) {
    Progressed(Cs, orig, M, Ablk, Bblk, cCurr, p) && RingsHold(aSs, bSs, Ablk, Bblk, p)
  }

  /** The loop runs `ceildiv(C_len, TILE_SIZE)` times: exactly while
      outputs are left. */
  lemma {:induction false} Counting(counter: int, cLen: int)
    requires 0 <= counter
    ensures counter < CDiv(cLen + TileSize - 1, TileSize) <==> counter * TileSize < cLen
  {
  }

  /** Dropping the consumed elements of a window moves its start. */
  lemma {:induction false} RingAdvance(w: seq<int>, ring: seq<int>, start: int, d: int)
    requires IsWindow(w, ring, start) && |ring| == TileSize && 0 <= start && 0 <= d <= |w|
    ensures IsWindow(w[d..], ring, (start + d) % TileSize)
  {
    forall x | 0 <= x < |w| - d
      ensures w[d..][x] == ring[Slot((start + d) % TileSize, x, |ring|)]
    {
      assert w[d + x] == ring[Slot(start, d + x, |ring|)];
    }
  }

  /** A tile's merge of the two windows is the next piece of the block's
      merge, and the tile's split of the windows, added to the inputs
      consumed before, is a split of the block's inputs. */
  lemma {:induction false} TileIsNext(Ablk: seq<int>, Bblk: seq<int>, aC: int, bC: int, wa: seq<int>, wb: seq<int>,
                    tile: int, s: int)
    requires Sorted(Ablk) && Sorted(Bblk) && IsSplit(Ablk, Bblk, aC, bC)
    requires wa == Ablk[aC..aC + Min(TileSize, |Ablk| - aC)] && wb == Bblk[bC..bC + Min(TileSize, |Bblk| - bC)]
    requires tile == Min(TileSize, |Ablk| + |Bblk| - (aC + bC)) && IsSplit(wa, wb, s, tile - s)
    ensures IsSplit(Ablk, Bblk, aC + s, bC + (tile - s))
    ensures Merge(wa, wb)[..tile] == Merge(Ablk, Bblk)[aC + bC..aC + bC + tile]
  {
    TilePrefix(Ablk, Bblk, aC, bC, wa, wb, s, tile - s, tile);
    TileSplitNext(Ablk, Bblk, aC, bC, wa, wb, tile, s);
    BlockPiece(Ablk, Bblk, aC, bC, s, tile - s, tile);
  }

  lemma {:induction false} TileSplitNext(Ablk: seq<int>, Bblk: seq<int>, aC: int, bC: int, wa: seq<int>, wb: seq<int>, tile: int, s: int)
    requires Sorted(Ablk) && Sorted(Bblk) && IsSplit(Ablk, Bblk, aC, bC)
    requires wa == Ablk[aC..aC + Min(TileSize, |Ablk| - aC)] && wb == Bblk[bC..bC + Min(TileSize, |Bblk| - bC)]
    requires tile == Min(TileSize, |Ablk| + |Bblk| - (aC + bC)) && IsSplit(wa, wb, s, tile - s)
    ensures IsSplit(Ablk, Bblk, aC + s, bC + (tile - s))
  {
    var a', b' := Ablk[aC..], Bblk[bC..];
    WindowsArePrefixes(Ablk, aC, wa, a');
    WindowsArePrefixes(Bblk, bC, wb, b');
    SplitOfWindows(a', b', |wa|, |wb|, s, tile - s);
    SplitCompose(Ablk, Bblk, aC, bC, s, tile - s);
  }

  lemma {:induction false} BlockPiece(Ablk: seq<int>, Bblk: seq<int>, aC: int, bC: int, s: int, t: int, n: int)
    requires Sorted(Ablk) && Sorted(Bblk) && IsSplit(Ablk, Bblk, aC, bC) && IsSplit(Ablk, Bblk, aC + s, bC + t)
    requires 0 <= s && 0 <= t && n == s + t
    ensures Merge(Ablk, Bblk)[aC + bC..aC + bC + n] == Merge(Ablk[aC..aC + s], Bblk[bC..bC + t])
  {
    MergeSlice(Ablk, Bblk, aC, bC, aC + s, bC + t);
    assert aC + bC + n == (aC + s) + (bC + t);
  }

  /** The window of the next (at most) `TILE_SIZE` elements of `blk` from
      `consumed` on is a prefix of `blk[consumed..]`. */
  lemma {:induction false} WindowsArePrefixes(blk: seq<int>, consumed: int, w: seq<int>, rest: seq<int>)
    requires 0 <= consumed <= |blk| && w == blk[consumed..consumed + Min(TileSize, |blk| - consumed)]
    requires rest == blk[consumed..]
    ensures |w| <= |rest| && w == rest[..|w|] && (|w| == |rest| || |w| == TileSize)
  {
  }

  /** The first `s` elements of a window of `blk` from `consumed` on are
      `blk[consumed..consumed + s]`. */
  lemma {:induction false} WindowPrefix(blk: seq<int>, consumed: int, w: seq<int>, s: int)
    requires 0 <= consumed <= |blk| && w == blk[consumed..consumed + Min(TileSize, |blk| - consumed)]
    requires 0 <= s <= |w|
    ensures Sorted(blk) ==> Sorted(w)
    ensures w[..s] == blk[consumed..consumed + s]
  {
    if Sorted(blk) {
      SortedSlice(blk, consumed, consumed + Min(TileSize, |blk| - consumed));
    }
  }

  /** The first `s + t` outputs of the merge of two windows cut at `(s, t)`
      are the merge of the corresponding pieces of the block's inputs. */
  lemma {:induction false} TilePrefix(Ablk: seq<int>, Bblk: seq<int>, aC: int, bC: int, wa: seq<int>, wb: seq<int>, s: int, t: int, n: int)
    requires Sorted(Ablk) && Sorted(Bblk) && IsSplit(Ablk, Bblk, aC, bC)
    requires wa == Ablk[aC..aC + Min(TileSize, |Ablk| - aC)] && wb == Bblk[bC..bC + Min(TileSize, |Bblk| - bC)]
    requires IsSplit(wa, wb, s, t) && n == s + t
    ensures Merge(wa, wb)[..n] == Merge(Ablk[aC..aC + s], Bblk[bC..bC + t])
  {
    WindowPrefix(Ablk, aC, wa, s);
    WindowPrefix(Bblk, bC, wb, t);
    MergePrefix(wa, wb, s, t);
  }

  /** The free places a tile leaves in the second ring, as line 209 of the
      source computes them: the unparenthesised `min` macro makes this
      `rem` on the last tile, where it is no longer used. */
  function BFreed(rem: int, s: int): (r: int)
    ensures TileSize <= rem ==> s + r == Min(TileSize, rem)
    ensures rem < TileSize ==> r == rem
  {
    if rem < TileSize then rem else TileSize - s
  }

  /** The counters after one more tile whose split of the windows is
      `(s, tile - s)`, as lines 205-216 of the source update them. */
  function NextProgress(p: Progress, rem: int, s: int): (q: Progress)
    ensures q.counter == p.counter + 1 && q.cCompleted == p.cCompleted + Min(TileSize, rem)
    ensures q.aConsumed == p.aConsumed + s && q.aConsumed + q.bConsumed == q.cCompleted
    ensures p.aConsumed + p.bConsumed == p.cCompleted && TileSize <= rem ==>
              q.bConsumed == p.bConsumed + q.bSConsumed
    ensures q.aOffset == p.aOffset + p.aSConsumed && q.bOffset == p.bOffset + p.bSConsumed
    ensures 0 <= q.aSStart < TileSize && 0 <= q.bSStart < TileSize
    ensures q.aSConsumed == s && q.bSConsumed == BFreed(rem, s)
  {
    var tile := Min(TileSize, rem);
    var cCompleted := p.cCompleted + tile;
    var aConsumed := p.aConsumed + s;
    Progress(p.counter + 1, cCompleted, aConsumed, cCompleted - aConsumed,
             p.aOffset + p.aSConsumed, p.bOffset + p.bSConsumed,
             (p.aSStart + s) % TileSize, (p.bSStart + BFreed(rem, s)) % TileSize,
             s, BFreed(rem, s))
  }

  /** The output part of the tile loop's invariant is kept by one tile
      whose output `piece` is the next piece of the block's merge. */
  lemma {:induction false} NextProgressed(Cs0: seq<int>, Cs: seq<int>, orig: seq<int>, M: seq<int>, Ablk: seq<int>, Bblk: seq<int>,
                       cCurr: int, p: Progress, tile: int, s: int, piece: seq<int>, p': Progress)
    requires Progressed(Cs0, orig, M, Ablk, Bblk, cCurr, p) && p.cCompleted < |M|
    requires tile == Min(TileSize, |M| - p.cCompleted) && 0 <= s <= tile
    requires IsSplit(Ablk, Bblk, p.aConsumed + s, p.bConsumed + (tile - s))
    requires piece == M[p.cCompleted..p.cCompleted + tile]
    requires Cs == Cs0[..cCurr + p.cCompleted] + piece + Cs0[cCurr + p.cCompleted + tile..]
    requires p'.counter == p.counter + 1 && p'.cCompleted == p.cCompleted + tile
    requires p'.aConsumed == p.aConsumed + s && p'.bConsumed == p'.cCompleted - p'.aConsumed
    ensures Progressed(Cs, orig, M, Ablk, Bblk, cCurr, p')
  {
    OutputNext(Cs0, Cs, orig, M, cCurr, p.cCompleted, tile, p'.cCompleted, piece);
    NextCount(p.counter, p.cCompleted, |M|, tile, p'.counter, p'.cCompleted);
    assert IsSplit(Ablk, Bblk, p'.aConsumed, p'.bConsumed);
  }

  /** Tiles are counted in full: after one more the block has written
      `min((counter + 1) * TILE_SIZE, C_len)` outputs. */
  lemma {:induction false} NextCount(counter: int, k: int, total: int, tile: int, counter': int, k': int)
    requires 0 <= counter && k == Min(counter * TileSize, total) && k < total && tile == Min(TileSize, total - k)
    requires counter' == counter + 1 && k' == k + tile
    ensures 0 <= counter' && k' == Min(counter' * TileSize, total)
  {
  }

  /** Writing the next piece `M[k..k + tile]` of the block's merge after
      the `k` outputs written so far. */
  lemma {:induction false} OutputNext(Cs0: seq<int>, Cs: seq<int>, orig: seq<int>, M: seq<int>, cCurr: int, k: int, tile: int,
                   l: int, piece: seq<int>)
    requires 0 <= cCurr && 0 <= k && 0 <= tile && l == k + tile && l <= |M| && cCurr + |M| <= |orig|
    requires Cs0 == orig[..cCurr] + M[..k] + orig[cCurr + k..] && piece == M[k..k + tile]
    requires Cs == Cs0[..cCurr + k] + piece + Cs0[cCurr + k + tile..]
    ensures |Cs| == |orig| && Cs == orig[..cCurr] + M[..l] + orig[cCurr + l..]
  {
    Extend(orig, cCurr, M, k, l, Cs0, piece);
    assert cCurr + l == cCurr + k + tile;
  }

  /** The ring part of the tile loop's invariant is kept by one tile: the
      elements a tile consumed are dropped from the front of each ring's
      window. */
  lemma {:induction false} NextRing(ring: seq<int>, blk: seq<int>, consumed: int, offset: int, start: int, sConsumed: int,
                 w: seq<int>, d: int)
    requires |ring| == TileSize && 0 <= start < TileSize && IsWindow(w, ring, start)
    requires 0 <= consumed <= |blk| && w == blk[consumed..consumed + Min(TileSize, |blk| - consumed)]
    requires offset == consumed + TileSize - sConsumed && 0 <= d <= |w|
    ensures Staged(ring, blk, consumed + d, offset + sConsumed, (start + d) % TileSize, d)
  {
    RingAdvance(w, ring, start, d);
    assert w[d..] == blk[consumed + d..Min(offset + sConsumed, |blk|)];
  }

  /** The ring part of the tile loop's invariant is kept by one tile. */
  lemma {:induction false} NextRings(aSs: seq<int>, bSs: seq<int>, Ablk: seq<int>, Bblk: seq<int>, p: Progress,
                  wa: seq<int>, wb: seq<int>, total: int, tile: int, s: int, p': Progress)
    requires total == |Ablk| + |Bblk| && p.aConsumed + p.bConsumed == p.cCompleted
    requires 0 <= p.aConsumed <= |Ablk| && 0 <= p.bConsumed <= |Bblk|
    requires p.aOffset == p.aConsumed + TileSize - p.aSConsumed && p.bOffset == p.bConsumed + TileSize - p.bSConsumed
    requires |aSs| == TileSize && |bSs| == TileSize && 0 <= p.aSStart < TileSize && 0 <= p.bSStart < TileSize
    requires wa == Ablk[p.aConsumed..p.aConsumed + Min(TileSize, |Ablk| - p.aConsumed)]
    requires wb == Bblk[p.bConsumed..p.bConsumed + Min(TileSize, |Bblk| - p.bConsumed)]
    requires IsWindow(wa, aSs, p.aSStart) && IsWindow(wb, bSs, p.bSStart)
    requires tile == Min(TileSize, total - p.cCompleted) && 0 <= s <= |wa| && tile - s <= |wb|
    requires p' == NextProgress(p, total - p.cCompleted, s)
    ensures RingsHold(aSs, bSs, Ablk, Bblk, p')
  {
    if p'.cCompleted < total {
      assert tile == TileSize && p'.bSConsumed == tile - s;
      assert p'.aConsumed == p.aConsumed + s && p'.bConsumed == p.bConsumed + (tile - s);
      assert p'.aSStart == (p.aSStart + s) % TileSize && p'.bSStart == (p.bSStart + (tile - s)) % TileSize;
      NextRing(aSs, Ablk, p.aConsumed, p.aOffset, p.aSStart, p.aSConsumed, wa, s);
      NextRing(bSs, Bblk, p.bConsumed, p.bOffset, p.bSStart, p.bSConsumed, wb, tile - s);
    }
  }

  /** The refills of the two rings at the start of a tile (source lines
      162-178): afterwards each ring holds, from its start slot on, the next
      `min(TILE_SIZE, len - consumed)` unconsumed elements of its input. */
  method StageTile(A: seq<int>, B: seq<int>, aS: array<int>, bS: array<int>, blockDim: int,
                   aCurr: int, bCurr: int, aLen: int, bLen: int, p: Progress,
                   ghost Ablk: seq<int>, ghost Bblk: seq<int>)
    requires aS != bS && aS.Length == TileSize && bS.Length == TileSize && 0 < blockDim
    requires 0 <= aCurr && 0 <= aLen && aCurr + aLen <= |A| && Ablk == A[aCurr..aCurr + aLen]
    requires 0 <= bCurr && 0 <= bLen && bCurr + bLen <= |B| && Bblk == B[bCurr..bCurr + bLen]
    requires Staged(aS[..], Ablk, p.aConsumed, p.aOffset, p.aSStart, p.aSConsumed)
    requires Staged(bS[..], Bblk, p.bConsumed, p.bOffset, p.bSStart, p.bSConsumed)
    modifies aS, bS
    ensures StagedUpTo(aS[..], old(aS[..]), p.aSStart, p.aSConsumed, A, aCurr, p.aOffset, aLen, p.aSConsumed)
    ensures StagedUpTo(bS[..], old(bS[..]), p.bSStart, p.bSConsumed, B, bCurr, p.bOffset, bLen, p.bSConsumed)
    ensures IsWindow(Ablk[p.aConsumed..p.aConsumed + Min(TileSize, aLen - p.aConsumed)], aS[..], p.aSStart)
    ensures IsWindow(Bblk[p.bConsumed..p.bConsumed + Min(TileSize, bLen - p.bConsumed)], bS[..], p.bSStart)
  {
    ghost var aO, bO := aS[..], bS[..];
    StageRing(aS, p.aSStart, p.aSConsumed, A, aCurr, p.aOffset, aLen, blockDim);
    StagedWindow(aS[..], aO, p.aSStart, p.aSConsumed, A, aCurr, p.aOffset, aLen, Ablk, p.aConsumed);
    StageRing(bS, p.bSStart, p.bSConsumed, B, bCurr, p.bOffset, bLen, blockDim);
    StagedWindow(bS[..], bO, p.bSStart, p.bSConsumed, B, bCurr, p.bOffset, bLen, Bblk, p.bConsumed);
  }

  /** The co-rank of the tile's end in the two windows (source line 207,
      with the strict search): how many elements of the first window the
      tile consumed. */
  method TileSplit(aRing: seq<int>, aLenW: int, aSStart: int, bRing: seq<int>, bLenW: int, bSStart: int, k: int,
                   ghost wa: seq<int>, ghost wb: seq<int>) returns (s: int)
    requires |aRing| == TileSize && |bRing| == TileSize
    requires 0 <= aLenW && 0 <= bLenW && 0 <= aSStart && 0 <= bSStart && 0 <= k <= aLenW + bLenW
    requires IsWindow(wa, aRing, aSStart) && |wa| == aLenW && IsWindow(wb, bRing, bSStart) && |wb| == bLenW
    ensures IsSplit(wa, wb, s, k - s)
  {
    WindowUnique(wa, aRing, aSStart);
    WindowUnique(wb, bRing, bSStart);
    s := CoRankCircularFixed(k, aRing, aLenW, bRing, bLenW, aSStart, bSStart, TileSize);
    SplitOnWindows(aRing, aSStart, aLenW, bRing, bSStart, bLenW, k, s);
  }

  /** The merge of one tile from the staged rings (source lines 180-207):
      the threads write the first `min(TILE_SIZE, rem)` outputs of the
      merge of the two windows to `C[base..]`, and the strict co-rank of
      that count in the windows, `s`, is how many of them came from the
      first window. */
  method MergeWindows(aRing: seq<int>, aLenW: int, aSStart: int, bRing: seq<int>, bLenW: int, bSStart: int,
                      C: array<int>, base: int, rem: int, blockDim: int, ghost wa: seq<int>, ghost wb: seq<int>)
    returns (s: int)
    requires |aRing| == TileSize && |bRing| == TileSize
    requires 0 <= aLenW && 0 <= bLenW && 0 <= aSStart && 0 <= bSStart
    requires IsWindow(wa, aRing, aSStart) && |wa| == aLenW && IsWindow(wb, bRing, bSStart) && |wb| == bLenW
    requires Sorted(wa) && Sorted(wb)
    requires 0 < rem && Min(TileSize, rem) <= aLenW + bLenW
    requires 0 <= base && base + Min(TileSize, rem) <= C.Length
    requires 0 < blockDim && TileSize % blockDim == 0
    modifies C
    ensures C[..] == old(C[..base]) + Merge(wa, wb)[..Min(TileSize, rem)] + old(C[base + Min(TileSize, rem)..])
    ensures IsSplit(wa, wb, s, Min(TileSize, rem) - s)
  {
    MergeTile(aRing, aLenW, aSStart, bRing, bLenW, bSStart, C, base, rem, blockDim, wa, wb);
    s := TileSplit(aRing, aLenW, aSStart, bRing, bLenW, bSStart, Min(TileSize, rem), wa, wb);
  }

  /** The tile's merge of the windows and its split of them, stated over
      the block's inputs. */
  lemma {:induction false} TileOutput(Ablk: seq<int>, Bblk: seq<int>, aC: int, bC: int, aLenW: int, bLenW: int,
                   wa: seq<int>, wb: seq<int>, rem: int, tile: int, s: int)
    requires Sorted(Ablk) && Sorted(Bblk) && IsSplit(Ablk, Bblk, aC, bC)
    requires rem == |Ablk| + |Bblk| - (aC + bC) && 0 < rem && tile == Min(TileSize, rem)
    requires aLenW == Min(TileSize, |Ablk| - aC) && bLenW == Min(TileSize, |Bblk| - bC)
    requires wa == Ablk[aC..aC + aLenW] && wb == Bblk[bC..bC + bLenW]
    requires IsSplit(wa, wb, s, tile - s)
    ensures 0 <= s <= |wa| && tile - s <= |wb|
    ensures IsSplit(Ablk, Bblk, aC + s, bC + (tile - s))
    ensures Merge(wa, wb)[..tile] == Merge(Ablk, Bblk)[aC + bC..aC + bC + tile]
  {
    TileIsNext(Ablk, Bblk, aC, bC, wa, wb, tile, s);
  }

  /** Before a tile is merged: the counters of the tile loop, read off
      its invariant, and the windows the refills staged, which are sorted
      and together hold at least the tile's outputs. */
  lemma {:induction false} TileReady(Cs0: seq<int>, orig: seq<int>, M: seq<int>, aO: seq<int>, bO: seq<int>,
                  Ablk: seq<int>, Bblk: seq<int>, cCurr: int, p: Progress, aLen: int, bLen: int, cLen: int,
                  rem: int, aLenW: int, bLenW: int, wa: seq<int>, wb: seq<int>)
    requires TileState(Cs0, orig, M, aO, bO, Ablk, Bblk, cCurr, p) && Sorted(Ablk) && Sorted(Bblk)
    requires |Ablk| == aLen && |Bblk| == bLen && cLen == aLen + bLen && p.cCompleted < cLen
    requires rem == cLen - p.cCompleted
    requires aLenW == Min(TileSize, aLen - p.aConsumed) && bLenW == Min(TileSize, bLen - p.bConsumed)
    requires wa == Ablk[p.aConsumed..p.aConsumed + aLenW] && wb == Bblk[p.bConsumed..p.bConsumed + bLenW]
    ensures 0 <= p.aSStart < TileSize && 0 <= p.bSStart < TileSize
    ensures p.aOffset == p.aConsumed + TileSize - p.aSConsumed && p.bOffset == p.bConsumed + TileSize - p.bSConsumed
    ensures rem == |M| - p.cCompleted && 0 < rem
    ensures aLenW == Min(TileSize, |Ablk| - p.aConsumed) && bLenW == Min(TileSize, |Bblk| - p.bConsumed)
    ensures 0 <= aLenW && 0 <= bLenW && Min(TileSize, rem) <= aLenW + bLenW
    ensures |wa| == aLenW && |wb| == bLenW && Sorted(wa) && Sorted(wb)
    ensures IsSplit(Ablk, Bblk, p.aConsumed, p.bConsumed) && p.cCompleted == p.aConsumed + p.bConsumed
    ensures 0 <= cCurr + p.cCompleted && cCurr + p.cCompleted + Min(TileSize, rem) <= |Cs0|
  {
    SortedSlice(Ablk, p.aConsumed, p.aConsumed + aLenW);
    SortedSlice(Bblk, p.bConsumed, p.bConsumed + bLenW);
  }

  /** What a tile's merge contributes to the block: its split of the
      windows, added to the inputs consumed before, is a split of the
      block's inputs, and its output is the block's merge from output
      `aC + bC` on. */
  lemma {:induction false} TileMergedIsNext(Ablk: seq<int>, Bblk: seq<int>, aC: int, bC: int, rem: int,
                         aLenW: int, bLenW: int, wa: seq<int>, wb: seq<int>, s: int)
    requires Sorted(Ablk) && Sorted(Bblk) && IsSplit(Ablk, Bblk, aC, bC)
    requires rem == |Ablk| + |Bblk| - (aC + bC) && 0 < rem
    requires aLenW == Min(TileSize, |Ablk| - aC) && bLenW == Min(TileSize, |Bblk| - bC)
    requires wa == Ablk[aC..aC + aLenW] && wb == Bblk[bC..bC + bLenW]
    requires IsSplit(wa, wb, s, Min(TileSize, rem) - s)
    ensures 0 <= Min(TileSize, rem) <= |Merge(wa, wb)|
    ensures 0 <= s <= |wa| && Min(TileSize, rem) - s <= |wb|
    ensures IsSplit(Ablk, Bblk, aC + s, bC + (Min(TileSize, rem) - s))
    ensures Merge(wa, wb)[..Min(TileSize, rem)] == Merge(Ablk, Bblk)[aC + bC..aC + bC + Min(TileSize, rem)]
  {
    TileOutput(Ablk, Bblk, aC, bC, aLenW, bLenW, wa, wb, rem, Min(TileSize, rem), s);
  }

  /** Every rank of a merge has a split. */
  lemma {:induction false} SomeSplit(a: seq<int>, b: seq<int>, k: int) returns (r: int)
    requires 0 <= k <= |a| + |b|
    ensures IsSplit(a, b, r, k - r)
  {
    r := SearchStops(a, b, k, true);
  }

  /** Before a tile is merged: the first `min(TILE_SIZE, rem)` outputs of
      the merge of the staged windows are the block's next outputs. */
  lemma {:induction false} TilePieceIsNext(Ablk: seq<int>, Bblk: seq<int>, M: seq<int>, aC: int, bC: int,
                                           rem: int, aLenW: int, bLenW: int, wa: seq<int>, wb: seq<int>)
    requires Sorted(Ablk) && Sorted(Bblk) && M == Merge(Ablk, Bblk) && IsSplit(Ablk, Bblk, aC, bC)
    requires rem == |M| - (aC + bC) && 0 < rem
    requires aLenW == Min(TileSize, |Ablk| - aC) && bLenW == Min(TileSize, |Bblk| - bC)
    requires wa == Ablk[aC..aC + aLenW] && wb == Bblk[bC..bC + bLenW]
    ensures 0 <= Min(TileSize, rem) <= |Merge(wa, wb)|
    ensures Merge(wa, wb)[..Min(TileSize, rem)] == M[aC + bC..aC + bC + Min(TileSize, rem)]
  {
    assert Min(TileSize, rem) <= aLenW + bLenW;
    var s := SomeSplit(wa, wb, Min(TileSize, rem));
    TileMergedIsNext(Ablk, Bblk, aC, bC, rem, aLenW, bLenW, wa, wb, s);
    assert Merge(wa, wb)[..Min(TileSize, rem)] == M[aC + bC..aC + bC + Min(TileSize, rem)];
  }

  /** After a tile is merged: its split of the windows, added to the
      inputs consumed before, is a split of the block's inputs. */
  lemma {:induction false} TileAdvances(Ablk: seq<int>, Bblk: seq<int>, aC: int, bC: int, rem: int,
                                        aLenW: int, bLenW: int, wa: seq<int>, wb: seq<int>, s: int)
    requires Sorted(Ablk) && Sorted(Bblk) && IsSplit(Ablk, Bblk, aC, bC)
    requires rem == |Ablk| + |Bblk| - (aC + bC) && 0 < rem
    requires aLenW == Min(TileSize, |Ablk| - aC) && bLenW == Min(TileSize, |Bblk| - bC)
    requires wa == Ablk[aC..aC + aLenW] && wb == Bblk[bC..bC + bLenW]
    requires IsSplit(wa, wb, s, Min(TileSize, rem) - s)
    ensures 0 <= s <= Min(TileSize, rem)
    ensures IsSplit(Ablk, Bblk, aC + s, bC + (Min(TileSize, rem) - s))
  {
    TileSplitNext(Ablk, Bblk, aC, bC, wa, wb, Min(TileSize, rem), s);
  }

  /** After a tile is merged: with its outputs `piece` written after those
      already written, the output part of the loop's invariant holds of
      the counters advanced by the tile's split. */
  lemma {:induction false} KeptOutputs(Cs0: seq<int>, Cs: seq<int>, orig: seq<int>, M: seq<int>,
                                       Ablk: seq<int>, Bblk: seq<int>, cCurr: int, p: Progress, rem: int,
                                       s: int, piece: seq<int>)
    requires Progressed(Cs0, orig, M, Ablk, Bblk, cCurr, p)
    requires rem == |M| - p.cCompleted && 0 < rem
    requires 0 <= s <= Min(TileSize, rem)
    requires IsSplit(Ablk, Bblk, p.aConsumed + s, p.bConsumed + (Min(TileSize, rem) - s))
    requires piece == M[p.cCompleted..p.cCompleted + Min(TileSize, rem)]
    requires Cs == Cs0[..cCurr + p.cCompleted] + piece + Cs0[cCurr + p.cCompleted + Min(TileSize, rem)..]
    ensures Progressed(Cs, orig, M, Ablk, Bblk, cCurr, NextProgress(p, rem, s))
  {
    NextProgressed(Cs0, Cs, orig, M, Ablk, Bblk, cCurr, p, Min(TileSize, rem), s, piece, NextProgress(p, rem, s));
  }

  /** After a tile is merged from the staged windows: the rings still hold
      the unconsumed elements of the windows for the next refill. */
  lemma {:induction false} KeptRings(aRing: seq<int>, bRing: seq<int>, Ablk: seq<int>, Bblk: seq<int>, p: Progress,
                                     rem: int, aLenW: int, bLenW: int, wa: seq<int>, wb: seq<int>, s: int)
    requires p.aConsumed + p.bConsumed == p.cCompleted
    requires 0 <= p.aConsumed <= |Ablk| && 0 <= p.bConsumed <= |Bblk|
    requires p.aOffset == p.aConsumed + TileSize - p.aSConsumed && p.bOffset == p.bConsumed + TileSize - p.bSConsumed
    requires |aRing| == TileSize && |bRing| == TileSize && 0 <= p.aSStart < TileSize && 0 <= p.bSStart < TileSize
    requires rem == |Ablk| + |Bblk| - p.cCompleted && 0 < rem
    requires aLenW == Min(TileSize, |Ablk| - p.aConsumed) && bLenW == Min(TileSize, |Bblk| - p.bConsumed)
    requires wa == Ablk[p.aConsumed..p.aConsumed + aLenW] && wb == Bblk[p.bConsumed..p.bConsumed + bLenW]
    requires IsWindow(wa, aRing, p.aSStart) && IsWindow(wb, bRing, p.bSStart)
    requires IsSplit(wa, wb, s, Min(TileSize, rem) - s)
    ensures RingsHold(aRing, bRing, Ablk, Bblk, NextProgress(p, rem, s))
  {
    NextRings(aRing, bRing, Ablk, Bblk, p, wa, wb, |Ablk| + |Bblk|, Min(TileSize, rem), s, NextProgress(p, rem, s));
  }

  /** After a tile is merged: when its outputs `piece` are the block's
      next outputs, written after those already written, the counters
      advanced by the tile's split keep the loop's invariant. */
  lemma {:induction false} ProgressKept(Cs0: seq<int>, Cs: seq<int>, orig: seq<int>, M: seq<int>, aRing: seq<int>,
                                        bRing: seq<int>, Ablk: seq<int>, Bblk: seq<int>, cCurr: int, p: Progress,
                                        rem: int, aLenW: int, bLenW: int, wa: seq<int>, wb: seq<int>, s: int,
                                        piece: seq<int>)
    requires Sorted(Ablk) && Sorted(Bblk)
    requires Progressed(Cs0, orig, M, Ablk, Bblk, cCurr, p) && 0 <= p.aSStart < TileSize && 0 <= p.bSStart < TileSize
    requires p.aOffset == p.aConsumed + TileSize - p.aSConsumed && p.bOffset == p.bConsumed + TileSize - p.bSConsumed
    requires rem == |M| - p.cCompleted && 0 < rem
    requires aLenW == Min(TileSize, |Ablk| - p.aConsumed) && bLenW == Min(TileSize, |Bblk| - p.bConsumed)
    requires wa == Ablk[p.aConsumed..p.aConsumed + aLenW] && wb == Bblk[p.bConsumed..p.bConsumed + bLenW]
    requires |aRing| == TileSize && |bRing| == TileSize
    requires IsWindow(wa, aRing, p.aSStart) && IsWindow(wb, bRing, p.bSStart)
    requires IsSplit(wa, wb, s, Min(TileSize, rem) - s)
    requires piece == M[p.cCompleted..p.cCompleted + Min(TileSize, rem)]
    requires Cs == Cs0[..cCurr + p.cCompleted] + piece + Cs0[cCurr + p.cCompleted + Min(TileSize, rem)..]
    ensures TileState(Cs, orig, M, aRing, bRing, Ablk, Bblk, cCurr, NextProgress(p, rem, s))
  {
    TileAdvances(Ablk, Bblk, p.aConsumed, p.bConsumed, rem, aLenW, bLenW, wa, wb, s);
    KeptOutputs(Cs0, Cs, orig, M, Ablk, Bblk, cCurr, p, rem, s, piece);
    KeptRings(aRing, bRing, Ablk, Bblk, p, rem, aLenW, bLenW, wa, wb, s);
  }

  /** After a tile is merged from the staged windows: with its outputs
      `piece`, the first `min(TILE_SIZE, rem)` outputs of the merge of the
      windows, written after those already written, the counters advanced
      by the tile's split keep the loop's invariant. */
  lemma {:induction false} TileKept(Cs0: seq<int>, Cs: seq<int>, orig: seq<int>, M: seq<int>, aRing: seq<int>,
                                    bRing: seq<int>, Ablk: seq<int>, Bblk: seq<int>, cCurr: int, p: Progress,
                                    rem: int, aLenW: int, bLenW: int, wa: seq<int>, wb: seq<int>, s: int,
                                    piece: seq<int>)
    requires Sorted(Ablk) && Sorted(Bblk)
    requires Progressed(Cs0, orig, M, Ablk, Bblk, cCurr, p) && 0 <= p.aSStart < TileSize && 0 <= p.bSStart < TileSize
    requires p.aOffset == p.aConsumed + TileSize - p.aSConsumed && p.bOffset == p.bConsumed + TileSize - p.bSConsumed
    requires rem == |M| - p.cCompleted && 0 < rem
    requires aLenW == Min(TileSize, |Ablk| - p.aConsumed) && bLenW == Min(TileSize, |Bblk| - p.bConsumed)
    requires wa == Ablk[p.aConsumed..p.aConsumed + aLenW] && wb == Bblk[p.bConsumed..p.bConsumed + bLenW]
    requires |aRing| == TileSize && |bRing| == TileSize
    requires IsWindow(wa, aRing, p.aSStart) && IsWindow(wb, bRing, p.bSStart)
    requires IsSplit(wa, wb, s, Min(TileSize, rem) - s)
    requires M == Merge(Ablk, Bblk) && 0 <= Min(TileSize, rem) <= |Merge(wa, wb)|
    requires piece == Merge(wa, wb)[..Min(TileSize, rem)]
    requires Cs == Cs0[..cCurr + p.cCompleted] + piece + Cs0[cCurr + p.cCompleted + Min(TileSize, rem)..]
    ensures TileState(Cs, orig, M, aRing, bRing, Ablk, Bblk, cCurr, NextProgress(p, rem, s))
  {
    TilePieceIsNext(Ablk, Bblk, M, p.aConsumed, p.bConsumed, rem, aLenW, bLenW, wa, wb);
    ProgressKept(Cs0, Cs, orig, M, aRing, bRing, Ablk, Bblk, cCurr, p, rem, aLenW, bLenW, wa, wb, s, piece);
  }

  /** The merge half of one round of the tile loop (source lines 180-216),
      given the staged rings: it writes the tile's outputs after those
      already written, advances the counters, and so keeps the loop's
      invariant. */
  method MergeStep(aRing: seq<int>, bRing: seq<int>, C: array<int>, blockDim: int, cCurr: int,
                   rem: int, aLenW: int, bLenW: int, p: Progress,
                   ghost orig: seq<int>, ghost M: seq<int>, ghost Ablk: seq<int>, ghost Bblk: seq<int>,
                   ghost wa: seq<int>, ghost wb: seq<int>)
    returns (p': Progress)
    requires Sorted(Ablk) && Sorted(Bblk)
    requires Progressed(C[..], orig, M, Ablk, Bblk, cCurr, p) && 0 <= p.aSStart < TileSize && 0 <= p.bSStart < TileSize
    requires p.aOffset == p.aConsumed + TileSize - p.aSConsumed && p.bOffset == p.bConsumed + TileSize - p.bSConsumed
    requires rem == |M| - p.cCompleted && 0 < rem
    requires aLenW == Min(TileSize, |Ablk| - p.aConsumed) && bLenW == Min(TileSize, |Bblk| - p.bConsumed)
    requires 0 <= aLenW && 0 <= bLenW && Min(TileSize, rem) <= aLenW + bLenW
    requires wa == Ablk[p.aConsumed..p.aConsumed + aLenW] && wb == Bblk[p.bConsumed..p.bConsumed + bLenW]
    requires |wa| == aLenW && |wb| == bLenW && Sorted(wa) && Sorted(wb)
    requires IsSplit(Ablk, Bblk, p.aConsumed, p.bConsumed) && p.cCompleted == p.aConsumed + p.bConsumed
    requires 0 <= cCurr + p.cCompleted && cCurr + p.cCompleted + Min(TileSize, rem) <= C.Length
    requires |aRing| == TileSize && |bRing| == TileSize
    requires IsWindow(wa, aRing, p.aSStart) && IsWindow(wb, bRing, p.bSStart)
    requires M == Merge(Ablk, Bblk)
    requires 0 < blockDim && TileSize % blockDim == 0
    modifies C
    ensures p'.counter == p.counter + 1
    ensures TileState(C[..], orig, M, aRing, bRing, Ablk, Bblk, cCurr, p')
  {
    ghost var Cs0 := C[..];
    var s := MergeWindows(aRing, aLenW, p.aSStart, bRing, bLenW, p.bSStart, C, cCurr + p.cCompleted,
                          rem, blockDim, wa, wb);
    p' := NextProgress(p, rem, s);
    TileKept(Cs0, C[..], orig, M, aRing, bRing, Ablk, Bblk, cCurr, p, rem, aLenW, bLenW, wa, wb, s,
             Merge(wa, wb)[..Min(TileSize, rem)]);
  }

  /** One round of the block's tile loop (source lines 162-217): refill
      the rings, merge the tile, and advance the counters. It keeps the
      loop's invariant and counts one more tile. */
  method TileStep(A: seq<int>, B: seq<int>, C: array<int>, aS: array<int>, bS: array<int>, blockDim: int,
                  aCurr: int, bCurr: int, cCurr: int, aLen: int, bLen: int, cLen: int, p: Progress,
                  ghost orig: seq<int>, ghost M: seq<int>, ghost Ablk: seq<int>, ghost Bblk: seq<int>)
    returns (p': Progress)
    requires C != aS && C != bS && aS != bS && aS.Length == TileSize && bS.Length == TileSize
    requires 0 <= aCurr && 0 <= aLen && aCurr + aLen <= |A| && Ablk == A[aCurr..aCurr + aLen]
    requires 0 <= bCurr && 0 <= bLen && bCurr + bLen <= |B| && Bblk == B[bCurr..bCurr + bLen]
    requires Sorted(Ablk) && Sorted(Bblk) && M == Merge(Ablk, Bblk) && cLen == aLen + bLen
    requires 0 < blockDim && TileSize % blockDim == 0
    requires TileState(C[..], orig, M, aS[..], bS[..], Ablk, Bblk, cCurr, p) && p.cCompleted < cLen
    modifies C, aS, bS
    ensures p'.counter == p.counter + 1
    ensures TileState(C[..], orig, M, aS[..], bS[..], Ablk, Bblk, cCurr, p')
  {
    ghost var Cs0, aO, bO := C[..], aS[..], bS[..];
    StageTile(A, B, aS, bS, blockDim, aCurr, bCurr, aLen, bLen, p, Ablk, Bblk);
    var rem := cLen - p.cCompleted;
    var aLenW := Min(TileSize, aLen - p.aConsumed);
    var bLenW := Min(TileSize, bLen - p.bConsumed);
    var aRing, bRing := aS[..], bS[..];
    ghost var wa, wb := Ablk[p.aConsumed..p.aConsumed + aLenW], Bblk[p.bConsumed..p.bConsumed + bLenW];
    TileReady(Cs0, orig, M, aO, bO, Ablk, Bblk, cCurr, p, aLen, bLen, cLen, rem, aLenW, bLenW, wa, wb);
    p' := MergeStep(aRing, bRing, C, blockDim, cCurr, rem, aLenW, bLenW, p, orig, M, Ablk, Bblk, wa, wb);
  }

  // ---- The block ------------------------------------------------------

  /** What block `b` of `g` leaves in an output `Cs` of at least `m + n`
      elements: the outputs of ranks `[c_curr, c_next)` of the merge of `A`
      and `B`, and everything else as it was. A block whose range starts
      past the end of the output writes nothing. */
  ghost function BlockOutput(Cs: seq<int>, A: seq<int>, B: seq<int>, b: int, g: int): (r: seq<int>)
    requires 0 <= b && 0 < g && |A| + |B| <= |Cs|
    ensures |r| == |Cs|
  {
    var total := |A| + |B|;
    var lo, hi := BlockStart(b, g, total), BlockEnd(b, g, total);
    if lo <= hi then Cs[..lo] + Merge(A, B)[lo..hi] + Cs[hi..] else Cs
  }

  /** Lines 129-142 of the source: the block's range of the output and,
      found by thread 0 and passed to the others through `A_S[0]` and
      `A_S[1]`, the co-ranks of its two ends. */
  method BlockSetup(A: seq<int>, B: seq<int>, aS: array<int>, blockIdx: int, gridDim: int)
    returns (cCurr: int, cNext: int, aCurr: int, aNext: int)
    requires aS.Length == TileSize && 0 <= blockIdx && 0 < gridDim
    modifies aS
    ensures cCurr == BlockStart(blockIdx, gridDim, |A| + |B|) && cNext == BlockEnd(blockIdx, gridDim, |A| + |B|)
    ensures cCurr <= |A| + |B| ==> IsSplit(A, B, aCurr, cCurr - aCurr)
    ensures IsSplit(A, B, aNext, cNext - aNext)
  {
    cCurr := BlockStart(blockIdx, gridDim, |A| + |B|);
    cNext := BlockEnd(blockIdx, gridDim, |A| + |B|);
    var r := CoRank.CoRank(cCurr, A, B);
    aS[0] := r;
    r := CoRank.CoRank(cNext, A, B);
    aS[1] := r;
    aCurr := aS[0];
    aNext := aS[1];
  }

  /** A block's inputs: between the splits at the two ends of its range lie
      the inputs whose merge is that range of the merge of `A` and `B`. */
  lemma {:induction false} BlockInputs(A: seq<int>, B: seq<int>, cCurr: int, cNext: int,
                                       aCurr: int, bCurr: int, aNext: int, bNext: int)
    requires Sorted(A) && Sorted(B) && cCurr == aCurr + bCurr && cNext == aNext + bNext && cCurr <= cNext
    requires IsSplit(A, B, aCurr, bCurr) && IsSplit(A, B, aNext, bNext)
    ensures 0 <= aCurr <= aNext <= |A| && 0 <= bCurr <= bNext <= |B| && 0 <= cCurr <= cNext <= |A| + |B|
    ensures Sorted(A[aCurr..aNext]) && Sorted(B[bCurr..bNext])
    ensures Merge(A[aCurr..aNext], B[bCurr..bNext]) == Merge(A, B)[cCurr..cNext]
  {
    MergeSlice(A, B, aCurr, bCurr, aNext, bNext);
    SortedSlice(A, aCurr, aNext);
    SortedSlice(B, bCurr, bNext);
  }

  /** The counters as lines 144-158 set them up satisfy the tile loop's
      invariant: nothing written, nothing consumed, both rings empty. */
  lemma {:induction false} TileStateStarts(Cs: seq<int>, M: seq<int>, aSs: seq<int>, bSs: seq<int>,
                                           Ablk: seq<int>, Bblk: seq<int>, cCurr: int)
    requires |aSs| == TileSize && |bSs| == TileSize && |M| == |Ablk| + |Bblk|
    requires 0 <= cCurr && cCurr + |M| <= |Cs|
    ensures TileState(Cs, Cs, M, aSs, bSs, Ablk, Bblk, cCurr, Progress(0, 0, 0, 0, 0, 0, 0, 0, TileSize, TileSize))
  {
    assert Cs == Cs[..cCurr] + M[..0] + Cs[cCurr + 0..];
    assert IsWindow(Ablk[0..Min(0, |Ablk|)], aSs, 0) && IsWindow(Bblk[0..Min(0, |Bblk|)], bSs, 0);
  }

  /** When the tile loop stops, the block has written all of its range. */
  lemma {:induction false} TileStateDone(Cs: seq<int>, orig: seq<int>, M: seq<int>, aSs: seq<int>, bSs: seq<int>,
                                         Ablk: seq<int>, Bblk: seq<int>, cCurr: int, p: Progress)
    requires TileState(Cs, orig, M, aSs, bSs, Ablk, Bblk, cCurr, p)
    requires !(p.counter < CDiv(|M| + TileSize - 1, TileSize))
    ensures Cs == orig[..cCurr] + M + orig[cCurr + |M|..]
  {
    Counting(p.counter, |M|);
    assert M[..p.cCompleted] == M;
  }

  /** A block that wrote the merge of its inputs to its range leaves what
      `BlockOutput` describes. */
  lemma {:induction false} BlockWritten(Cs: seq<int>, orig: seq<int>, A: seq<int>, B: seq<int>, b: int, g: int,
                                        lo: int, hi: int, M: seq<int>)
    requires 0 <= b && 0 < g && |A| + |B| <= |orig|
    requires lo == BlockStart(b, g, |A| + |B|) && hi == BlockEnd(b, g, |A| + |B|) && lo <= hi
    requires M == Merge(A, B)[lo..hi] && Cs == orig[..lo] + M + orig[lo + |M|..]
    ensures Cs == BlockOutput(orig, A, B, b, g)
  {
  }

  /** The tile loop of a block (source lines 160-219): it writes the merge
      `M` of the block's inputs to `C[cCurr..]`, tile by tile, and nothing
      else. */
  method TileLoop(A: seq<int>, B: seq<int>, C: array<int>, aS: array<int>, bS: array<int>, blockDim: int,
                  aCurr: int, bCurr: int, cCurr: int, aLen: int, bLen: int, cLen: int,
                  ghost Ablk: seq<int>, ghost Bblk: seq<int>, ghost M: seq<int>)
    requires C != aS && C != bS && aS != bS && aS.Length == TileSize && bS.Length == TileSize
    requires 0 <= aCurr && 0 <= aLen && aCurr + aLen <= |A| && Ablk == A[aCurr..aCurr + aLen]
    requires 0 <= bCurr && 0 <= bLen && bCurr + bLen <= |B| && Bblk == B[bCurr..bCurr + bLen]
    requires Sorted(Ablk) && Sorted(Bblk) && M == Merge(Ablk, Bblk) && cLen == aLen + bLen
    requires 0 <= cCurr && cCurr + cLen <= C.Length
    requires 0 < blockDim && TileSize % blockDim == 0
    modifies C, aS, bS
    ensures C[..] == old(C[..cCurr]) + M + old(C[cCurr + cLen..])
  {
    ghost var orig := C[..];
    var totalIterations := CDiv(cLen + TileSize - 1, TileSize);
    var p := Progress(0, 0, 0, 0, 0, 0, 0, 0, TileSize, TileSize);
    TileStateStarts(orig, M, aS[..], bS[..], Ablk, Bblk, cCurr);
    while p.counter < totalIterations
      invariant TileState(C[..], orig, M, aS[..], bS[..], Ablk, Bblk, cCurr, p)
      decreases totalIterations - p.counter
    {
      Counting(p.counter, cLen);
      p := TileStep(A, B, C, aS, bS, blockDim, aCurr, bCurr, cCurr, aLen, bLen, cLen, p, orig, M, Ablk, Bblk);
    }
    TileStateDone(C[..], orig, M, aS[..], bS[..], Ablk, Bblk, cCurr, p);
  }

  /** The kernel, for block `blockIdx` of `gridDim` with `blockDim`
      threads (source lines 123-220): it writes the block's range of the
      merge of the sorted inputs to `C`, and nothing else. */
  method MergeCircularBufferKernel(A: seq<int>, m: int, B: seq<int>, n: int, C: array<int>,
                                   gridDim: int, blockIdx: int, blockDim: int)
    requires m == |A| && n == |B| && m + n <= C.Length && Sorted(A) && Sorted(B)
    requires 0 <= blockIdx < gridDim && 0 < blockDim && TileSize % blockDim == 0
    modifies C
    ensures C[..] == BlockOutput(old(C[..]), A, B, blockIdx, gridDim)
  {
    var aS := new int[TileSize];
    var bS := new int[TileSize];
    var cCurr, cNext, aCurr, aNext := BlockSetup(A, B, aS, blockIdx, gridDim);
    var bCurr := cCurr - aCurr;
    var bNext := cNext - aNext;
    var cLen := cNext - cCurr;
    var aLen := aNext - aCurr;
    var bLen := bNext - bCurr;
    if cLen < 0 {
      // The block's range is empty: `ceildiv(C_len, TILE_SIZE)` is not
      // positive and the tile loop does not run.
      assert CDiv(cLen + TileSize - 1, TileSize) <= 0;
      return;
    }
    BlockInputs(A, B, cCurr, cNext, aCurr, bCurr, aNext, bNext);
    ghost var Ablk, Bblk := A[aCurr..aNext], B[bCurr..bNext];
    ghost var M := Merge(Ablk, Bblk);
    ghost var orig := C[..];
    TileLoop(A, B, C, aS, bS, blockDim, aCurr, bCurr, cCurr, aLen, bLen, cLen, Ablk, Bblk, M);
    BlockWritten(C[..], orig, A, B, blockIdx, gridDim, cCurr, cNext, M);
  }

  /** Blocks `0` to `k - 1` of `g`, run one after another on `Cs`. The
      blocks' ranges do not overlap, so their order does not matter. */
  ghost function KernelOutput(Cs: seq<int>, A: seq<int>, B: seq<int>, g: int, k: int): (r: seq<int>)
    requires 0 <= k && 0 < g && |A| + |B| <= |Cs|
    ensures |r| == |Cs|
  {
    if k == 0 then Cs else BlockOutput(KernelOutput(Cs, A, B, g, k - 1), A, B, k - 1, g)
  }

  /** One more block: if the output holds the merge up to where block `b`
      starts, then after block `b` it holds it up to where block `b + 1`
      starts. */
  lemma {:induction false} NextBlock(Cs: seq<int>, A: seq<int>, B: seq<int>, g: int, b: int)
    requires 0 <= b < g && |A| + |B| == |Cs|
    requires Cs[..Min(BlockStart(b, g, |Cs|), |Cs|)] == Merge(A, B)[..Min(BlockStart(b, g, |Cs|), |Cs|)]
    ensures BlockOutput(Cs, A, B, b, g)[..Min(BlockStart(b + 1, g, |Cs|), |Cs|)]
            == Merge(A, B)[..Min(BlockStart(b + 1, g, |Cs|), |Cs|)]
  {
    var total := |Cs|;
    BlockRangesTile(g, total, b);
    var lo, hi := BlockStart(b, g, total), BlockEnd(b, g, total);
    var M := Merge(A, B);
    if lo <= hi {
      var cur := Cs[..lo] + M[lo..hi] + Cs[hi..];
      assert cur[..hi] == Cs[..lo] + M[lo..hi];
      assert M[..hi] == M[..lo] + M[lo..hi];
    }
  }

  /** After blocks `0` to `k - 1`, the output holds the merge of `A` and
      `B` up to where block `k` starts. */
  lemma {:induction false} BlocksSoFar(Cs: seq<int>, A: seq<int>, B: seq<int>, g: int, k: int)
    requires 0 <= k <= g && 0 < g && |A| + |B| == |Cs|
    ensures KernelOutput(Cs, A, B, g, k)[..Min(BlockStart(k, g, |Cs|), |Cs|)]
            == Merge(A, B)[..Min(BlockStart(k, g, |Cs|), |Cs|)]
  {
    if k == 0 {
      BlockRangesTile(g, |Cs|, 0);
    } else {
      BlocksSoFar(Cs, A, B, g, k - 1);
      NextBlock(KernelOutput(Cs, A, B, g, k - 1), A, B, g, k - 1);
    }
  }

  /** The launch: once every block of the grid has run, `C` holds the merge
      of `A` and `B`. */
  lemma {:induction false} AllBlocks(Cs: seq<int>, A: seq<int>, B: seq<int>, g: int)
    requires 0 < g && |A| + |B| == |Cs|
    ensures KernelOutput(Cs, A, B, g, g) == Merge(A, B)
  {
    BlocksSoFar(Cs, A, B, g, g);
    BlockRangesTile(g, |Cs|, g - 1);
  }
}
