/**
 * The co-rank searches of the merge-path kernel: given a rank `k` of the
 * merged output, find how many of the first `k` outputs come from the first
 * input. Module `CoRankSearch` states what one round of the search does and
 * why it stops; module `CoRank` holds the searches themselves: `CoRank` over
 * two global inputs and `CoRankCircular` over two windows of circular
 * shared-memory buffers.
 */
module CoRankSearch {
  import opened MergeSpec

  function Min(x: int, y: int): int { if x < y then x else y }
  function Max(x: int, y: int): int { if x > y then x else y }

  /** The slot of a circular buffer of `size` slots that holds logical
      element `x` of a window starting at slot `start`. */
  function Slot(start: int, x: int, size: int): (s: int)
    requires size > 0
    ensures 0 <= s < size
  {
    (start + x) % size
  }

  /** C's `%`, which truncates toward zero: the remainder takes the sign of
      the dividend. */
  function CRem(x: int, y: int): int
    requires y > 0
  {
    if x >= 0 then x % y else -((-x) % y)
  }

  /** For a non-negative start and logical index, as every caller passes,
      the slot is what the source's `(start + x) % tile_size` computes. A
      negative dividend would give C a negative slot instead: slot `-1`
      where `Slot` gives `1023`. */
  lemma {:induction false} SlotIsCRemainder(start: int, x: int, size: int)
    requires size > 0
    ensures 0 <= start && 0 <= x ==> Slot(start, x, size) == CRem(start + x, size)
    ensures 0 <= start && 0 <= x ==> 0 <= CRem(start + x, size) < size
    ensures CRem(-1, 1024) == -1 && Slot(-1, 0, 1024) == 1023
  {
  }

  /** The `len` logical elements of a circular buffer that start at slot
      `start` (see `WindowAt`). */
  function Window(ring: seq<int>, start: int, len: nat): (w: seq<int>)
    requires |ring| > 0
    ensures |w| == len
    decreases len
  {
    if len == 0 then [] else Window(ring, start, len - 1) + [ring[Slot(start, len - 1, |ring|)]]
  }

  lemma {:induction false} WindowAt(ring: seq<int>, start: int, len: nat, x: int)
    requires |ring| > 0 && 0 <= x < len
    ensures Window(ring, start, len)[x] == ring[Slot(start, x, |ring|)]
    decreases len
  {
    if x < len - 1 {
      WindowAt(ring, start, len - 1, x);
    }
  }

  /** `w` is what a window of `ring` starting at slot `start` holds, stated
      slot by slot. */
  ghost predicate IsWindow(w: seq<int>, ring: seq<int>, start: int) {
    |ring| > 0 && forall x {:trigger Slot(start, x, |ring|)} :: 0 <= x < |w| ==> w[x] == ring[Slot(start, x, |ring|)]
  }

  lemma {:induction false} WindowIsWindow(ring: seq<int>, start: int, len: nat)
    requires |ring| > 0
    ensures IsWindow(Window(ring, start, len), ring, start)
  {
    forall x | 0 <= x < len
      ensures Window(ring, start, len)[x] == ring[Slot(start, x, |ring|)]
    {
      WindowAt(ring, start, len, x);
    }
  }

  /** A window is determined by its slots. */
  lemma {:induction false} WindowUnique(w: seq<int>, ring: seq<int>, start: int)
    requires IsWindow(w, ring, start)
    ensures w == Window(ring, start, |w|)
  {
    forall x | 0 <= x < |w|
      ensures w[x] == Window(ring, start, |w|)[x]
    {
      WindowAt(ring, start, |w|, x);
      assert w[x] == ring[Slot(start, x, |ring|)];
    }
  }

  /** The probe `(i, j)` takes too many elements of `a`: the last of them is
      greater than the next element of `b`. */
  ghost predicate TooHigh(a: seq<int>, b: seq<int>, i: int, j: int) {
    0 < i <= |a| && 0 <= j < |b| && a[i - 1] > b[j]
  }

  /** The probe `(i, j)` takes too few elements of `a`. With `strict` the
      test is `b[j - 1] >= a[i]` (an equal element of `a` must come first),
      without it `b[j - 1] > a[i]`. */
  ghost predicate TooLow(a: seq<int>, b: seq<int>, i: int, j: int, strict: bool) {
    0 < j <= |b| && 0 <= i < |a| && (if strict then b[j - 1] >= a[i] else b[j - 1] > a[i])
  }

  /** The boundary condition the search stops at when its second test is
      not strict: it admits several splits of one rank when keys repeat. */
  ghost predicate LooseSplit(a: seq<int>, b: seq<int>, i: int, j: int) {
    && 0 <= i <= |a| && 0 <= j <= |b|
    && (i == 0 || j == |b| || a[i - 1] <= b[j])
    && (j == 0 || i == |a| || b[j - 1] <= a[i])
  }

  datatype Option<T> = None | Some(value: T)

  /** Every read of an input that the two tests of a round make is in range:
      the source guards its reads with `i > 0 && j < n` and `j > 0 && i < m`
      only. */
  ghost predicate Safe(m: int, n: int, i: int, j: int) {
    && (i > 0 && j < n ==> i <= m && 0 <= j)
    && (j > 0 && i < m ==> j <= n && 0 <= i)
  }

  /** The co-rank loop written as a function: the probe `i` it stops at
      after at most `fuel` rounds from the state `(i, j, iLow, jLow)`, or
      `None` when the fuel runs out or a round would read outside an input.
      A round that finds `i` too high halves the distance to `iLow` and makes
      the old `j` the lower bound of `j`; one that finds `i` too low halves
      the distance to `jLow` and makes the old `i` the lower bound of `i`.
      The source halves with `>> 1`, which is floor division by two, as `/ 2`
      is on `int`. */
  ghost function Run(a: seq<int>, b: seq<int>, i: int, j: int, iLow: int, jLow: int,
                     strict: bool, fuel: nat): Option<int>
    decreases fuel
  {
    if fuel == 0 || !Safe(|a|, |b|, i, j) then None
    else if TooHigh(a, b, i, j) then
      var delta := (i - iLow + 1) / 2;
      Run(a, b, i - delta, j + delta, iLow, j, strict, fuel - 1)
    else if TooLow(a, b, i, j, strict) then
      var delta := (j - jLow + 1) / 2;
      Run(a, b, i + delta, j - delta, i, jLow, strict, fuel - 1)
    else Some(i)
  }

  /** The whole search for rank `k`: it starts at `i = min(k, m)` with the
      lower bounds `max(0, k - n)` and `max(0, k - m)`, with one round per
      candidate to spare. */
  ghost function Search(a: seq<int>, b: seq<int>, k: int, strict: bool): Option<int> {
    Run(a, b, Min(k, |a|), k - Min(k, |a|), Max(0, k - |b|), Max(0, k - |a|), strict, |a| + |b| + 1)
  }

  lemma {:induction false} RunDown(a: seq<int>, b: seq<int>, i: int, j: int, iLow: int, jLow: int, strict: bool, fuel: nat)
    requires fuel > 0 && Safe(|a|, |b|, i, j) && TooHigh(a, b, i, j)
    ensures Run(a, b, i, j, iLow, jLow, strict, fuel)
         == Run(a, b, i - (i - iLow + 1) / 2, j + (i - iLow + 1) / 2, iLow, j, strict, fuel - 1)
  {
  }

  lemma {:induction false} RunUp(a: seq<int>, b: seq<int>, i: int, j: int, iLow: int, jLow: int, strict: bool, fuel: nat)
    requires fuel > 0 && Safe(|a|, |b|, i, j) && !TooHigh(a, b, i, j) && TooLow(a, b, i, j, strict)
    ensures Run(a, b, i, j, iLow, jLow, strict, fuel)
         == Run(a, b, i + (j - jLow + 1) / 2, j - (j - jLow + 1) / 2, i, jLow, strict, fuel - 1)
  {
  }

  lemma {:induction false} RunStop(a: seq<int>, b: seq<int>, i: int, j: int, iLow: int, jLow: int, strict: bool, fuel: nat)
    requires fuel > 0 && Safe(|a|, |b|, i, j) && !TooHigh(a, b, i, j) && !TooLow(a, b, i, j, strict)
    ensures Run(a, b, i, j, iLow, jLow, strict, fuel) == Some(i)
  {
  }

  /** The first test of a round, read from the circular buffers as the
      source reads it. */
  predicate TooHighRing(aRing: seq<int>, aStart: int, bRing: seq<int>, bStart: int, n: int, i: int, j: int)
    requires |aRing| > 0 && |bRing| > 0
  {
    i > 0 && j < n && aRing[Slot(aStart, i - 1, |aRing|)] > bRing[Slot(bStart, j, |bRing|)]
  }

  /** The second test of a round, read from the circular buffers. */
  predicate TooLowRing(aRing: seq<int>, aStart: int, m: int, bRing: seq<int>, bStart: int, i: int, j: int, strict: bool)
    requires |aRing| > 0 && |bRing| > 0
  {
    && j > 0 && i < m
    && (if strict then bRing[Slot(bStart, j - 1, |bRing|)] >= aRing[Slot(aStart, i, |aRing|)]
        else bRing[Slot(bStart, j - 1, |bRing|)] > aRing[Slot(aStart, i, |aRing|)])
  }

  /** `Run` for two windows of circular buffers, reading the slots directly. */
  ghost function RunRing(aRing: seq<int>, aStart: int, m: int, bRing: seq<int>, bStart: int, n: int,
                         i: int, j: int, iLow: int, jLow: int, strict: bool, fuel: nat): Option<int>
    requires |aRing| > 0 && |bRing| > 0
    decreases fuel
  {
    if fuel == 0 || !Safe(m, n, i, j) then None
    else if TooHighRing(aRing, aStart, bRing, bStart, n, i, j) then
      var delta := (i - iLow + 1) / 2;
      RunRing(aRing, aStart, m, bRing, bStart, n, i - delta, j + delta, iLow, j, strict, fuel - 1)
    else if TooLowRing(aRing, aStart, m, bRing, bStart, i, j, strict) then
      var delta := (j - jLow + 1) / 2;
      RunRing(aRing, aStart, m, bRing, bStart, n, i + delta, j - delta, i, jLow, strict, fuel - 1)
    else Some(i)
  }

  lemma {:induction false} RunRingDown(aRing: seq<int>, aStart: int, m: int, bRing: seq<int>, bStart: int, n: int,
                    i: int, j: int, iLow: int, jLow: int, strict: bool, fuel: nat)
    requires |aRing| > 0 && |bRing| > 0
    requires fuel > 0 && Safe(m, n, i, j) && TooHighRing(aRing, aStart, bRing, bStart, n, i, j)
    ensures RunRing(aRing, aStart, m, bRing, bStart, n, i, j, iLow, jLow, strict, fuel)
         == RunRing(aRing, aStart, m, bRing, bStart, n, i - (i - iLow + 1) / 2, j + (i - iLow + 1) / 2, iLow, j, strict, fuel - 1)
  {
  }

  lemma {:induction false} RunRingUp(aRing: seq<int>, aStart: int, m: int, bRing: seq<int>, bStart: int, n: int,
                  i: int, j: int, iLow: int, jLow: int, strict: bool, fuel: nat)
    requires |aRing| > 0 && |bRing| > 0
    requires fuel > 0 && Safe(m, n, i, j) && !TooHighRing(aRing, aStart, bRing, bStart, n, i, j)
    requires TooLowRing(aRing, aStart, m, bRing, bStart, i, j, strict)
    ensures RunRing(aRing, aStart, m, bRing, bStart, n, i, j, iLow, jLow, strict, fuel)
         == RunRing(aRing, aStart, m, bRing, bStart, n, i + (j - jLow + 1) / 2, j - (j - jLow + 1) / 2, i, jLow, strict, fuel - 1)
  {
  }

  lemma {:induction false} RunRingStop(aRing: seq<int>, aStart: int, m: int, bRing: seq<int>, bStart: int, n: int,
                    i: int, j: int, iLow: int, jLow: int, strict: bool, fuel: nat)
    requires |aRing| > 0 && |bRing| > 0
    requires fuel > 0 && Safe(m, n, i, j) && !TooHighRing(aRing, aStart, bRing, bStart, n, i, j)
    requires !TooLowRing(aRing, aStart, m, bRing, bStart, i, j, strict)
    ensures RunRing(aRing, aStart, m, bRing, bStart, n, i, j, iLow, jLow, strict, fuel) == Some(i)
  {
  }

  /** Reading the slots of the circular buffers is running the search on
      the windows they hold. */
  lemma {:induction false} RunRingIsRun(a: seq<int>, aRing: seq<int>, aStart: int, b: seq<int>, bRing: seq<int>, bStart: int,
                                        i: int, j: int, iLow: int, jLow: int, strict: bool, fuel: nat)
    requires IsWindow(a, aRing, aStart) && IsWindow(b, bRing, bStart)
    ensures RunRing(aRing, aStart, |a|, bRing, bStart, |b|, i, j, iLow, jLow, strict, fuel)
         == Run(a, b, i, j, iLow, jLow, strict, fuel)
    decreases fuel, 1
  {
    if fuel == 0 || !Safe(|a|, |b|, i, j) {
    } else {
      RingTests(a, aRing, aStart, b, bRing, bStart, i, j, strict);
      if TooHighRing(aRing, aStart, bRing, bStart, |b|, i, j) {
        RunRingIsRunDown(a, aRing, aStart, b, bRing, bStart, i, j, iLow, jLow, strict, fuel);
      } else if TooLowRing(aRing, aStart, |a|, bRing, bStart, i, j, strict) {
        RunRingIsRunUp(a, aRing, aStart, b, bRing, bStart, i, j, iLow, jLow, strict, fuel);
      } else {
        RunRingStop(aRing, aStart, |a|, bRing, bStart, |b|, i, j, iLow, jLow, strict, fuel);
        RunStop(a, b, i, j, iLow, jLow, strict, fuel);
      }
    }
  }

  lemma {:induction false} RunRingIsRunDown(a: seq<int>, aRing: seq<int>, aStart: int, b: seq<int>, bRing: seq<int>, bStart: int,
                                            i: int, j: int, iLow: int, jLow: int, strict: bool, fuel: nat)
    requires IsWindow(a, aRing, aStart) && IsWindow(b, bRing, bStart)
    requires fuel > 0 && Safe(|a|, |b|, i, j) && TooHighRing(aRing, aStart, bRing, bStart, |b|, i, j)
    requires TooHigh(a, b, i, j)
    ensures RunRing(aRing, aStart, |a|, bRing, bStart, |b|, i, j, iLow, jLow, strict, fuel)
         == Run(a, b, i, j, iLow, jLow, strict, fuel)
    decreases fuel, 0
  {
    RunRingDown(aRing, aStart, |a|, bRing, bStart, |b|, i, j, iLow, jLow, strict, fuel);
    RunDown(a, b, i, j, iLow, jLow, strict, fuel);
    RunRingIsRun(a, aRing, aStart, b, bRing, bStart, i - (i - iLow + 1) / 2, j + (i - iLow + 1) / 2, iLow, j, strict, fuel - 1);
  }

  lemma {:induction false} RunRingIsRunUp(a: seq<int>, aRing: seq<int>, aStart: int, b: seq<int>, bRing: seq<int>, bStart: int,
                                          i: int, j: int, iLow: int, jLow: int, strict: bool, fuel: nat)
    requires IsWindow(a, aRing, aStart) && IsWindow(b, bRing, bStart)
    requires fuel > 0 && Safe(|a|, |b|, i, j) && !TooHighRing(aRing, aStart, bRing, bStart, |b|, i, j)
    requires TooLowRing(aRing, aStart, |a|, bRing, bStart, i, j, strict)
    requires !TooHigh(a, b, i, j) && TooLow(a, b, i, j, strict)
    ensures RunRing(aRing, aStart, |a|, bRing, bStart, |b|, i, j, iLow, jLow, strict, fuel)
         == Run(a, b, i, j, iLow, jLow, strict, fuel)
    decreases fuel, 0
  {
    RunRingUp(aRing, aStart, |a|, bRing, bStart, |b|, i, j, iLow, jLow, strict, fuel);
    RunUp(a, b, i, j, iLow, jLow, strict, fuel);
    RunRingIsRun(a, aRing, aStart, b, bRing, bStart, i + (j - jLow + 1) / 2, j - (j - jLow + 1) / 2, i, jLow, strict, fuel - 1);
  }

  /** Where its reads are in range, each test on the slots is the test on
      the windows. */
  lemma {:induction false} RingTests(a: seq<int>, aRing: seq<int>, aStart: int, b: seq<int>, bRing: seq<int>, bStart: int,
                  i: int, j: int, strict: bool)
    requires IsWindow(a, aRing, aStart) && IsWindow(b, bRing, bStart) && Safe(|a|, |b|, i, j)
    ensures TooHighRing(aRing, aStart, bRing, bStart, |b|, i, j) == TooHigh(a, b, i, j)
    ensures TooLowRing(aRing, aStart, |a|, bRing, bStart, i, j, strict) == TooLow(a, b, i, j, strict)
  {
    if 0 < i <= |a| { assert a[i - 1] == aRing[Slot(aStart, i - 1, |aRing|)]; }
    if 0 <= i < |a| { assert a[i] == aRing[Slot(aStart, i, |aRing|)]; }
    if 0 < j <= |b| { assert b[j - 1] == bRing[Slot(bStart, j - 1, |bRing|)]; }
    if 0 <= j < |b| { assert b[j] == bRing[Slot(bStart, j, |bRing|)]; }
  }

  /** The termination and safety argument of the search, for a rank in range.
      `L` is a candidate known not to be too high and `H` one known to be too
      high (or one past the largest candidate); the probe `i` lies in
      `[L, H)`, and every round moves `L` up or `H` down. */
  ghost predicate Bracket(a: seq<int>, b: seq<int>, k: int, i: int, iLow: int, jLow: int, L: int, H: int) {
    && 0 <= k <= |a| + |b|
    && Max(0, k - |b|) <= L <= i < H <= Min(k, |a|) + 1
    && iLow <= L <= iLow + 1
    && k - jLow <= H <= k - jLow + 1
    && !TooHigh(a, b, L, k - L)
    && (H == k - jLow ==> TooHigh(a, b, H, k - H))
    && (H > k - jLow ==> H == Min(k, |a|) + 1)
  }

  lemma {:induction false} StepDown(a: seq<int>, b: seq<int>, k: int, i: int, iLow: int, jLow: int, L: int, H: int)
    requires Bracket(a, b, k, i, iLow, jLow, L, H) && TooHigh(a, b, i, k - i)
    ensures Bracket(a, b, k, i - (i - iLow + 1) / 2, iLow, k - i, L, i)
  {
  }

  lemma {:induction false} StepUp(a: seq<int>, b: seq<int>, k: int, i: int, iLow: int, jLow: int, L: int, H: int, strict: bool)
    requires Bracket(a, b, k, i, iLow, jLow, L, H) && TooLow(a, b, i, k - i, strict)
    ensures Bracket(a, b, k, i + (k - i - jLow + 1) / 2, i, jLow, i + 1, H)
  {
    assert !TooHigh(a, b, i + 1, k - i - 1);
  }

  lemma {:induction false} BracketStart(a: seq<int>, b: seq<int>, k: int)
    requires 0 <= k <= |a| + |b|
    ensures Bracket(a, b, k, Min(k, |a|), Max(0, k - |b|), Max(0, k - |a|), Max(0, k - |b|), Min(k, |a|) + 1)
  {
  }

  lemma {:induction false} BracketSafe(a: seq<int>, b: seq<int>, k: int, i: int, iLow: int, jLow: int, L: int, H: int)
    requires Bracket(a, b, k, i, iLow, jLow, L, H)
    ensures Safe(|a|, |b|, i, k - i)
  {
  }

  /** From a bracketed probe with at least `H - L` rounds of fuel the search
      stops without reading out of range, at a loose split; with the strict
      test, at a split. */
  lemma {:induction false} RunFromBracket(a: seq<int>, b: seq<int>, k: int, i: int, iLow: int, jLow: int,
                       L: int, H: int, strict: bool, fuel: nat) returns (r: int)
    requires Bracket(a, b, k, i, iLow, jLow, L, H) && fuel >= H - L
    ensures Run(a, b, i, k - i, iLow, jLow, strict, fuel) == Some(r)
    ensures LooseSplit(a, b, r, k - r) && (strict ==> IsSplit(a, b, r, k - r))
    decreases fuel, 1
  {
    if TooHigh(a, b, i, k - i) {
      r := RunFromBracketDown(a, b, k, i, iLow, jLow, L, H, strict, fuel);
    } else if TooLow(a, b, i, k - i, strict) {
      r := RunFromBracketUp(a, b, k, i, iLow, jLow, L, H, strict, fuel);
    } else {
      BracketSafe(a, b, k, i, iLow, jLow, L, H);
      RunStop(a, b, i, k - i, iLow, jLow, strict, fuel);
      StopIsLooseSplit(a, b, k, i, iLow, jLow, L, H, strict);
      r := i;
    }
  }

  lemma {:induction false} RunFromBracketDown(a: seq<int>, b: seq<int>, k: int, i: int, iLow: int, jLow: int,
                           L: int, H: int, strict: bool, fuel: nat) returns (r: int)
    requires Bracket(a, b, k, i, iLow, jLow, L, H) && fuel >= H - L
    requires TooHigh(a, b, i, k - i)
    ensures Run(a, b, i, k - i, iLow, jLow, strict, fuel) == Some(r)
    ensures LooseSplit(a, b, r, k - r) && (strict ==> IsSplit(a, b, r, k - r))
    decreases fuel, 0
  {
    BracketSafe(a, b, k, i, iLow, jLow, L, H);
    StepDown(a, b, k, i, iLow, jLow, L, H);
    RunDown(a, b, i, k - i, iLow, jLow, strict, fuel);
    r := RunFromBracket(a, b, k, i - (i - iLow + 1) / 2, iLow, k - i, L, i, strict, fuel - 1);
  }

  lemma {:induction false} RunFromBracketUp(a: seq<int>, b: seq<int>, k: int, i: int, iLow: int, jLow: int,
                         L: int, H: int, strict: bool, fuel: nat) returns (r: int)
    requires Bracket(a, b, k, i, iLow, jLow, L, H) && fuel >= H - L
    requires !TooHigh(a, b, i, k - i) && TooLow(a, b, i, k - i, strict)
    ensures Run(a, b, i, k - i, iLow, jLow, strict, fuel) == Some(r)
    ensures LooseSplit(a, b, r, k - r) && (strict ==> IsSplit(a, b, r, k - r))
    decreases fuel, 0
  {
    BracketSafe(a, b, k, i, iLow, jLow, L, H);
    StepUp(a, b, k, i, iLow, jLow, L, H, strict);
    RunUp(a, b, i, k - i, iLow, jLow, strict, fuel);
    r := RunFromBracket(a, b, k, i + (k - i - jLow + 1) / 2, i, jLow, i + 1, H, strict, fuel - 1);
  }

  /** A probe that is neither too high nor too low is a loose split, and a
      split when the strict test was used. */
  lemma {:induction false} StopIsLooseSplit(a: seq<int>, b: seq<int>, k: int, i: int, iLow: int, jLow: int, L: int, H: int, strict: bool)
    requires Bracket(a, b, k, i, iLow, jLow, L, H)
    requires !TooHigh(a, b, i, k - i) && !TooLow(a, b, i, k - i, strict)
    ensures LooseSplit(a, b, i, k - i) && (strict ==> IsSplit(a, b, i, k - i))
  {
  }

  /** What a co-rank search returns: the probe `Search` stops at, which
      for an in-range rank is a loose split (a split, with the strict test)
      and otherwise the first probe `min(k, |a|)`. */
  ghost predicate Found(a: seq<int>, b: seq<int>, k: int, strict: bool, r: int) {
    && Search(a, b, k, strict) == Some(r)
    && (0 <= k <= |a| + |b| ==> LooseSplit(a, b, r, k - r))
    && (0 <= k <= |a| + |b| && strict ==> IsSplit(a, b, r, k - r))
    && (!(0 <= k <= |a| + |b|) ==> r == Min(k, |a|))
  }

  /** The search for an in-range rank stops at a loose split (a split, with
      the strict test); for an out-of-range rank it stops at once, at
      `min(k, |a|)`. */
  lemma {:induction false} SearchStops(a: seq<int>, b: seq<int>, k: int, strict: bool) returns (r: int)
    ensures Found(a, b, k, strict, r)
  {
    if 0 <= k <= |a| + |b| {
      BracketStart(a, b, k);
      r := RunFromBracket(a, b, k, Min(k, |a|), Max(0, k - |b|), Max(0, k - |a|),
                          Max(0, k - |b|), Min(k, |a|) + 1, strict, |a| + |b| + 1);
    } else {
      r := Min(k, |a|);
      RunStop(a, b, r, k - r, Max(0, k - |b|), Max(0, k - |a|), strict, |a| + |b| + 1);
    }
  }

  /** `Search` for two windows of circular buffers, reading the slots. */
  ghost function SearchRing(aRing: seq<int>, aStart: int, m: nat, bRing: seq<int>, bStart: int, n: nat,
                            k: int, strict: bool): Option<int>
    requires |aRing| > 0 && |bRing| > 0
  {
    RunRing(aRing, aStart, m, bRing, bStart, n, Min(k, m), k - Min(k, m), Max(0, k - n), Max(0, k - m), strict, m + n + 1)
  }

  /** `Found` for two windows of circular buffers. */
  ghost predicate FoundOnWindows(aRing: seq<int>, aStart: int, m: nat, bRing: seq<int>, bStart: int, n: nat,
                                 k: int, strict: bool, r: int)
    requires |aRing| > 0 && |bRing| > 0
  {
    Found(Window(aRing, aStart, m), Window(bRing, bStart, n), k, strict, r)
  }

  /** The search over the slots of two windows stops where the search on
      the windows stops. */
  lemma {:induction false} SlotsSearch(a: seq<int>, aRing: seq<int>, aStart: int, b: seq<int>, bRing: seq<int>, bStart: int,
                    k: int, strict: bool) returns (r: int)
    requires IsWindow(a, aRing, aStart) && IsWindow(b, bRing, bStart)
    ensures SearchRing(aRing, aStart, |a|, bRing, bStart, |b|, k, strict) == Some(r)
    ensures Found(a, b, k, strict, r)
  {
    RunRingIsRun(a, aRing, aStart, b, bRing, bStart, Min(k, |a|), k - Min(k, |a|), Max(0, k - |b|), Max(0, k - |a|),
                 strict, |a| + |b| + 1);
    r := SearchStops(a, b, k, strict);
  }

  /** The search over the slots stops. */
  lemma {:induction false} RingSearchStops(aRing: seq<int>, aStart: int, m: nat, bRing: seq<int>, bStart: int, n: nat,
                        k: int, strict: bool) returns (r: int)
    requires |aRing| > 0 && |bRing| > 0
    ensures SearchRing(aRing, aStart, m, bRing, bStart, n, k, strict) == Some(r)
  {
    WindowIsWindow(aRing, aStart, m);
    WindowIsWindow(bRing, bStart, n);
    r := SlotsSearch(Window(aRing, aStart, m), aRing, aStart, Window(bRing, bStart, n), bRing, bStart, k, strict);
  }

  /** Where the search over the slots stops, the search on the windows
      stops too. */
  lemma {:induction false} RingSearchFinds(aRing: seq<int>, aStart: int, m: nat, bRing: seq<int>, bStart: int, n: nat,
                        k: int, strict: bool, r: int)
    requires |aRing| > 0 && |bRing| > 0
    requires SearchRing(aRing, aStart, m, bRing, bStart, n, k, strict) == Some(r)
    ensures FoundOnWindows(aRing, aStart, m, bRing, bStart, n, k, strict, r)
  {
    WindowIsWindow(aRing, aStart, m);
    WindowIsWindow(bRing, bStart, n);
    var r1 := SlotsSearch(Window(aRing, aStart, m), aRing, aStart, Window(bRing, bStart, n), bRing, bStart, k, strict);
  }
}

module CoRank {
  import opened MergeSpec
  import opened CoRankSearch

  /** The co-rank of `k` in the merge of `a` and `b` (the source's `m` and
      `n` are `|a|` and `|b|`). The loop follows `Search` round by round, so
      it stops on any inputs; an in-range rank yields a split (on sorted
      inputs the unique one), an out-of-range rank the first probe
      `min(k, m)`. */
  method CoRank(k: int, a: seq<int>, b: seq<int>) returns (r: int)
    ensures Found(a, b, k, true, r)
  {
    var m, n := |a|, |b|;
    var i := Min(k, m);
    var j := k - i;
    var iLow := Max(0, k - n);
    var jLow := Max(0, k - m);
    var active := true;
    ghost var fuel: nat := m + n + 1;
    ghost var r0 := SearchStops(a, b, k, true);
    while active
      invariant Run(a, b, i, j, iLow, jLow, true, fuel) == Some(r0)
      invariant !active ==> i == r0
      decreases active, fuel
    {
      if i > 0 && j < n && a[i - 1] > b[j] {
        var delta := (i - iLow + 1) / 2;
        jLow := j;
        i, j := i - delta, j + delta;
        fuel := fuel - 1;
      } else if j > 0 && i < m && b[j - 1] >= a[i] {
        var delta := (j - jLow + 1) / 2;
        iLow := i;
        i, j := i + delta, j - delta;
        fuel := fuel - 1;
      } else {
        active := false;
      }
    }
    r := i;
  }

  /** The co-rank of `k` in the merge of two circular-buffer windows, as
      written: the second test is `b[j - 1] > a[i]`, so on equal keys the
      search stops at a loose split, whichever one its path reaches first
      (`Search` with the loose test). */
  method CoRankCircular(k: int, aRing: seq<int>, m: int, bRing: seq<int>, n: int,
                        aStart: int, bStart: int, tileSize: int) returns (r: int)
    requires tileSize > 0 && |aRing| == tileSize && |bRing| == tileSize
    requires 0 <= m && 0 <= n && 0 <= aStart && 0 <= bStart
    ensures FoundOnWindows(aRing, aStart, m, bRing, bStart, n, k, false, r)
  {
    ghost var r0 := RingSearchStops(aRing, aStart, m, bRing, bStart, n, k, false);
    var i := Min(k, m);
    var j := k - i;
    var iLow := Max(0, k - n);
    var jLow := Max(0, k - m);
    var active := true;
    ghost var fuel: nat := m + n + 1;
    while active
      invariant RunRing(aRing, aStart, m, bRing, bStart, n, i, j, iLow, jLow, false, fuel) == Some(r0)
      invariant !active ==> i == r0
      invariant i + j == k
      decreases active, fuel
    {
      if TooHighRing(aRing, aStart, bRing, bStart, n, i, j) {
        var delta := (i - iLow + 1) / 2;
        jLow := j;
        i, j := i - delta, j + delta;
        fuel := fuel - 1;
      } else if TooLowRing(aRing, aStart, m, bRing, bStart, i, j, false) {
        var delta := (j - jLow + 1) / 2;
        iLow := i;
        j, i := j - delta, i + delta;
        fuel := fuel - 1;
      } else {
        active := false;
      }
    }
    r := i;
    RingSearchFinds(aRing, aStart, m, bRing, bStart, n, k, false, r);
  }

  /** The co-rank search over circular-buffer windows with the strict second
      test `b[j - 1] >= a[i]` of `CoRank`: every in-range rank yields a
      split, so on sorted windows the co-ranks grow with the rank
      (`SplitMonotone`). */
  method CoRankCircularFixed(k: int, aRing: seq<int>, m: int, bRing: seq<int>, n: int,
                             aStart: int, bStart: int, tileSize: int) returns (r: int)
    requires tileSize > 0 && |aRing| == tileSize && |bRing| == tileSize
    requires 0 <= m && 0 <= n && 0 <= aStart && 0 <= bStart
    ensures FoundOnWindows(aRing, aStart, m, bRing, bStart, n, k, true, r)
  {
    ghost var r0 := RingSearchStops(aRing, aStart, m, bRing, bStart, n, k, true);
    var i := Min(k, m);
    var j := k - i;
    var iLow := Max(0, k - n);
    var jLow := Max(0, k - m);
    var active := true;
    ghost var fuel: nat := m + n + 1;
    while active
      invariant RunRing(aRing, aStart, m, bRing, bStart, n, i, j, iLow, jLow, true, fuel) == Some(r0)
      invariant !active ==> i == r0
      invariant i + j == k
      decreases active, fuel
    {
      if TooHighRing(aRing, aStart, bRing, bStart, n, i, j) {
        var delta := (i - iLow + 1) / 2;
        jLow := j;
        i, j := i - delta, j + delta;
        fuel := fuel - 1;
      } else if TooLowRing(aRing, aStart, m, bRing, bStart, i, j, true) {
        var delta := (j - jLow + 1) / 2;
        iLow := i;
        j, i := j - delta, i + delta;
        fuel := fuel - 1;
      } else {
        active := false;
      }
    }
    r := i;
    RingSearchFinds(aRing, aStart, m, bRing, bStart, n, k, true, r);
  }

  /** With the loose second test, co-ranks of sorted windows are not
      monotone in the rank: for windows `[0, 0, 1]` and `[0, 0, 0]` rank 2
      gives 2 and rank 3 gives 1, so a thread whose slice of the output runs
      from rank 2 to rank 3 is handed `-1` elements of `a`. The result at
      rank 3, `(1, 2)`, is not a split. */
  lemma {:induction false} LooseCoRankNotMonotone()
    ensures Sorted([0, 0, 1]) && Sorted([0, 0, 0])
    ensures Search([0, 0, 1], [0, 0, 0], 2, false) == Some(2)
    ensures Search([0, 0, 1], [0, 0, 0], 3, false) == Some(1)
    ensures !IsSplit([0, 0, 1], [0, 0, 0], 1, 2)
  {
    var a, b := [0, 0, 1], [0, 0, 0];
    RunStop(a, b, 2, 0, 0, 0, false, 7);
    RunDown(a, b, 3, 0, 0, 0, false, 7);
    RunStop(a, b, 1, 2, 0, 0, false, 6);
  }

  /** The co-rank of an in-range rank is a split position within
      `[max(0, k - n), min(k, m)]`; rank 0 has co-rank 0 and rank `m + n`
      co-rank `m`. */
  lemma {:induction false} CoRankBounds(a: seq<int>, b: seq<int>, k: int, r: int)
    requires 0 <= k <= |a| + |b| && Found(a, b, k, true, r)
    ensures Max(0, k - |b|) <= r <= Min(k, |a|) && 0 <= k - r <= |b|
    ensures k == 0 ==> r == 0
    ensures k == |a| + |b| ==> r == |a|
  {
  }

  /** With the strict second test, the co-ranks of sorted inputs grow with
      the rank, in both sequences. */
  lemma {:induction false} StrictCoRankMonotone(a: seq<int>, b: seq<int>, k1: int, r1: int, k2: int, r2: int)
    requires Sorted(a) && Sorted(b) && 0 <= k1 <= k2 <= |a| + |b|
    requires Found(a, b, k1, true, r1) && Found(a, b, k2, true, r2)
    ensures r1 <= r2 && k1 - r1 <= k2 - r2
  {
    SplitMonotone(a, b, r1, k1 - r1, r2, k2 - r2);
  }
}
