/**
 * The per-thread sequential merge of the kernel: it merges two windows of
 * the shared circular buffers into a slice of the output array, reading
 * logical element `x` of a window from slot `(start + x) % tileSize`.
 */
module CircularMerge {
  import opened MergeSpec
  import opened CoRankSearch
  import opened Fill

  /** The merge of the `m` elements of `aRing` from slot `aStart` on with the
      `n` elements of `bRing` from slot `bStart` on. */
  ghost function MergedWindows(aRing: seq<int>, aStart: int, m: nat, bRing: seq<int>, bStart: int, n: nat): seq<int>
    requires |aRing| > 0 && |bRing| > 0
  {
    Merge(Window(aRing, aStart, m), Window(bRing, bStart, n))
  }

  /** Merges the window of `m` elements of `aRing` from slot `aStart` on and
      the window of `n` elements of `bRing` from slot `bStart` on into
      `c[cOff..]`, taking the element of the first window on equal keys. A
      negative length is an empty window, as the source's loops do not run
      for it. The starts are not negative, as every caller's are: the
      source's `%` would give a negative slot otherwise. Nothing outside the
      written slice changes. The source's three
      loops are the methods `MergeHeads`, `CopyRestOfA` and `CopyRestOfB`. */
  method MergeSequentialCircular(aRing: seq<int>, m: int, bRing: seq<int>, n: int, c: array<int>, cOff: int,
                                 aStart: int, bStart: int, tileSize: int)
    requires tileSize > 0 && |aRing| == tileSize && |bRing| == tileSize
    requires 0 <= aStart && 0 <= bStart
    requires 0 <= cOff && cOff + Max(0, m) + Max(0, n) <= c.Length
    modifies c
    ensures c[..] == old(c[..cOff]) + MergedWindows(aRing, aStart, Max(0, m), bRing, bStart, Max(0, n))
                     + old(c[cOff + Max(0, m) + Max(0, n)..])
  {
    ghost var mm, nn := Max(0, m), Max(0, n);
    ghost var a := SomeWindow(aRing, aStart, mm);
    ghost var b := SomeWindow(bRing, bStart, nn);
    ghost var orig := c[..];
    ghost var done;
    var i, j;
    i, j, done := MergeHeads(aRing, m, bRing, n, c, cOff, aStart, bStart, tileSize, a, b, orig);
    i, done := CopyRestOfA(aRing, m, c, cOff, aStart, tileSize, a, b, orig, i, j, done);
    j, done := CopyRestOfB(bRing, n, c, cOff, bStart, tileSize, a, b, orig, i, j, done);
    Conclude(c[..], orig, cOff, a, aRing, aStart, m, b, bRing, bStart, n, done);
  }

  /** The first loop of the sequential merge: while both windows have
      elements left, it outputs the smaller head, the first window's on
      equal keys. */
  method MergeHeads(aRing: seq<int>, m: int, bRing: seq<int>, n: int, c: array<int>, cOff: int,
                    aStart: int, bStart: int, tileSize: int, ghost a: seq<int>, ghost b: seq<int>,
                    ghost orig: seq<int>) returns (i: int, j: int, ghost done: seq<int>)
    requires tileSize > 0 && |aRing| == tileSize && |bRing| == tileSize
    requires IsWindow(a, aRing, aStart) && |a| == Max(0, m) && IsWindow(b, bRing, bStart) && |b| == Max(0, n)
    requires 0 <= cOff && cOff + |a| + |b| <= c.Length && c[..] == orig
    modifies c
    ensures 0 <= i <= |a| && 0 <= j <= |b| && (i < |a| ==> j == |b|) && |done| == i + j
    ensures |c[..]| == |orig| && Kept(c[..], orig, cOff, |done|) && Holds(c[..], cOff, done)
    ensures Merging(a, b, i, j, done)
  {
    ghost var mm, nn := |a|, |b|;
    done := [];
    var k;
    i, j, k := 0, 0, 0;
    while i < m && j < n
      invariant 0 <= i <= mm && 0 <= j <= nn && k == i + j && |done| == k
      invariant |c[..]| == |orig| && Kept(c[..], orig, cOff, k) && Holds(c[..], cOff, done)
      invariant Merging(a, b, i, j, done)
      decreases mm + nn - k
    {
      var iCir := Slot(aStart, i, tileSize);
      var jCir := Slot(bStart, j, tileSize);
      var v;
      if aRing[iCir] <= bRing[jCir] {
        TakeA(a, aRing, aStart, b, bRing, bStart, i, j, done);
        v, i := aRing[iCir], i + 1;
      } else {
        TakeB(a, aRing, aStart, b, bRing, bStart, i, j, done);
        v, j := bRing[jCir], j + 1;
      }
      ghost var s0 := c[..];
      c[cOff + k] := v;
      assert c[..] == s0[cOff + k := v];
      WriteStep(s0, orig, cOff, done, v);
      done := done + [v];
      k := k + 1;
    }
  }

  /** The loop of the sequential merge that copies the rest of the first
      window once the second is used up. */
  method CopyRestOfA(aRing: seq<int>, m: int, c: array<int>, cOff: int, aStart: int, tileSize: int,
                     ghost a: seq<int>, ghost b: seq<int>, ghost orig: seq<int>, i0: int, j: int,
                     ghost done0: seq<int>) returns (i: int, ghost done: seq<int>)
    requires tileSize > 0 && |aRing| == tileSize && IsWindow(a, aRing, aStart) && |a| == Max(0, m)
    requires 0 <= i0 <= |a| && 0 <= j <= |b| && (i0 < |a| ==> j == |b|) && |done0| == i0 + j
    requires 0 <= cOff && cOff + |a| + |b| <= c.Length
    requires |c[..]| == |orig| && Kept(c[..], orig, cOff, |done0|) && Holds(c[..], cOff, done0)
    requires Merging(a, b, i0, j, done0)
    modifies c
    ensures i == |a| && |done| == i + j && Kept(c[..], orig, cOff, |done|) && Holds(c[..], cOff, done)
    ensures Merging(a, b, i, j, done)
  {
    var k;
    i, k := i0, i0 + j;
    done := done0;
    while i < m
      invariant i0 <= i <= |a| && k == i + j && |done| == k
      invariant |c[..]| == |orig| && Kept(c[..], orig, cOff, k) && Holds(c[..], cOff, done)
      invariant Merging(a, b, i, j, done)
      decreases |a| - i
    {
      ghost var s0 := c[..];
      TakeRestOfA(a, aRing, aStart, b, i, j, done);
      c[cOff + k] := aRing[Slot(aStart, i, tileSize)];
      assert c[..] == s0[cOff + k := aRing[Slot(aStart, i, tileSize)]];
      WriteStep(s0, orig, cOff, done, aRing[Slot(aStart, i, tileSize)]);
      done := done + [aRing[Slot(aStart, i, tileSize)]];
      k, i := k + 1, i + 1;
    }
  }

  /** The loop of the sequential merge that copies the rest of the second
      window once the first is used up. */
  method CopyRestOfB(bRing: seq<int>, n: int, c: array<int>, cOff: int, bStart: int, tileSize: int,
                     ghost a: seq<int>, ghost b: seq<int>, ghost orig: seq<int>, i: int, j0: int,
                     ghost done0: seq<int>) returns (j: int, ghost done: seq<int>)
    requires tileSize > 0 && |bRing| == tileSize && IsWindow(b, bRing, bStart) && |b| == Max(0, n)
    requires i == |a| && 0 <= j0 <= |b| && |done0| == i + j0
    requires 0 <= cOff && cOff + |a| + |b| <= c.Length
    requires |c[..]| == |orig| && Kept(c[..], orig, cOff, |done0|) && Holds(c[..], cOff, done0)
    requires Merging(a, b, i, j0, done0)
    modifies c
    ensures j == |b| && |done| == i + j && Kept(c[..], orig, cOff, |done|) && Holds(c[..], cOff, done)
    ensures Merging(a, b, i, j, done)
  {
    var k;
    j, k := j0, i + j0;
    done := done0;
    while j < n
      invariant j0 <= j <= |b| && k == i + j && |done| == k
      invariant |c[..]| == |orig| && Kept(c[..], orig, cOff, k) && Holds(c[..], cOff, done)
      invariant Merging(a, b, i, j, done)
      decreases |b| - j
    {
      ghost var s0 := c[..];
      TakeRestOfB(a, b, bRing, bStart, i, j, done);
      c[cOff + k] := bRing[Slot(bStart, j, tileSize)];
      assert c[..] == s0[cOff + k := bRing[Slot(bStart, j, tileSize)]];
      WriteStep(s0, orig, cOff, done, bRing[Slot(bStart, j, tileSize)]);
      done := done + [bRing[Slot(bStart, j, tileSize)]];
      k, j := k + 1, j + 1;
    }
  }

  /** Some sequence that a window of `len` elements holds. */
  lemma {:induction false} SomeWindow(ring: seq<int>, start: int, len: nat) returns (w: seq<int>)
    requires |ring| > 0
    ensures IsWindow(w, ring, start) && |w| == len
  {
    w := Window(ring, start, len);
    WindowIsWindow(ring, start, len);
  }

  lemma {:induction false} MergedWindowsIs(a: seq<int>, aRing: seq<int>, aStart: int, b: seq<int>, bRing: seq<int>, bStart: int)
    requires IsWindow(a, aRing, aStart) && IsWindow(b, bRing, bStart)
    ensures MergedWindows(aRing, aStart, |a|, bRing, bStart, |b|) == Merge(a, b)
  {
    WindowUnique(a, aRing, aStart);
    WindowUnique(b, bRing, bStart);
  }

  /** What the sequential merge writes holds exactly the elements of the two
      windows, and it is sorted when both windows are. */
  lemma {:induction false} MergedWindowsSortedPermutation(a: seq<int>, aRing: seq<int>, aStart: int,
                                                          b: seq<int>, bRing: seq<int>, bStart: int)
    requires IsWindow(a, aRing, aStart) && IsWindow(b, bRing, bStart)
    ensures multiset(MergedWindows(aRing, aStart, |a|, bRing, bStart, |b|)) == multiset(a) + multiset(b)
    ensures Sorted(a) && Sorted(b) ==> Sorted(MergedWindows(aRing, aStart, |a|, bRing, bStart, |b|))
  {
    MergedWindowsIs(a, aRing, aStart, b, bRing, bStart);
    MergePermutation(a, b);
    if Sorted(a) && Sorted(b) {
      MergeSorted(a, b);
    }
  }

  /** The head of the rest of the first window, read from its slot, is the
      next output. */
  lemma {:induction false} TakeA(a: seq<int>, aRing: seq<int>, aStart: int, b: seq<int>, bRing: seq<int>, bStart: int,
              i: int, j: int, done: seq<int>)
    requires IsWindow(a, aRing, aStart) && IsWindow(b, bRing, bStart)
    requires 0 <= i < |a| && 0 <= j < |b| && aRing[Slot(aStart, i, |aRing|)] <= bRing[Slot(bStart, j, |bRing|)]
    requires Merging(a, b, i, j, done)
    ensures Merging(a, b, i + 1, j, done + [aRing[Slot(aStart, i, |aRing|)]])
  {
    assert a[i] == aRing[Slot(aStart, i, |aRing|)] && b[j] == bRing[Slot(bStart, j, |bRing|)];
    MergingTakeA(a, b, i, j, done);
  }

  /** The head of the rest of the second window, read from its slot, is the
      next output. */
  lemma {:induction false} TakeB(a: seq<int>, aRing: seq<int>, aStart: int, b: seq<int>, bRing: seq<int>, bStart: int,
              i: int, j: int, done: seq<int>)
    requires IsWindow(a, aRing, aStart) && IsWindow(b, bRing, bStart)
    requires 0 <= i < |a| && 0 <= j < |b| && aRing[Slot(aStart, i, |aRing|)] > bRing[Slot(bStart, j, |bRing|)]
    requires Merging(a, b, i, j, done)
    ensures Merging(a, b, i, j + 1, done + [bRing[Slot(bStart, j, |bRing|)]])
  {
    assert a[i] == aRing[Slot(aStart, i, |aRing|)] && b[j] == bRing[Slot(bStart, j, |bRing|)];
    MergingTakeB(a, b, i, j, done);
  }

  /** Once the second window is used up, the next output is the head of the
      rest of the first. */
  lemma {:induction false} TakeRestOfA(a: seq<int>, aRing: seq<int>, aStart: int, b: seq<int>, i: int, j: int, done: seq<int>)
    requires IsWindow(a, aRing, aStart)
    requires 0 <= i < |a| && j == |b|
    requires Merging(a, b, i, j, done)
    ensures Merging(a, b, i + 1, j, done + [aRing[Slot(aStart, i, |aRing|)]])
  {
    assert a[i] == aRing[Slot(aStart, i, |aRing|)];
    MergingRestOfA(a, b, i, j, done);
  }

  /** Once the first window is used up, the next output is the head of the
      rest of the second. */
  lemma {:induction false} TakeRestOfB(a: seq<int>, b: seq<int>, bRing: seq<int>, bStart: int, i: int, j: int, done: seq<int>)
    requires IsWindow(b, bRing, bStart)
    requires i == |a| && 0 <= j < |b|
    requires Merging(a, b, i, j, done)
    ensures Merging(a, b, i, j + 1, done + [bRing[Slot(bStart, j, |bRing|)]])
  {
    assert b[j] == bRing[Slot(bStart, j, |bRing|)];
    MergingRestOfB(a, b, i, j, done);
  }

  /** Once both windows are used up, the array holds their merge inside
      what it held before. */
  lemma {:induction false} Conclude(s: seq<int>, orig: seq<int>, off: int, a: seq<int>, aRing: seq<int>, aStart: int, m: int,
                 b: seq<int>, bRing: seq<int>, bStart: int, n: int, done: seq<int>)
    requires IsWindow(a, aRing, aStart) && |a| == Max(0, m) && IsWindow(b, bRing, bStart) && |b| == Max(0, n)
    requires |s| == |orig| && Kept(s, orig, off, |done|) && Holds(s, off, done)
    requires Merging(a, b, |a|, |b|, done)
    ensures s == orig[..off] + MergedWindows(aRing, aStart, Max(0, m), bRing, bStart, Max(0, n))
                 + orig[off + Max(0, m) + Max(0, n)..]
  {
    FinishMerge(a, b, |a|, |b|, done);
    MergedWindowsIs(a, aRing, aStart, b, bRing, bStart);
    Assembled(s, orig, off, done);
  }
}
