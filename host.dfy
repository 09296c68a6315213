/**
 * The host-side reference code: the sequential merge the kernel's output
 * is compared against, and the element-by-element comparison.
 */
module HostReference {
  import opened MergeSpec
  import opened Fill

  /** The sequential reference merge of the `m` elements of `A` and the `n`
      elements of `B` into `C[..m + n]`. Its test `A[i] < B[j]` is strict, so
      on equal keys the element of `B` goes first: it computes the merge with
      `B` as the first input. Nothing after `C[m + n - 1]` changes. The source's three
      loops are the methods `MergeCpuHeads`, `MergeCpuRestOfA` and
      `MergeCpuRestOfB`. */
  method MergeCpu(A: seq<int>, m: int, B: seq<int>, n: int, C: array<int>)
    requires m == |A| && n == |B| && m + n <= C.Length
    modifies C
    ensures C[..] == Merge(B, A) + old(C[m + n..])
  {
    ghost var orig := C[..];
    ghost var done;
    var i, j;
    i, j, done := MergeCpuHeads(A, m, B, n, C, orig);
    i, done := MergeCpuRestOfA(A, m, B, C, orig, i, j, done);
    j, done := MergeCpuRestOfB(A, B, n, C, orig, i, j, done);
    Filled(C[..], orig, B, A, done);
  }

  /** Once both inputs are used up, the array starts with their merge. */
  lemma {:induction false} Filled(s: seq<int>, orig: seq<int>, a: seq<int>, b: seq<int>, done: seq<int>)
    requires |s| == |orig| && Kept(s, orig, 0, |done|) && Holds(s, 0, done)
    requires Merging(a, b, |a|, |b|, done)
    ensures s == Merge(a, b) + orig[|a| + |b|..]
  {
    FinishMerge(a, b, |a|, |b|, done);
    Assembled(s, orig, 0, done);
  }

  /** The first loop of the reference merge: while both inputs have
      elements left, it outputs `A[i]` if it is smaller than `B[j]` and
      `B[j]` otherwise. The merge it follows has `B` as its first input. */
  method MergeCpuHeads(A: seq<int>, m: int, B: seq<int>, n: int, C: array<int>, ghost orig: seq<int>)
    returns (i: int, j: int, ghost done: seq<int>)
    requires m == |A| && n == |B| && m + n <= C.Length && C[..] == orig
    modifies C
    ensures 0 <= i <= |A| && 0 <= j <= |B| && (i < |A| ==> j == |B|) && |done| == i + j
    ensures |C[..]| == |orig| && Kept(C[..], orig, 0, |done|) && Holds(C[..], 0, done)
    ensures Merging(B, A, j, i, done)
  {
    done := [];
    var k;
    i, j, k := 0, 0, 0;
    while i < m && j < n
      invariant 0 <= i <= |A| && 0 <= j <= |B| && k == i + j && |done| == k
      invariant |C[..]| == |orig| && Kept(C[..], orig, 0, k) && Holds(C[..], 0, done)
      invariant Merging(B, A, j, i, done)
      decreases |B| + |A| - k
    {
      var v;
      if A[i] < B[j] {
        MergingTakeB(B, A, j, i, done);
        v, i := A[i], i + 1;
      } else {
        MergingTakeA(B, A, j, i, done);
        v, j := B[j], j + 1;
      }
      ghost var s0 := C[..];
      C[k] := v;
      assert C[..] == s0[k := v];
      WriteStep(s0, orig, 0, done, v);
      done := done + [v];
      k := k + 1;
    }
  }

  /** The loop of the reference merge that copies the rest of `A` once `B`
      is used up. */
  method MergeCpuRestOfA(A: seq<int>, m: int, B: seq<int>, C: array<int>, ghost orig: seq<int>,
                         i0: int, j: int, ghost done0: seq<int>)
    returns (i: int, ghost done: seq<int>)
    requires m == |A|
    requires 0 <= i0 <= |A| && 0 <= j <= |B| && (i0 < |A| ==> j == |B|) && |done0| == i0 + j
    requires |B| + |A| <= C.Length
    requires |C[..]| == |orig| && Kept(C[..], orig, 0, |done0|) && Holds(C[..], 0, done0)
    requires Merging(B, A, j, i0, done0)
    modifies C
    ensures i == |A| && |done| == i + j && Kept(C[..], orig, 0, |done|) && Holds(C[..], 0, done)
    ensures Merging(B, A, j, i, done)
  {
    var k;
    i, k := i0, i0 + j;
    done := done0;
    while i < m
      invariant i0 <= i <= |A| && k == i + j && |done| == k
      invariant |C[..]| == |orig| && Kept(C[..], orig, 0, k) && Holds(C[..], 0, done)
      invariant Merging(B, A, j, i, done)
      decreases |A| - i
    {
      MergingRestOfB(B, A, j, i, done);
      ghost var s0 := C[..];
      C[k] := A[i];
      assert C[..] == s0[k := A[i]];
      WriteStep(s0, orig, 0, done, A[i]);
      done := done + [A[i]];
      k, i := k + 1, i + 1;
    }
  }

  /** The loop of the reference merge that copies the rest of `B` once `A`
      is used up. */
  method MergeCpuRestOfB(A: seq<int>, B: seq<int>, n: int, C: array<int>, ghost orig: seq<int>,
                         i: int, j0: int, ghost done0: seq<int>)
    returns (j: int, ghost done: seq<int>)
    requires n == |B|
    requires i == |A| && 0 <= j0 <= |B| && |done0| == i + j0
    requires |B| + |A| <= C.Length
    requires |C[..]| == |orig| && Kept(C[..], orig, 0, |done0|) && Holds(C[..], 0, done0)
    requires Merging(B, A, j0, i, done0)
    modifies C
    ensures j == |B| && |done| == i + j && Kept(C[..], orig, 0, |done|) && Holds(C[..], 0, done)
    ensures Merging(B, A, j, i, done)
  {
    var k;
    j, k := j0, i + j0;
    done := done0;
    while j < n
      invariant j0 <= j <= |B| && k == i + j && |done| == k
      invariant |C[..]| == |orig| && Kept(C[..], orig, 0, k) && Holds(C[..], 0, done)
      invariant Merging(B, A, j, i, done)
      decreases |B| - j
    {
      MergingRestOfA(B, A, j, i, done);
      ghost var s0 := C[..];
      C[k] := B[j];
      assert C[..] == s0[k := B[j]];
      WriteStep(s0, orig, 0, done, B[j]);
      done := done + [B[j]];
      k, j := k + 1, j + 1;
    }
  }

  /** On sorted inputs the reference merge's output is the merge of `A`
      and `B` (whichever goes first on equal keys), so it is sorted and a
      permutation of the two inputs. */
  lemma {:induction false} MergeCpuIsMerge(A: seq<int>, B: seq<int>)
    requires Sorted(A) && Sorted(B)
    ensures Merge(B, A) == Merge(A, B)
    ensures Sorted(Merge(B, A)) && multiset(Merge(B, A)) == multiset(A) + multiset(B)
  {
    MergeCommutes(B, A);
    MergeSorted(A, B);
    MergePermutation(A, B);
  }

  /** Whether the first `N` elements of `C` and `ans` agree; the loop
      returns at the first index where they differ. */
  method Validate(C: seq<int>, ans: seq<int>, N: nat) returns (ok: bool)
    requires N <= |C| && N <= |ans|
    ensures ok <==> C[..N] == ans[..N]
  {
    var i := 0;
    while i < N
      invariant 0 <= i <= N && C[..i] == ans[..i]
    {
      if C[i] != ans[i] {
        assert C[..N][i] != ans[..N][i];
        return false;
      }
      assert C[..i + 1] == C[..i] + [C[i]] && ans[..i + 1] == ans[..i] + [ans[i]];
      i := i + 1;
    }
    return true;
  }
}
