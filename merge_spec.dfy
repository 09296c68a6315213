/**
 * The specification every merge routine of the project is proved against:
 * the two-way merge of integer sequences, the co-rank boundary condition
 * (a "split"), and the facts that let a merge be cut into independent
 * pieces at splits.
 */
module MergeSpec {

  /** `s` is in non-decreasing order. The quantifier is stated over
      `InOrder` so that it is only instantiated where a proof names a pair. */
  predicate Sorted(s: seq<int>) {
    forall x, y :: 0 <= x < y < |s| ==> InOrder(s, x, y)
  }

  predicate InOrder(s: seq<int>, x: int, y: int)
    requires 0 <= x < y < |s|
  {
    s[x] <= s[y]
  }

  lemma {:induction false} SortedLe(s: seq<int>, x: int, y: int)
    requires Sorted(s) && 0 <= x <= y < |s|
    ensures s[x] <= s[y]
  {
    if x < y {
      assert InOrder(s, x, y);
    }
  }

  lemma {:induction false} SortedSlice(s: seq<int>, i: int, j: int)
    requires Sorted(s) && 0 <= i <= j <= |s|
    ensures Sorted(s[i..j]) && (j == |s| ==> Sorted(s[i..]))
  {
    forall x, y | 0 <= x < y < j - i
      ensures InOrder(s[i..j], x, y)
    {
      assert InOrder(s, i + x, i + y);
    }
    if j == |s| {
      assert s[i..j] == s[i..];
    }
  }

  /** The two-way merge: the next output is the head of `a` unless the head
      of `b` is strictly smaller, so on equal keys `a` goes first. */
  function Merge(a: seq<int>, b: seq<int>): (r: seq<int>)
    ensures |r| == |a| + |b|
    decreases |a| + |b|
  {
    if |a| == 0 then b
    else if |b| == 0 then a
    else if a[0] <= b[0] then [a[0]] + Merge(a[1..], b)
    else [b[0]] + Merge(a, b[1..])
  }

  lemma {:induction false} MergePermutation(a: seq<int>, b: seq<int>)
    ensures multiset(Merge(a, b)) == multiset(a) + multiset(b)
    decreases |a| + |b|
  {
    if |a| == 0 || |b| == 0 {
    } else if a[0] <= b[0] {
      MergePermutation(a[1..], b);
      ConsMultiset(a, Merge(a, b), Merge(a[1..], b));
    } else {
      MergePermutation(a, b[1..]);
      ConsMultiset(b, Merge(a, b), Merge(a, b[1..]));
    }
  }

  /** Taking the head `s[0]` of `s` into the output keeps the multiset
      balance: `m` is `s[0]` followed by `rest`. */
  lemma {:induction false} ConsMultiset(s: seq<int>, m: seq<int>, rest: seq<int>)
    requires |s| > 0 && m == [s[0]] + rest
    ensures multiset(m) == multiset{s[0]} + multiset(rest)
    ensures multiset(s) == multiset{s[0]} + multiset(s[1..])
  {
    assert s == [s[0]] + s[1..];
  }

  lemma {:induction false} MergeSorted(a: seq<int>, b: seq<int>)
    requires Sorted(a) && Sorted(b)
    ensures Sorted(Merge(a, b))
    decreases |a| + |b|
  {
    if |a| == 0 || |b| == 0 {
    } else if a[0] <= b[0] {
      SortedSlice(a, 1, |a|);
      MergeSorted(a[1..], b);
      if |a| > 1 {
        SortedLe(a, 0, 1);
      }
      MergeHead(a[1..], b);
      ConsSorted(a[0], Merge(a[1..], b));
    } else {
      SortedSlice(b, 1, |b|);
      MergeSorted(a, b[1..]);
      if |b| > 1 {
        SortedLe(b, 0, 1);
      }
      MergeHead(a, b[1..]);
      ConsSorted(b[0], Merge(a, b[1..]));
    }
  }

  /** The first output of a merge is the head of one of its inputs. */
  lemma {:induction false} MergeHead(a: seq<int>, b: seq<int>)
    ensures |a| + |b| > 0 ==>
      (|a| > 0 && Merge(a, b)[0] == a[0]) || (|b| > 0 && Merge(a, b)[0] == b[0])
  {
  }

  lemma {:induction false} ConsSorted(x: int, r: seq<int>)
    requires Sorted(r) && (|r| == 0 || x <= r[0])
    ensures Sorted([x] + r)
  {
    forall p, q | 0 <= p < q < |r| + 1
      ensures InOrder([x] + r, p, q)
    {
      SortedLe(r, 0, q - 1);
      if p > 0 {
        SortedLe(r, p - 1, q - 1);
      }
    }
  }

  /** The head of a sorted sequence is its least element. */
  lemma {:induction false} SortedHeadIsLeast(s: seq<int>, x: int)
    requires Sorted(s) && x in multiset(s)
    ensures s[0] <= x
  {
    var i :| 0 <= i < |s| && s[i] == x;
    SortedLe(s, 0, i);
  }

  lemma {:induction false} MultisetTail(s: seq<int>)
    requires |s| > 0
    ensures multiset(s[1..]) == multiset(s) - multiset{s[0]}
  {
    assert s == [s[0]] + s[1..];
  }

  /** A sorted sequence is determined by its multiset of elements. */
  lemma {:induction false} SortedUnique(s: seq<int>, t: seq<int>)
    requires Sorted(s) && Sorted(t) && multiset(s) == multiset(t)
    ensures s == t
    decreases |s|
  {
    if |s| == 0 {
      assert |t| == |multiset(t)| == 0;
    } else {
      HeadsAndTailsAgree(s, t);
      SortedUnique(s[1..], t[1..]);
      assert s == [s[0]] + s[1..] && t == [t[0]] + t[1..];
    }
  }

  lemma {:induction false} HeadsAndTailsAgree(s: seq<int>, t: seq<int>)
    requires Sorted(s) && Sorted(t) && multiset(s) == multiset(t) && |s| > 0
    ensures |t| == |s| && s[0] == t[0]
    ensures Sorted(s[1..]) && Sorted(t[1..]) && multiset(s[1..]) == multiset(t[1..])
  {
    assert |t| == |multiset(t)| == |s|;
    SortedHeadIsLeast(s, t[0]);
    SortedHeadIsLeast(t, s[0]);
    MultisetTail(s);
    MultisetTail(t);
    SortedSlice(s, 1, |s|);
    SortedSlice(t, 1, |t|);
  }

  /** On sorted inputs the order of the two inputs does not matter. A merge
      that lets the second input go first on equal keys computes
      `Merge(b, a)`, so it yields the same sequence as `Merge(a, b)`. */
  lemma {:induction false} MergeCommutes(a: seq<int>, b: seq<int>)
    requires Sorted(a) && Sorted(b)
    ensures Merge(a, b) == Merge(b, a)
  {
    MergeSorted(a, b);
    MergeSorted(b, a);
    MergePermutation(a, b);
    MergePermutation(b, a);
    SortedUnique(Merge(a, b), Merge(b, a));
  }

  /** The co-rank boundary condition, for the merge of the suffixes
      `a[lo..]` and `b[lo'..]`: its first `(s - lo) + (t - lo')` outputs are
      `a[lo..s]` and `b[lo'..t]`. */
  ghost predicate SplitFrom(a: seq<int>, b: seq<int>, lo: int, lo': int, s: int, t: int) {
    && 0 <= lo <= s <= |a| && 0 <= lo' <= t <= |b|
    && (s == lo || t == |b| || a[s - 1] <= b[t])
    && (t == lo' || s == |a| || b[t - 1] < a[s])
  }

  /** The co-rank boundary condition for whole inputs: the first `i + j`
      outputs of the merge of `a` and `b` are `a[..i]` and `b[..j]`. */
  ghost predicate IsSplit(a: seq<int>, b: seq<int>, i: int, j: int) {
    SplitFrom(a, b, 0, 0, i, j)
  }

  /** One unfolding of Merge when the first input supplies the next output. */
  lemma {:induction false} MergeTakesA(a: seq<int>, b: seq<int>)
    requires |a| > 0 && |b| > 0 && a[0] <= b[0]
    ensures Merge(a, b) == [a[0]] + Merge(a[1..], b)
  {
  }

  /** One unfolding of Merge when the second input supplies the next output. */
  lemma {:induction false} MergeTakesB(a: seq<int>, b: seq<int>)
    requires |a| > 0 && |b| > 0 && a[0] > b[0]
    ensures Merge(a, b) == [b[0]] + Merge(a, b[1..])
  {
  }

  lemma {:induction false} MergeEmptyRight(a: seq<int>)
    ensures Merge(a, []) == a
  {
  }

  lemma {:induction false} MergeEmptyLeft(b: seq<int>)
    ensures Merge([], b) == b
  {
  }

  lemma {:induction false} HeadSplitA(p: seq<int>, q: seq<int>, p': seq<int>, y: int)
    requires |p| > 0 && |q| > 0 && p' == p[1..] && q[0] == y && p[0] <= y
    ensures Merge(p, q) == [p[0]] + Merge(p', q)
  {
    MergeTakesA(p, q);
  }

  lemma {:induction false} HeadSplitB(p: seq<int>, q: seq<int>, q': seq<int>, x: int)
    requires |p| > 0 && |q| > 0 && q' == q[1..] && p[0] == x && x > q[0]
    ensures Merge(p, q) == [q[0]] + Merge(p, q')
  {
    MergeTakesB(p, q);
  }

  lemma {:induction false} HeadSplitEmptyA(p: seq<int>, q: seq<int>, p': seq<int>)
    requires |p| > 0 && q == [] && p' == p[1..]
    ensures Merge(p, q) == [p[0]] + Merge(p', q)
  {
    assert p == [p[0]] + p[1..];
  }

  lemma {:induction false} HeadSplitEmptyB(p: seq<int>, q: seq<int>, q': seq<int>)
    requires p == [] && |q| > 0 && q' == q[1..]
    ensures Merge(p, q) == [q[0]] + Merge(p, q')
  {
    assert q == [q[0]] + q[1..];
  }

  /** Concatenation regroups around a head element. Stated over plain
      sequences, so that its users need not unfold the merges they pass. */
  lemma {:induction false} ConsAssoc(x: int, u: seq<int>, v: seq<int>)
    ensures [x] + (u + v) == ([x] + u) + v
  {
  }

  /** Cutting the merge of two suffixes at a split: the prefix is the merge
      of the two pieces before the split and the rest is the merge of what
      follows it. */
  lemma {:induction false} DecomposeFrom(a: seq<int>, b: seq<int>, lo: int, lo': int, s: int, t: int)
    requires Sorted(a) && Sorted(b) && SplitFrom(a, b, lo, lo', s, t)
    ensures Merge(a[lo..], b[lo'..]) == Merge(a[lo..s], b[lo'..t]) + Merge(a[s..], b[t..])
    decreases (|a| - lo) + (|b| - lo')
  {
    if s == lo && t == lo' {
      DecomposeNothing(a, b, lo, lo');
    } else if lo == |a| {
      DecomposeRestOfB(a, b, lo', t);
    } else if lo' == |b| {
      DecomposeRestOfA(a, b, lo, s);
    } else if a[lo] <= b[lo'] {
      StepFromA(a, b, lo, lo', s, t);
      DecomposeFrom(a, b, lo + 1, lo', s, t);
      GlueFromA(a, b, lo, lo', s, t);
    } else {
      StepFromB(a, b, lo, lo', s, t);
      DecomposeFrom(a, b, lo, lo' + 1, s, t);
      GlueFromB(a, b, lo, lo', s, t);
    }
  }

  lemma {:induction false} DecomposeNothing(a: seq<int>, b: seq<int>, lo: int, lo': int)
    requires 0 <= lo <= |a| && 0 <= lo' <= |b|
    ensures Merge(a[lo..], b[lo'..]) == Merge(a[lo..lo], b[lo'..lo']) + Merge(a[lo..], b[lo'..])
  {
    assert a[lo..lo] == [] && b[lo'..lo'] == [];
    MergeEmptyLeft([]);
  }

  lemma {:induction false} DecomposeRestOfB(a: seq<int>, b: seq<int>, lo': int, t: int)
    requires 0 <= lo' <= t <= |b|
    ensures Merge(a[|a|..], b[lo'..]) == Merge(a[|a|..|a|], b[lo'..t]) + Merge(a[|a|..], b[t..])
  {
    assert a[|a|..] == [] && a[|a|..|a|] == [];
    assert b[lo'..t] + b[t..] == b[lo'..];
    MergeEmptyLeft(b[lo'..]);
    MergeEmptyLeft(b[lo'..t]);
    MergeEmptyLeft(b[t..]);
  }

  lemma {:induction false} DecomposeRestOfA(a: seq<int>, b: seq<int>, lo: int, s: int)
    requires 0 <= lo <= s <= |a|
    ensures Merge(a[lo..], b[|b|..]) == Merge(a[lo..s], b[|b|..|b|]) + Merge(a[s..], b[|b|..])
  {
    assert b[|b|..] == [] && b[|b|..|b|] == [];
    assert a[lo..s] + a[s..] == a[lo..];
    MergeEmptyRight(a[lo..]);
    MergeEmptyRight(a[lo..s]);
    MergeEmptyRight(a[s..]);
  }

  /** When the next head of `a` comes first, a non-empty split takes it, and
      what is left is a split of the rest. */
  lemma {:induction false} StepFromA(a: seq<int>, b: seq<int>, lo: int, lo': int, s: int, t: int)
    requires Sorted(a) && Sorted(b) && SplitFrom(a, b, lo, lo', s, t) && (s > lo || t > lo')
    requires lo < |a| && lo' < |b| && a[lo] <= b[lo']
    ensures s > lo && SplitFrom(a, b, lo + 1, lo', s, t)
  {
    if s == lo {
      SortedLe(b, lo', t - 1);
    }
  }

  lemma {:induction false} StepFromB(a: seq<int>, b: seq<int>, lo: int, lo': int, s: int, t: int)
    requires Sorted(a) && Sorted(b) && SplitFrom(a, b, lo, lo', s, t) && (s > lo || t > lo')
    requires lo < |a| && lo' < |b| && a[lo] > b[lo']
    ensures t > lo' && SplitFrom(a, b, lo, lo' + 1, s, t)
  {
    if t == lo' {
      SortedLe(a, lo, s - 1);
    }
  }

  lemma {:induction false} GlueFromA(a: seq<int>, b: seq<int>, lo: int, lo': int, s: int, t: int)
    requires 0 <= lo < s <= |a| && 0 <= lo' <= t <= |b| && lo' < |b| && a[lo] <= b[lo']
    requires Merge(a[lo + 1..], b[lo'..]) == Merge(a[lo + 1..s], b[lo'..t]) + Merge(a[s..], b[t..])
    ensures Merge(a[lo..], b[lo'..]) == Merge(a[lo..s], b[lo'..t]) + Merge(a[s..], b[t..])
  {
    assert a[lo..][1..] == a[lo + 1..] && a[lo..s][1..] == a[lo + 1..s];
    HeadSplitA(a[lo..], b[lo'..], a[lo + 1..], b[lo']);
    if t == lo' {
      HeadSplitEmptyA(a[lo..s], b[lo'..t], a[lo + 1..s]);
    } else {
      HeadSplitA(a[lo..s], b[lo'..t], a[lo + 1..s], b[lo']);
    }
    ConsAssoc(a[lo], Merge(a[lo + 1..s], b[lo'..t]), Merge(a[s..], b[t..]));
  }

  lemma {:induction false} GlueFromB(a: seq<int>, b: seq<int>, lo: int, lo': int, s: int, t: int)
    requires 0 <= lo <= s <= |a| && 0 <= lo' < t <= |b| && lo < |a| && a[lo] > b[lo']
    requires Merge(a[lo..], b[lo' + 1..]) == Merge(a[lo..s], b[lo' + 1..t]) + Merge(a[s..], b[t..])
    ensures Merge(a[lo..], b[lo'..]) == Merge(a[lo..s], b[lo'..t]) + Merge(a[s..], b[t..])
  {
    assert b[lo'..][1..] == b[lo' + 1..] && b[lo'..t][1..] == b[lo' + 1..t];
    HeadSplitB(a[lo..], b[lo'..], b[lo' + 1..], a[lo]);
    if s == lo {
      HeadSplitEmptyB(a[lo..s], b[lo'..t], b[lo' + 1..t]);
    } else {
      HeadSplitB(a[lo..s], b[lo'..t], b[lo' + 1..t], a[lo]);
    }
    ConsAssoc(b[lo'], Merge(a[lo..s], b[lo' + 1..t]), Merge(a[s..], b[t..]));
  }

  /** Cutting a merge at a split: the prefix is the merge of the two
      prefixes and the suffix is the merge of the two suffixes. */
  lemma {:induction false} SplitDecomposesMerge(a: seq<int>, b: seq<int>, i: int, j: int)
    requires Sorted(a) && Sorted(b) && IsSplit(a, b, i, j)
    ensures Merge(a, b) == Merge(a[..i], b[..j]) + Merge(a[i..], b[j..])
  {
    DecomposeFrom(a, b, 0, 0, i, j);
    assert a[0..] == a && b[0..] == b && a[0..i] == a[..i] && b[0..j] == b[..j];
  }

  /** The first `i + j` outputs of a merge cut at the split `(i, j)` are
      the merge of the two prefixes. */
  lemma {:induction false} MergePrefix(a: seq<int>, b: seq<int>, i: int, j: int)
    requires Sorted(a) && Sorted(b) && IsSplit(a, b, i, j)
    ensures 0 <= i <= |a| && 0 <= j <= |b|
    ensures Merge(a, b)[..i + j] == Merge(a[..i], b[..j])
  {
    SplitDecomposesMerge(a, b, i, j);
  }

  /** Splits grow with the rank, in both inputs. */
  lemma {:induction false} SplitMonotone(a: seq<int>, b: seq<int>, i1: int, j1: int, i2: int, j2: int)
    requires Sorted(a) && Sorted(b) && IsSplit(a, b, i1, j1) && IsSplit(a, b, i2, j2)
    requires i1 + j1 <= i2 + j2
    ensures i1 <= i2 && j1 <= j2
  {
    if i1 > i2 {
      SortedLe(a, i2, i1 - 1);
      SortedLe(b, j1, j2 - 1);
    } else if j1 > j2 {
      SortedLe(a, i1, i2 - 1);
      SortedLe(b, j2, j1 - 1);
    }
  }

  /** On sorted inputs there is exactly one split for each rank. */
  lemma {:induction false} SplitUnique(a: seq<int>, b: seq<int>, i1: int, j1: int, i2: int, j2: int)
    requires Sorted(a) && Sorted(b) && IsSplit(a, b, i1, j1) && IsSplit(a, b, i2, j2)
    requires i1 + j1 == i2 + j2
    ensures i1 == i2 && j1 == j2
  {
    SplitMonotone(a, b, i1, j1, i2, j2);
    SplitMonotone(a, b, i2, j2, i1, j1);
  }

  /** The outputs of ranks `[i1 + j1, i2 + j2)` are the merge of the input
      pieces between the two splits: each worker can merge its own piece. */
  lemma {:induction false} MergeSlice(a: seq<int>, b: seq<int>, i1: int, j1: int, i2: int, j2: int)
    requires Sorted(a) && Sorted(b) && IsSplit(a, b, i1, j1) && IsSplit(a, b, i2, j2)
    requires i1 + j1 <= i2 + j2
    ensures i1 <= i2 && j1 <= j2
    ensures Merge(a, b)[i1 + j1..i2 + j2] == Merge(a[i1..i2], b[j1..j2])
  {
    SplitMonotone(a, b, i1, j1, i2, j2);
    SplitDecomposesMerge(a, b, i1, j1);
    assert SplitFrom(a, b, i1, j1, i2, j2);
    DecomposeFrom(a, b, i1, j1, i2, j2);
    MiddleOf(Merge(a, b), Merge(a[..i1], b[..j1]), Merge(a[i1..], b[j1..]),
             Merge(a[i1..i2], b[j1..j2]), Merge(a[i2..], b[j2..]));
  }

  lemma {:induction false} MiddleOf(m: seq<int>, u: seq<int>, r: seq<int>, v: seq<int>, w: seq<int>)
    requires m == u + r && r == v + w
    ensures m[|u|..|u| + |v|] == v
  {
    assert m == u + (v + w);
    assert m[|u|..] == v + w;
  }

  /** A split of the length-capped windows `a[..p]`, `b[..q]` is a split of
      the full inputs as long as a window shorter than its input holds at
      least `i + j` elements. */
  lemma {:induction false} SplitOfWindows(a: seq<int>, b: seq<int>, p: int, q: int, i: int, j: int)
    requires 0 <= p <= |a| && 0 <= q <= |b|
    requires (p == |a| || i + j <= p) && (q == |b| || i + j <= q)
    requires IsSplit(a[..p], b[..q], i, j)
    ensures IsSplit(a, b, i, j)
  {
  }

  /** A split of the suffixes `a[i..]` and `b[j..]` after a split `(i, j)`
      of `a` and `b` is a split of `a` and `b`: consecutive tiles of a
      merge are cut at splits. */
  lemma {:induction false} SplitCompose(a: seq<int>, b: seq<int>, i: int, j: int, s: int, t: int)
    requires Sorted(a) && Sorted(b) && IsSplit(a, b, i, j) && IsSplit(a[i..], b[j..], s, t)
    ensures IsSplit(a, b, i + s, j + t)
  {
    if s == 0 && 0 < i && j + t < |b| {
      SortedLe(b, j, j + t);
    }
    if t == 0 && 0 < j && i + s < |a| {
      SortedLe(a, i, i + s);
    }
    if 0 < s && j + t < |b| {
      assert a[i..][s - 1] == a[i + s - 1] && b[j..][t] == b[j + t];
    }
    if 0 < t && i + s < |a| {
      assert b[j..][t - 1] == b[j + t - 1] && a[i..][s] == a[i + s];
    }
  }

  /** `done` is what merging `a` and `b` outputs before it has used `i`
      elements of `a` and `j` of `b`. */
  ghost predicate Merging(a: seq<int>, b: seq<int>, i: int, j: int, done: seq<int>)
  {
    0 <= i <= |a| && 0 <= j <= |b| && done + Merge(a[i..], b[j..]) == Merge(a, b)
  }

  /** While both inputs have elements left, the head of the rest of `a` is
      the next output when it is not greater than the head of the rest of
      `b`. */
  lemma {:induction false} MergingTakeA(a: seq<int>, b: seq<int>, i: int, j: int, done: seq<int>)
    requires Merging(a, b, i, j, done) && i < |a| && j < |b| && a[i] <= b[j]
    ensures Merging(a, b, i + 1, j, done + [a[i]])
  {
    var p, q := a[i..], b[j..];
    assert p[0] == a[i] && p[1..] == a[i + 1..] && q[0] == b[j];
    MergeTakesA(p, q);
    assert (done + [a[i]]) + Merge(a[i + 1..], q) == done + ([a[i]] + Merge(a[i + 1..], q));
  }

  /** ... and otherwise the head of the rest of `b` is. */
  lemma {:induction false} MergingTakeB(a: seq<int>, b: seq<int>, i: int, j: int, done: seq<int>)
    requires Merging(a, b, i, j, done) && i < |a| && j < |b| && a[i] > b[j]
    ensures Merging(a, b, i, j + 1, done + [b[j]])
  {
    var p, q := a[i..], b[j..];
    assert p[0] == a[i] && q[0] == b[j] && q[1..] == b[j + 1..];
    MergeTakesB(p, q);
    assert (done + [b[j]]) + Merge(p, b[j + 1..]) == done + ([b[j]] + Merge(p, b[j + 1..]));
  }

  /** Once `b` is used up, the rest of `a` follows in order. */
  lemma {:induction false} MergingRestOfA(a: seq<int>, b: seq<int>, i: int, j: int, done: seq<int>)
    requires Merging(a, b, i, j, done) && i < |a| && j == |b|
    ensures Merging(a, b, i + 1, j, done + [a[i]])
  {
    var p, q := a[i..], b[j..];
    assert q == [] && p == [a[i]] + a[i + 1..];
    MergeEmptyRight(p);
    MergeEmptyRight(a[i + 1..]);
    assert (done + [a[i]]) + a[i + 1..] == done + ([a[i]] + a[i + 1..]);
  }

  /** Once `a` is used up, the rest of `b` follows in order. */
  lemma {:induction false} MergingRestOfB(a: seq<int>, b: seq<int>, i: int, j: int, done: seq<int>)
    requires Merging(a, b, i, j, done) && i == |a| && j < |b|
    ensures Merging(a, b, i, j + 1, done + [b[j]])
  {
    var p, q := a[i..], b[j..];
    assert p == [] && q == [b[j]] + b[j + 1..];
    MergeEmptyLeft(q);
    MergeEmptyLeft(b[j + 1..]);
    assert (done + [b[j]]) + b[j + 1..] == done + ([b[j]] + b[j + 1..]);
  }

  /** Once both inputs are used up, the output so far is the whole merge. */
  lemma {:induction false} FinishMerge(a: seq<int>, b: seq<int>, i: int, j: int, done: seq<int>)
    requires i == |a| && j == |b| && Merging(a, b, i, j, done)
    ensures done == Merge(a, b)
  {
    assert a[i..] == [] && b[j..] == [];
    MergeEmptyLeft([]);
  }
}
