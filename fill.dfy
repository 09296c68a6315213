/**
 * Bookkeeping for loops that fill a slice of an array one element at a
 * time: the slice written so far and the rest of the array unchanged.
 */
module Fill {

  /** Only the slots `off .. off + k - 1` of `s` differ from `orig`. */
  ghost predicate Kept(s: seq<int>, orig: seq<int>, off: int, k: int)
  {
    forall x {:trigger orig[x]} :: 0 <= x < |s| && x < |orig| && !(off <= x < off + k) ==> s[x] == orig[x]
  }

  /** `s` holds `done` from position `off` on. */
  ghost predicate Holds(s: seq<int>, off: int, done: seq<int>)
  {
    0 <= off && off + |done| <= |s| && forall x {:trigger done[x]} :: 0 <= x < |done| ==> s[off + x] == done[x]
  }

  /** A slice that holds `done` inside an otherwise unchanged `orig`. */
  lemma {:induction false} Assembled(s: seq<int>, orig: seq<int>, off: int, done: seq<int>)
    requires |s| == |orig| && Kept(s, orig, off, |done|) && Holds(s, off, done)
    ensures s == orig[..off] + done + orig[off + |done|..]
  {
  }

  /** Writing the next element of the slice keeps both facts. */
  lemma {:induction false} WriteStep(s: seq<int>, orig: seq<int>, off: int, done: seq<int>, v: int)
    requires |s| == |orig| && Kept(s, orig, off, |done|) && Holds(s, off, done) && off + |done| < |s|
    ensures Kept(s[off + |done| := v], orig, off, |done| + 1) && Holds(s[off + |done| := v], off, done + [v])
  {
  }
}
