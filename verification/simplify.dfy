/** The simplification stage (`src/simplify.rs`): the foreign
    Ramer-Douglas-Peucker routine chooses which indices to keep, and the
    wrapper filters the signal down to those indices, in order.  A
    tolerance of at most 0.01 keeps every index. */
module Simplify {
  import opened Geometry

  /** The indices kept by `ramer_douglas_peucker::rdp` for a signal and a
      tolerance; the list may be unsorted, repeat or overshoot. */
  type RdpLibrary = (seq<Point>, real) -> seq<nat>

  /** The tolerance up to which no simplification is done. */
  const MIN_EPSILON: real := 0.01

  /** `0..n` as a list of indices. */
  function AllIndices(n: nat): (r: seq<nat>)
    ensures |r| == n
    ensures forall i :: 0 <= i < n ==> r[i] == i
  {
    if n == 0 then [] else AllIndices(n - 1) + [n - 1]
  }

  /** The indices below `n` that occur in `keep`, ascending. */
  function KeptIndices(n: nat, keep: seq<nat>): (idx: seq<nat>)
    ensures |idx| <= n
    ensures forall k :: 0 <= k < |idx| ==> idx[k] < n && idx[k] in keep
    ensures forall k, l :: 0 <= k < l < |idx| ==> idx[k] < idx[l]
    ensures forall i :: 0 <= i < n && i in keep ==> i in idx
  {
    if n == 0 then []
    else
      var init := KeptIndices(n - 1, keep);
      if n - 1 in keep then init + [n - 1] else init
  }

  /** The filter of `rdp`: the elements whose index is in `keep`, in order. */
  function KeepByIndex<T>(score: seq<T>, keep: seq<nat>): (r: seq<T>)
    ensures var idx := KeptIndices(|score|, keep);
            |r| == |idx| && forall k :: 0 <= k < |r| ==> r[k] == score[idx[k]]
  {
    if |score| == 0 then []
    else
      var init := KeepByIndex(score[..|score| - 1], keep);
      if |score| - 1 in keep then init + [score[|score| - 1]] else init
  }

  /** The indices `rdp` keeps: all of them for a small tolerance. */
  function Keep(score: seq<Point>, epsilon: real, rdp: RdpLibrary): (keep: seq<nat>)
    ensures epsilon <= MIN_EPSILON ==> KeptIndices(|score|, keep) == AllIndices(|score|)
  {
    if epsilon > MIN_EPSILON then rdp(score, epsilon)
    else
      KeptAllIndices(|score|);
      AllIndices(|score|)
  }

  /** `rdp`: the signal filtered down to the kept indices.  Its result is
      the subsequence of `score` at the ascending indices that are in the
      keep list; a tolerance of at most 0.01 returns `score` itself. */
  function Rdp(score: seq<Point>, epsilon: real, rdp: RdpLibrary): (r: seq<Point>)
    ensures epsilon <= MIN_EPSILON ==> r == score
    ensures |r| <= |score|
    ensures var idx := KeptIndices(|score|, Keep(score, epsilon, rdp));
            |r| == |idx| && forall k :: 0 <= k < |r| ==> r[k] == score[idx[k]]
  {
    var keep := Keep(score, epsilon, rdp);
    var r := KeepByIndex(score, keep);
    if epsilon <= MIN_EPSILON then
      KeepAllIndices(score);
      r
    else r
  }

  /** Filtering by every index is the identity. */
  lemma {:induction false} KeepAllIndices<T>(score: seq<T>)
    ensures KeepByIndex(score, AllIndices(|score|)) == score
  {
    var idx := KeptIndices(|score|, AllIndices(|score|));
    KeptAllIndices(|score|);
  }

  /** With every index kept, the ascending kept indices are `0..n`. */
  lemma {:induction false} KeptAllIndices(n: nat)
    ensures KeptIndices(n, AllIndices(n)) == AllIndices(n)
  {
    var idx := KeptIndices(n, AllIndices(n));
    var all := AllIndices(n);
    forall i | 0 <= i < n ensures i in idx {
      assert all[i] == i;
    }
    AscendingCover(idx, n);
  }

  /** An ascending list of indices below `n` that holds each of them is `0..n`. */
  lemma {:induction false} AscendingCover(idx: seq<nat>, n: nat)
    requires |idx| <= n
    requires forall k :: 0 <= k < |idx| ==> idx[k] < n
    requires forall k, l :: 0 <= k < l < |idx| ==> idx[k] < idx[l]
    requires forall i :: 0 <= i < n ==> i in idx
    ensures idx == AllIndices(n)
  {
    if n > 0 {
      assert 0 in idx;
      var last := idx[|idx| - 1];
      assert forall k :: 0 <= k < |idx| ==> idx[k] <= last;
      assert n - 1 in idx;
      assert last == n - 1;
      var init := idx[..|idx| - 1];
      forall i | 0 <= i < n - 1 ensures i in init {
        assert i in idx;
        var k :| 0 <= k < |idx| && idx[k] == i;
        assert idx[k] < n - 1;
        assert k != |idx| - 1;
        assert init[k] == i;
      }
      AscendingCover(init, n - 1);
      assert idx == init + [last];
    }
  }

  /** When the keep list holds the first and last index, so does the
      output: the end points of the signal survive. */
  lemma RdpKeepsEndpoints(score: seq<Point>, epsilon: real, rdp: RdpLibrary)
    requires |score| > 0
    requires 0 in Keep(score, epsilon, rdp) && |score| - 1 in Keep(score, epsilon, rdp)
    ensures var r := Rdp(score, epsilon, rdp);
            |r| > 0 && r[0] == score[0] && r[|r| - 1] == score[|score| - 1]
  {
    var keep := Keep(score, epsilon, rdp);
    var idx := KeptIndices(|score|, keep);
    assert 0 in idx && |score| - 1 in idx;
    assert forall k :: 0 <= k < |idx| ==> idx[0] <= idx[k] <= idx[|idx| - 1];
    assert idx[0] == 0;
    assert idx[|idx| - 1] == |score| - 1;
  }
}
