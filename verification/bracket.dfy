/**
 Index bracketing (`indexLarger` in perfsa.js): a left-to-right scan for the
 first index `i >= 1` whose sample exceeds the query. When no such sample
 exists the scan's loop variable, left at `|a|`, is reused as `|a| - 1`, so the
 last segment of the axis is used and queries past its end extrapolate. For an
 axis of at most one element the loop never runs and the answer is `0`.
 */
module Bracket {
  import opened Axes

  /**
   The independent description of a bracket index: for an axis of at least
   two samples, `r` is an upper bracket in `[1, |a| - 1]`, no sample strictly
   between index `0` and `r` exceeds `x`, and either `a[r]` exceeds `x` or `r`
   is the last index. For shorter axes the only answer is `0`.
   */
  ghost predicate IsBracket(x: real, a: Axis, r: int) {
    if |a| <= 1 then r == 0
    else
      && 1 <= r <= |a| - 1
      && (forall j :: 1 <= j < r ==> a[j] <= x)
      && (a[r] > x || r == |a| - 1)
  }

  /** The scan of `indexLarger`, continued from position `i`. */
  function Scan(x: real, a: Axis, i: nat): (r: nat)
    requires 1 <= i
    requires i == 1 || i <= |a|
    requires forall j :: 1 <= j < i && j < |a| ==> a[j] <= x
    ensures i >= |a| ==> r == i - 1
    ensures i < |a| ==> i <= r <= |a| - 1
    ensures forall j :: 1 <= j < r ==> a[j] <= x
    ensures r < |a| - 1 ==> a[r] > x
    ensures (exists j :: i <= j < |a| && a[j] > x) ==> a[r] > x
    decreases |a| - i
  {
    if i >= |a| then i - 1
    else if a[i] > x then i
    else Scan(x, a, i + 1)
  }

  /** The upper bracket index of `x` in `a` (perfsa.js `indexLarger`). */
  function IndexLarger(x: real, a: Axis): (r: nat)
    ensures IsBracket(x, a, r)
    ensures |a| >= 2 ==> 1 <= r <= |a| - 1
    ensures (exists j :: 1 <= j < |a| && a[j] > x) ==> a[r] > x
  {
    Scan(x, a, 1)
  }

  /** At most one index satisfies the bracket description. */
  lemma BracketUnique(x: real, a: Axis, r1: int, r2: int)
    requires IsBracket(x, a, r1) && IsBracket(x, a, r2)
    ensures r1 == r2
  {
  }

  /** `IndexLarger` computes exactly the indices the bracket description admits. */
  lemma IndexLargerCharacterized(x: real, a: Axis, r: int)
    ensures IsBracket(x, a, r) <==> r == IndexLarger(x, a)
  {
    if IsBracket(x, a, r) {
      BracketUnique(x, a, r, IndexLarger(x, a));
    }
  }

  /**
   The scan of perfsa.js written as the loop it is: `i` runs from `1`, the
   first sample above `x` ends the search, and the loop variable minus one is
   the answer when the loop falls through.
   */
  method IndexLargerLoop(x: real, a: Axis) returns (r: nat)
    ensures IsBracket(x, a, r)
    ensures r == IndexLarger(x, a)
  {
    var i: nat := 1;
    while i < |a|
      invariant 1 <= i
      invariant i == 1 || i <= |a|
      invariant forall j :: 1 <= j < i && j < |a| ==> a[j] <= x
    {
      if a[i] > x {
        IndexLargerCharacterized(x, a, i);
        return i;
      }
      i := i + 1;
    }
    r := i - 1;
    IndexLargerCharacterized(x, a, r);
  }

  /** A query below the second sample uses the first segment. */
  lemma BelowSecondSample(x: real, a: Axis)
    requires |a| >= 2
    requires x < a[1]
    ensures IndexLarger(x, a) == 1
  {
    IndexLargerCharacterized(x, a, 1);
  }

  /** When no sample after the first exceeds `x`, the last segment is used. */
  lemma NoLargerSampleUsesLastSegment(x: real, a: Axis)
    requires |a| >= 2
    requires forall j :: 1 <= j < |a| ==> a[j] <= x
    ensures IndexLarger(x, a) == |a| - 1
  {
    IndexLargerCharacterized(x, a, |a| - 1);
  }

  /** On an ascending axis, a query at or past the last sample uses the last segment. */
  lemma AtOrPastEndUsesLastSegment(x: real, a: Axis)
    requires |a| >= 2
    requires Ascending(a)
    requires x >= a[|a| - 1]
    ensures IndexLarger(x, a) == |a| - 1
  {
    NoLargerSampleUsesLastSegment(x, a);
  }

  /**
   On an ascending axis a query inside the sampled range is bracketed by the
   two samples it lies between: `a[r - 1] <= x < a[r]`.
   */
  lemma InRangeIsBracketed(x: real, a: Axis)
    requires |a| >= 2
    requires Ascending(a)
    requires a[0] <= x < a[|a| - 1]
    ensures var r := IndexLarger(x, a); a[r - 1] <= x < a[r]
  {
    var r := IndexLarger(x, a);
    assert a[|a| - 1] > x;
    if r >= 2 {
      assert a[r - 1] <= x;
    }
  }

  /** On an ascending axis, a query in `[a[k - 1], a[k])` has upper bracket `k`. */
  lemma SegmentBracket(x: real, a: Axis, k: nat)
    requires Ascending(a)
    requires 1 <= k < |a|
    requires a[k - 1] <= x < a[k]
    ensures IndexLarger(x, a) == k
  {
    assert forall j :: 1 <= j < k ==> a[j] <= x by {
      forall j | 1 <= j < k
        ensures a[j] <= x
      {
        assert a[j] <= a[k - 1];
      }
    }
    IndexLargerCharacterized(x, a, k);
  }

  /**
   On a strictly ascending axis a query equal to sample `k` takes the segment
   that starts at `k`, except at the last sample, which closes the last segment.
   */
  lemma SampleBracket(a: Axis, k: nat)
    requires |a| >= 2
    requires StrictlyAscending(a)
    requires k < |a|
    ensures IndexLarger(a[k], a) == if k < |a| - 1 then k + 1 else |a| - 1
  {
    if k < |a| - 1 {
      SegmentBracket(a[k], a, k + 1);
    } else {
      NoLargerSampleUsesLastSegment(a[k], a);
    }
  }

  /**
   The bracket chosen for `x` has two distinct endpoints, so the interpolation
   formulas built on it divide by a non-zero width.
   */
  ghost predicate NonDegenerate(x: real, a: Axis)
    requires |a| >= 2
  {
    var r := IndexLarger(x, a);
    a[r - 1] != a[r]
  }

  /** Every query is non-degenerate on a strictly ascending axis. */
  lemma StrictlyAscendingNonDegenerate(x: real, a: Axis)
    requires |a| >= 2
    requires StrictlyAscending(a)
    ensures NonDegenerate(x, a)
  {
  }

  /**
   On a strictly ascending axis, a query inside the sampled range lies within
   its closed bracket `[a[r - 1], a[r]]`.
   */
  lemma QueryWithinBracket(x: real, a: Axis)
    requires |a| >= 2
    requires StrictlyAscending(a)
    requires a[0] <= x <= a[|a| - 1]
    ensures var r := IndexLarger(x, a); a[r - 1] <= x <= a[r] && a[r - 1] < a[r]
  {
    if x < a[|a| - 1] {
      InRangeIsBracketed(x, a);
    } else {
      AtOrPastEndUsesLastSegment(x, a);
    }
  }
}
