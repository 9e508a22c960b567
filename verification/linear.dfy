/**
 One-dimensional interpolation (`calculateID` in perfsa.js): the query is
 bracketed on the axis and the value is read off the straight line through the
 two bracketing samples. Outside the sampled range the nearest end segment is
 extended; nothing is clamped.
 */
module Linear {
  import opened Axes
  import opened Bracket
  import opened RealArith

  /**
   `(x, y)` lies on the straight line through `(x0, y0)` and `(x1, y1)`
   (stated without division, as a vanishing cross product).
   */
  ghost predicate OnLine(x0: real, y0: real, x1: real, y1: real, x: real, y: real) {
    (x1 - x0) * (y - y0) == (y1 - y0) * (x - x0)
  }

  /** A non-vertical line passes through exactly one point above each `x`. */
  lemma OnLineUnique(x0: real, y0: real, x1: real, y1: real, x: real, y: real, y': real)
    requires x0 != x1
    requires OnLine(x0, y0, x1, y1, x, y) && OnLine(x0, y0, x1, y1, x, y')
    ensures y == y'
  {
    assert (x1 - x0) * (y - y') == 0.0;
  }

  /**
   The point-slope expression of the line through `(x0, y0)` and `(x1, y1)`,
   evaluated at `x`, lies on that line and passes through both points.
   */
  lemma SegmentValue(x0: real, y0: real, x1: real, y1: real, x: real)
    requires x0 != x1
    ensures var y := y0 + (x - x0) * (y1 - y0) / (x1 - x0);
      && OnLine(x0, y0, x1, y1, x, y)
      && (x == x0 ==> y == y0)
      && (x == x1 ==> y == y1)
  {
    var s := (x - x0) * (y1 - y0) / (x1 - x0);
    var y := y0 + s;
    QuotientTimesDivisor((x - x0) * (y1 - y0), x1 - x0);
    ProductQuotient(x - x0, y1 - y0, x1 - x0);
    assert y - y0 == s;
    assert (x1 - x0) * (y - y0) == (x1 - x0) * s;
  }

  /**
   The interpolated value of series `d` over axis `i` at `x` (perfsa.js
   `calculateID`). The caller supplies an axis of at least two samples, a
   series long enough for the bracket that `x` falls in, and a bracket of
   non-zero width; the value lies on the line through the bracketing samples
   and equals a sample's value at that sample's position.
   */
  function CalculateID(i: Axis, d: Series, x: real): (y: real)
    requires |i| >= 2
    requires IndexLarger(x, i) < |d|
    requires NonDegenerate(x, i)
    ensures var r := IndexLarger(x, i); OnLine(i[r - 1], d[r - 1], i[r], d[r], x, y)
    ensures var r := IndexLarger(x, i); x == i[r - 1] ==> y == d[r - 1]
    ensures var r := IndexLarger(x, i); x == i[r] ==> y == d[r]
  {
    var i1 := IndexLarger(x, i);
    var i0 := i1 - 1;
    var x0 := i[i0];
    var x1 := i[i1];
    var y0 := d[i0];
    var y1 := d[i1];
    SegmentValue(x0, y0, x1, y1, x);
    y0 + (x - x0) * (y1 - y0) / (x1 - x0)
  }

  /**
   On a strictly ascending axis with a series of the same length, the
   interpolation reproduces every sample exactly, the last one included.
   */
  lemma CalculateIDExactAtSamples(i: Axis, d: Series, k: nat)
    requires |i| >= 2 && |d| == |i|
    requires StrictlyAscending(i)
    requires k < |i|
    ensures CalculateID(i, d, i[k]) == d[k]
  {
    SampleBracket(i, k);
  }

  /**
   On a strictly ascending axis, a query between samples `k - 1` and `k` gets
   a value on the straight line through those two samples.
   */
  lemma CalculateIDOnSegment(i: Axis, d: Series, x: real, k: nat)
    requires |i| >= 2 && |d| == |i|
    requires StrictlyAscending(i)
    requires 1 <= k < |i|
    requires i[k - 1] <= x <= i[k]
    ensures OnLine(i[k - 1], d[k - 1], i[k], d[k], x, CalculateID(i, d, x))
  {
    if x < i[k] {
      SegmentBracket(x, i, k);
    } else {
      CalculateIDExactAtSamples(i, d, k);
    }
  }

  /** A query below the second sample extrapolates along the first segment. */
  lemma CalculateIDExtrapolatesBelow(i: Axis, d: Series, x: real)
    requires |i| >= 2 && |d| == |i|
    requires i[0] != i[1]
    requires x < i[1]
    ensures OnLine(i[0], d[0], i[1], d[1], x, CalculateID(i, d, x))
  {
    BelowSecondSample(x, i);
  }

  /** On an ascending axis, a query at or past the last sample extrapolates along the last segment. */
  lemma CalculateIDExtrapolatesAbove(i: Axis, d: Series, x: real)
    requires |i| >= 2 && |d| == |i|
    requires Ascending(i)
    requires i[|i| - 2] != i[|i| - 1]
    requires x >= i[|i| - 1]
    ensures var n := |i|; OnLine(i[n - 2], d[n - 2], i[n - 1], d[n - 1], x, CalculateID(i, d, x))
  {
    AtOrPastEndUsesLastSegment(x, i);
  }

  /**
   Samples taken from a straight line `m * t + c` are interpolated (and
   extrapolated) exactly: the result is the line's value at the query.
   */
  lemma CalculateIDLinearPrecision(i: Axis, d: Series, x: real, m: real, c: real)
    requires |i| >= 2 && |d| == |i|
    requires IndexLarger(x, i) < |d|
    requires NonDegenerate(x, i)
    requires forall k :: 0 <= k < |i| ==> d[k] == m * i[k] + c
    ensures CalculateID(i, d, x) == m * x + c
  {
    var r := IndexLarger(x, i);
    var x0, x1 := i[r - 1], i[r];
    var y := CalculateID(i, d, x);
    assert (x1 - x0) * (y - d[r - 1]) == (x1 - x0) * (m * (x - x0));
    OnLineUnique(x0, d[r - 1], x1, d[r], x, y, m * x + c);
  }

  /** The worked example: axis `[0, 1, 2, 3]`, series `[0, 10, 20, 30]`, query `1.5` gives `15`. */
  lemma CalculateIDExample()
    ensures CalculateID([0.0, 1.0, 2.0, 3.0], [0.0, 10.0, 20.0, 30.0], 1.5) == 15.0
  {
    var i := [0.0, 1.0, 2.0, 3.0];
    SegmentBracket(1.5, i, 2);
  }
}
