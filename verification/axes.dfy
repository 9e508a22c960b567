/**
 The data the interpolation engine works on: axes of sample positions, the
 series of dependent values along one axis, and the two-dimensional grid of
 dependent values over a pair of axes. None of these is validated by the
 engine; the predicates below are the caller-side conventions that the
 properties of the engine are stated under.
 */
module Axes {

  /** Sampled positions of an independent variable. */
  type Axis = seq<real>

  /** Dependent values, one per position of an axis. */
  type Series = seq<real>

  /** Dependent values over two axes: `d[row][col]` belongs to `(i2[row], i1[col])`. */
  type Grid = seq<seq<real>>

  /** Positions never decrease from left to right. */
  ghost predicate Ascending(a: Axis) {
    forall j, k :: 0 <= j < k < |a| ==> a[j] <= a[k]
  }

  /** Positions strictly increase from left to right (no repeated sample). */
  ghost predicate StrictlyAscending(a: Axis) {
    forall j, k :: 0 <= j < k < |a| ==> a[j] < a[k]
  }

  /** Every row of `d` exists and has exactly `cols` entries; there are `rows` rows. */
  ghost predicate Rectangular(d: Grid, rows: nat, cols: nat) {
    |d| == rows && forall row :: 0 <= row < |d| ==> |d[row]| == cols
  }

  /** The `col`-th entry of every row, as a series along the row axis. */
  function Column(d: Grid, col: nat): (s: Series)
    requires forall row :: 0 <= row < |d| ==> col < |d[row]|
    ensures |s| == |d|
    ensures forall row :: 0 <= row < |d| ==> s[row] == d[row][col]
  {
    seq(|d|, row requires 0 <= row < |d| => d[row][col])
  }
}
