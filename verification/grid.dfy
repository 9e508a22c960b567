/**
 Two-dimensional table lookup (`calculateIID` in perfsa.js). Each axis is
 bracketed on its own; the grid is indexed `d[row][col]` with the ROW taken
 from the bracket on `i2` (the query's `y`) and the COLUMN from the bracket on
 `i1` (the query's `x`). The four corners of that cell are then blended
 bilinearly.
 */
module GridLookup {
  import opened Axes
  import opened Bracket
  import opened Linear
  import opened Bilinear

  /**
   The cell whose upper corner is `(row, col)` can be read: rows `row - 1` and
   `row` exist and both reach column `col`.
   */
  ghost predicate CellInBounds(d: Grid, row: int, col: int) {
    && 1 <= row < |d|
    && 1 <= col
    && col < |d[row - 1]|
    && col < |d[row]|
  }

  /**
   The bilinear estimate of grid `d` over axes `i1` (columns) and `i2` (rows)
   at `(x, y)`. The caller supplies axes of at least two samples, a grid in
   which the bracketing cell exists, and brackets of non-zero width. At each
   corner of the bracketing cell the estimate is the grid value
   `d[row][col]` with `row` from `i2` and `col` from `i1`.
   */
  function CalculateIID(i1: Axis, i2: Axis, d: Grid, x: real, y: real): (z: real)
    requires |i1| >= 2 && |i2| >= 2
    requires CellInBounds(d, IndexLarger(y, i2), IndexLarger(x, i1))
    requires NonDegenerate(x, i1) && NonDegenerate(y, i2)
    ensures var c, r := IndexLarger(x, i1), IndexLarger(y, i2);
      && (x == i1[c - 1] && y == i2[r - 1] ==> z == d[r - 1][c - 1])
      && (x == i1[c] && y == i2[r - 1] ==> z == d[r - 1][c])
      && (x == i1[c - 1] && y == i2[r] ==> z == d[r][c - 1])
      && (x == i1[c] && y == i2[r] ==> z == d[r][c])
    ensures var c, r := IndexLarger(x, i1), IndexLarger(y, i2);
      d[r - 1][c - 1] == d[r - 1][c] == d[r][c - 1] == d[r][c] ==> z == d[r][c]
  {
    var i12 := IndexLarger(x, i1);
    var i11 := i12 - 1;
    var i22 := IndexLarger(y, i2);
    var i21 := i22 - 1;
    var x1 := i1[i11];
    var x2 := i1[i12];
    var y1 := i2[i21];
    var y2 := i2[i22];
    var q11 := d[i21][i11];
    var q12 := d[i22][i11];
    var q21 := d[i21][i12];
    var q22 := d[i22][i12];
    BilinearInterpolation(x1, x2, y1, y2, q11, q12, q21, q22, x, y)
  }

  /**
   On a grid with one row per `i2` sample and one column per `i1` sample, every
   query reads an existing cell: the lookup never leaves the table, whatever
   `x` and `y` are.
   */
  lemma GridLookupInBounds(i1: Axis, i2: Axis, d: Grid, x: real, y: real)
    requires |i1| >= 2 && |i2| >= 2
    requires Rectangular(d, |i2|, |i1|)
    ensures CellInBounds(d, IndexLarger(y, i2), IndexLarger(x, i1))
  {
  }

  /**
   On strictly ascending axes and a rectangular grid, the estimate at grid node
   `(i1[c], i2[r])` is exactly `d[r][c]`.
   */
  lemma CalculateIIDAtNode(i1: Axis, i2: Axis, d: Grid, r: nat, c: nat)
    requires |i1| >= 2 && |i2| >= 2
    requires StrictlyAscending(i1) && StrictlyAscending(i2)
    requires Rectangular(d, |i2|, |i1|)
    requires r < |i2| && c < |i1|
    ensures CalculateIID(i1, i2, d, i1[c], i2[r]) == d[r][c]
  {
    SampleBracket(i1, c);
    SampleBracket(i2, r);
  }

  /**
   On strictly ascending axes and a rectangular grid, along the line
   `y == i2[k]` the estimate is the one-dimensional interpolation of row `k`
   over `i1`.
   */
  lemma CalculateIIDAlongRow(i1: Axis, i2: Axis, d: Grid, x: real, k: nat)
    requires |i1| >= 2 && |i2| >= 2
    requires StrictlyAscending(i1) && StrictlyAscending(i2)
    requires Rectangular(d, |i2|, |i1|)
    requires k < |i2|
    ensures CalculateIID(i1, i2, d, x, i2[k]) == CalculateID(i1, d[k], x)
  {
    var c := IndexLarger(x, i1);
    var r := IndexLarger(i2[k], i2);
    SampleBracket(i2, k);
    var z := CalculateIID(i1, i2, d, x, i2[k]);
    var x1, x2, y1, y2 := i1[c - 1], i1[c], i2[r - 1], i2[r];
    BilinearAlongEdges(x1, x2, y1, y2, d[r - 1][c - 1], d[r][c - 1], d[r - 1][c], d[r][c], x, i2[k]);
    OnLineUnique(x1, d[k][c - 1], x2, d[k][c], x, z, CalculateID(i1, d[k], x));
  }

  /**
   On strictly ascending axes and a rectangular grid, along the line
   `x == i1[k]` the estimate is the one-dimensional interpolation of column `k`
   over `i2`.
   */
  lemma CalculateIIDAlongColumn(i1: Axis, i2: Axis, d: Grid, y: real, k: nat)
    requires |i1| >= 2 && |i2| >= 2
    requires StrictlyAscending(i1) && StrictlyAscending(i2)
    requires Rectangular(d, |i2|, |i1|)
    requires k < |i1|
    ensures CalculateIID(i1, i2, d, i1[k], y) == CalculateID(i2, Column(d, k), y)
  {
    var col := Column(d, k);
    var c := IndexLarger(i1[k], i1);
    var r := IndexLarger(y, i2);
    SampleBracket(i1, k);
    var z := CalculateIID(i1, i2, d, i1[k], y);
    var x1, x2, y1, y2 := i1[c - 1], i1[c], i2[r - 1], i2[r];
    BilinearAlongEdges(x1, x2, y1, y2, d[r - 1][c - 1], d[r][c - 1], d[r - 1][c], d[r][c], i1[k], y);
    OnLineUnique(y1, col[r - 1], y2, col[r], y, z, CalculateID(i2, col, y));
  }

  /**
   On strictly ascending axes, a query inside the sampled rectangle never
   leaves the range of the grid's values.
   */
  lemma CalculateIIDBounded(i1: Axis, i2: Axis, d: Grid, x: real, y: real, lo: real, hi: real)
    requires |i1| >= 2 && |i2| >= 2
    requires StrictlyAscending(i1) && StrictlyAscending(i2)
    requires Rectangular(d, |i2|, |i1|)
    requires i1[0] <= x <= i1[|i1| - 1] && i2[0] <= y <= i2[|i2| - 1]
    requires forall row, col :: 0 <= row < |d| && 0 <= col < |d[row]| ==> lo <= d[row][col] <= hi
    ensures lo <= CalculateIID(i1, i2, d, x, y) <= hi
  {
    var c := IndexLarger(x, i1);
    var r := IndexLarger(y, i2);
    QueryWithinBracket(x, i1);
    QueryWithinBracket(y, i2);
    BilinearBounded(i1[c - 1], i1[c], i2[r - 1], i2[r],
                    d[r - 1][c - 1], d[r][c - 1], d[r - 1][c], d[r][c], x, y, lo, hi);
  }

  /** A grid holding one value everywhere gives that value at every query, extrapolated ones included. */
  lemma CalculateIIDConstantGrid(i1: Axis, i2: Axis, d: Grid, x: real, y: real, q: real)
    requires |i1| >= 2 && |i2| >= 2
    requires StrictlyAscending(i1) && StrictlyAscending(i2)
    requires Rectangular(d, |i2|, |i1|)
    requires forall row, col :: 0 <= row < |d| && 0 <= col < |d[row]| ==> d[row][col] == q
    ensures CalculateIID(i1, i2, d, x, y) == q
  {
  }

  /**
   The worked example: axes `[0, 1, 2]` and `[0, 10]`, grid `[[1, 2, 3], [4, 5, 6]]`;
   at `(1, 10)` the estimate is `5`, the value in row 1 (from `10` on `i2`) and
   column 1 (from `1` on `i1`).
   */
  lemma CalculateIIDExample()
    ensures CalculateIID([0.0, 1.0, 2.0], [0.0, 10.0], [[1.0, 2.0, 3.0], [4.0, 5.0, 6.0]], 1.0, 10.0) == 5.0
  {
    CalculateIIDAtNode([0.0, 1.0, 2.0], [0.0, 10.0], [[1.0, 2.0, 3.0], [4.0, 5.0, 6.0]], 1, 1);
  }
}
