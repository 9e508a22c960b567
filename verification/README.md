# Interpolation engine of perfsa.js, modelled in Dafny

This project models the numeric core of `perfsa.js`: the routines that read a
value off tabulated data at an arbitrary query point. There are four of them.

- `indexLarger` brackets a query on an axis of sample positions.
- `calculateID` interpolates linearly along one axis, and extrapolates past its ends.
- `bilinearInterpolation` blends the four corner values of a rectangular cell.
- `calculateIID` looks a query up in a two-dimensional table and blends the cell it falls in.

Numbers are Dafny `real`s, so every statement below is exact. The modules follow the components:

- `RealArith` (`arith.dfy`): small facts about real division and ordering. The other proofs use them one step at a time.
- `Axes` (`axes.dfy`): the data. It defines axes, series and grids, plus the predicates the properties are stated under (ascending, strictly ascending, rectangular).
- `Bracket` (`bracket.dfy`): `IndexLarger`. It is given as a recursive scan and also as the loop of the source (`IndexLargerLoop`). Both are tied to an independent description of a bracket, `IsBracket`.
- `Linear` (`linear.dfy`): `CalculateID`. Its results are described through collinearity (`OnLine`), stated without division.
- `Bilinear` (`bilinear.dfy`): `BilinearInterpolation`. It has the same two-stage form as the source. It is related to the closed area-weighted form, to its transpose and to the 1-D blend on each edge.
- `GridLookup` (`grid.dfy`): `CalculateIID`. The grid is read as `d[row][col]`. The row comes from the bracket on `i2` and the column from the bracket on `i1`. The contracts pin this convention through the node values and through the row and column reductions to `CalculateID`.

Three decisions follow the code as written:

- A zero-width bracket is a precondition, not an error result. A domain error would be the cleaner design, but the code signals nothing (JS would yield `Infinity` or `NaN`).
- `IndexLarger` is total, as the JS function is: for an axis of at most one sample it returns `0`. The callers index `axis[-1]` in that case, so they require an axis of at least two samples.
- Queries outside the sampled range extrapolate along the end segment, as the code does.

The callers' preconditions state exactly which elements the code reads: the series entries at the bracket, and the four cells of the bracketing grid cell. Full rectangularity is not required. `GridLookupInBounds` shows that a rectangular grid always satisfies the cell precondition.

## Model

| member | source | states |
|---|---|---|
| Bracket.Scan | perfsa.js:21-24 | from position `i` on, the scan returns the first index whose sample exceeds `x`; every index it passes has a sample `<= x`; if it falls through it returns the loop variable minus one |
| Bracket.IndexLarger | perfsa.js:19-25 | the result meets the bracket description: `0` for axes shorter than two; otherwise in `[1, |a|-1]`, minimal, and exceeding `x` unless it is the last index; if any sample after the first exceeds `x`, the result's sample does |
| Bracket.IndexLargerLoop | perfsa.js:19-25 | the left-to-right loop, with the loop variable reused after the loop, computes a bracket, and it is the same index as `IndexLarger` |
| Bracket.BracketUnique | perfsa.js:21-24 | at most one index meets the bracket description |
| Bracket.IndexLargerCharacterized | perfsa.js:19-25 | an index meets the bracket description if and only if it is `IndexLarger`'s result |
| Bracket.BelowSecondSample | perfsa.js:21-22 | a query below `a[1]` gets bracket `1`, so the first segment is extrapolated |
| Bracket.NoLargerSampleUsesLastSegment | perfsa.js:21-24 | if no sample after the first exceeds `x`, the bracket is `|a| - 1` |
| Bracket.AtOrPastEndUsesLastSegment | perfsa.js:21-24 | on an ascending axis, a query at or past the last sample gets bracket `|a| - 1` |
| Bracket.InRangeIsBracketed | perfsa.js:19-25 | on an ascending axis, a query in `[a[0], a[last])` satisfies `a[r-1] <= x < a[r]` |
| Bracket.SegmentBracket | perfsa.js:19-25 | on an ascending axis, a query in `[a[k-1], a[k])` gets bracket `k` |
| Bracket.SampleBracket | perfsa.js:19-25 | on a strictly ascending axis, the query `a[k]` gets bracket `k + 1`, or `|a| - 1` at the last sample |
| Bracket.StrictlyAscendingNonDegenerate | perfsa.js:19-25 | on a strictly ascending axis, every bracket has distinct endpoints |
| Bracket.QueryWithinBracket | perfsa.js:19-25 | on a strictly ascending axis, a query in the closed sampled range lies in its closed bracket, which has positive width |
| Linear.CalculateID | perfsa.js:56-65 | the value lies on the straight line through the two bracketing samples; it equals a bracketing sample's value at that sample's position |
| Linear.CalculateIDExactAtSamples | perfsa.js:56-65 | on a strictly ascending axis with a series of equal length, the value at `i[k]` is `d[k]`, for every `k` including the last |
| Linear.CalculateIDOnSegment | perfsa.js:56-65 | on a strictly ascending axis, a query in `[i[k-1], i[k]]` gets a value on the line through samples `k-1` and `k` |
| Linear.CalculateIDExtrapolatesBelow | perfsa.js:56-65 | a query below `i[1]` gets a value on the line through the first two samples |
| Linear.CalculateIDExtrapolatesAbove | perfsa.js:56-65 | on an ascending axis, a query at or past the last sample gets a value on the line through the last two samples |
| Linear.CalculateIDLinearPrecision | perfsa.js:57-64 | samples of a line `m*t + c` are reproduced exactly, so the result is `m*x + c` at every query, extrapolated ones included |
| Linear.CalculateIDExample | perfsa.js:56-65 | axis `[0,1,2,3]` with series `[0,10,20,30]` gives `15` at `1.5` |
| Bilinear.BilinearInterpolation | perfsa.js:27-32 | on a cell of non-zero width and height, the value at each corner is that corner's value, and a constant field stays constant |
| Bilinear.BilinearAlongEdges | perfsa.js:27-32 | on each edge of the cell, the value lies on the line between that edge's two corner values |
| Bilinear.BilinearClosedForm | perfsa.js:27-32 | the two-stage blend equals the area-weighted closed form, with each corner weighted by the sub-rectangle opposite it |
| Bilinear.BilinearTranspose | perfsa.js:27-32 | blending along y first gives the same value as blending along x first |
| Bilinear.BilinearBounded | perfsa.js:27-32 | inside the cell, the value stays within any bounds of the four corner values |
| Bilinear.BilinearConstant | perfsa.js:27-32 | four equal corners `q` give `q` at every point |
| GridLookup.CalculateIID | perfsa.js:39-53 | at each corner of the bracketing cell, the value is `d[row][col]`, with `row` from the `i2` bracket and `col` from the `i1` bracket; a constant cell gives its constant |
| GridLookup.GridLookupInBounds | perfsa.js:40-51 | on a grid with `|i2|` rows of `|i1|` entries, every query reads only existing cells |
| GridLookup.CalculateIIDAtNode | perfsa.js:39-53 | on strictly ascending axes, the value at node `(i1[c], i2[r])` is `d[r][c]` |
| GridLookup.CalculateIIDAlongRow | perfsa.js:39-53 | on strictly ascending axes, along `y == i2[k]` the value is the 1-D interpolation of row `d[k]` over `i1` |
| GridLookup.CalculateIIDAlongColumn | perfsa.js:39-53 | on strictly ascending axes, along `x == i1[k]` the value is the 1-D interpolation of column `k` over `i2` |
| GridLookup.CalculateIIDBounded | perfsa.js:39-53 | on strictly ascending axes, a query inside the sampled rectangle stays within any bounds of the grid values |
| GridLookup.CalculateIIDConstantGrid | perfsa.js:39-53 | a grid holding one value gives that value at every query |
| GridLookup.CalculateIIDExample | perfsa.js:39-53 | axes `[0,1,2]` and `[0,10]` with grid `[[1,2,3],[4,5,6]]` give `5` at `(1, 10)` |

## Left out

- `loadNumbers` (perfsa.js:1-11): it injects a script element into the page and reports failure with `alert`. This is browser I/O with no logic to state.
- `test_input` (perfsa.js:14-17): it is a single call into the JavaScript regular-expression engine, whose semantics are not part of this model.
- IEEE-754 doubles: rounding is not modelled. Neither are `Infinity` and `NaN` from a zero denominator; a zero-width bracket is a precondition instead.
- Out-of-range reads: `calculateID` with a short axis or series, and `calculateIID` with an `i1` of fewer than two samples or a grid row too short, read `undefined` and yield `NaN`. `calculateIID` with an `i2` of fewer than two samples, or a grid with too few rows, indexes into `undefined` and throws a `TypeError`. All of these cases are preconditions in the model.
- Axis validation: the code performs none. Sortedness appears only as a hypothesis of the properties that need it.
