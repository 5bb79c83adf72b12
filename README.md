# flow-snap: snapping reported stream points onto a flow-accumulation raster

`flowsnap.py` places a reported sampling point that comes with an upstream
area onto the most plausible cell of a flow-accumulation raster. It builds
two grids of the raster's shape:

- the Euclidean distance, in cells, from the cell nearest the reported point;
- the absolute difference between each cell's accumulation value and the
  reported area converted to cells.

It adds the two grids cell by cell, each divided by its weight. It takes the
first minimum in row-major order, and reports that cell's location and
accumulation value. `snap_pt_and_info` wraps this into a record:

- the reported point and area;
- the snapped point and area;
- a distance offset and an area offset.

This project models that core as pure Dafny functions over
`seq<seq<real>>` grids and proves its properties:

- how a flat argmin position splits into row and column;
- the first-minimum tie-break;
- the grid-node round trip between geographic locations and array entries;
- the sign and zero set of the distance, area and rating fields;
- how the weights act as divisors;
- what the snapped point and the record fields are.

Modules:

- `Numeric`: absolute value, `np.rint` as ties-to-even rounding to an
  integer, square root as a parameter, and the Euclidean norm.
- `Grids`: grids, shapes and row-major flattening.
- `Georef`: the geotransform fields read (`gtf[0]`, `gtf[1]`, `gtf[3]`), the
  dataset sizes, and `array_entry_to_location` / `location_to_array_entry`.
- `Results`: the failures the model keeps (a division by zero for a zero
  weight, and `np.argmin` of an empty grid) as a `Result`. The code's third
  failure, a zero cell size dividing at `upstream_to_pixels`, is excluded by
  a precondition (see "## Left out").
- `Fields`: `get_distance_grid`, `upstream_to_pixels`, `get_area_matrix` and
  `get_rating_grid`.
- `Selector`: `get_min_entry`.
- `Snap`: `reported_pt_to_raster_pt` and `snap_pt_and_info` as written.
- `SnapCorrected`: the two orchestrators with the two defects under
  "## Findings" corrected.

The square root is a function parameter `sqrt` constrained by
`Numeric.IsSqrt`: non-negative, and its square is its argument. Every result
holds for any such function.

`flowsnap.py` cannot be imported as written: the dict of `snap_pt_and_info`
is written with `=` instead of `:` (lines 119-126), a syntax error that
stops the whole module from loading, so none of its functions can be called.
`snap_pt_and_info` would also fail at run time: it calls
`dataset.GeGeoTransform()` and uses the unimported name `numpy`. The model
gives every function its evident meaning, and `snap_pt_and_info` the same
steps returning a record with one field per key.

## Model

| member | source | states |
|---|---|---|
| Selector.GetMinEntry | flowsnap.py:7-11 | fails exactly when the grid has no cells; otherwise returns (row, column) of the first minimum in row-major order, and `row * columns + column` is the argmin of the flattening |
| Selector.ArgMin | flowsnap.py:9 | `np.argmin` of a non-empty sequence: an in-range position holding a value no larger than any other, and strictly smaller than every earlier one |
| Selector.FirstMinOfFlatten | flowsnap.py:9-11 | the first minimum of the flattening, split with `/` and `%`, is the grid's first row-major minimum |
| Selector.FirstMinUnique | flowsnap.py:9 | a grid has at most one first minimum, so the selected cell is determined |
| Grids.FlattenAt | flowsnap.py:9 | cell (r, c) of a grid with `columns` columns sits at flat position `r * columns + c` |
| Grids.RowMajorBefore | flowsnap.py:11 | a cell precedes another in row-major order exactly when its flat position is smaller |
| Grids.SplitFlatIndex | flowsnap.py:11 | a flat position below `rows * columns` splits by `/` and `%` into an in-range row and column that recompose it |
| Georef.ArrayEntryToLocation | flowsnap.py:13-21 | entry (0, 0) maps to the origin; with a positive cell size, a non-negative entry maps at or beyond the origin on both axes |
| Georef.LocationToArrayEntry | flowsnap.py:34-42 | each component is non-negative and is the nearest whole number of cells spanning the absolute distance from the origin, the even one when the distance is exactly halfway between two counts |
| Georef.CellCountUnique | flowsnap.py:42 | any cell count within half a cell of the distance, and even on a tie, is the one `location_to_array_entry` returns |
| Georef.HalfwayRoundsToEven | flowsnap.py:42 | a location 2.5 cells from the origin on both axes (origin (500, 0), cell size 100, location (250, 250)) gives entry (2, 2) |
| Georef.GridNodeRoundTrip | flowsnap.py:13-42 | converting a non-negative entry to its location and back gives the entry |
| Georef.RoundTripWithinHalfCell | flowsnap.py:13-42 | a location at or beyond the origin on both axes comes back from entry and location within half a cell on each axis |
| Georef.RoundTripMirrorsBeforeOrigin | flowsnap.py:34-42 | a location before the origin on an axis comes back beyond it, within half a cell of its mirror image `2 * origin - location` |
| Georef.NorthUpRoundTripExample | flowsnap.py:98 | origin y = 500, 100-unit cells, y = 200 (three cells south) gives row 3, which converts back to y = 800 |
| Numeric.Rint | flowsnap.py:42 | the integer nearest `x` (within 0.5), and even when `x` is halfway between two integers |
| Numeric.RintUnique | flowsnap.py:42 | every integer within 0.5 of `x`, even on a tie, is `Rint(x)` |
| Numeric.Abs | flowsnap.py:42 | `abs(x)` is non-negative and equals `x` or `-x` |
| Numeric.SqrtZeroIff | flowsnap.py:32 | the square root of a non-negative number is zero exactly when the number is |
| Numeric.SqrtMonotone | flowsnap.py:32 | the square root is monotone on non-negative numbers |
| Numeric.SqrtOfSquare | flowsnap.py:32 | the square root of `a²` is `abs(a)` |
| Numeric.Norm | flowsnap.py:116 | the Euclidean norm of `(dx, dy)` is non-negative, zero for the zero vector and positive otherwise |
| Numeric.NormSquared | flowsnap.py:32 | the norm squares to `dx² + dy²` |
| Numeric.NormAtLeastComponents | flowsnap.py:32 | the norm is at least the absolute value of each component |
| Numeric.NormOnAxis | flowsnap.py:32 | the norm of a vector along one axis is the absolute value of its component |
| Fields.DistanceGrid | flowsnap.py:23-32 | shape (rows, columns); each cell is the norm of its offset `(i - e0, j - e1)` from the entry, is non-negative, squares to `(i - e0)² + (j - e1)²`, and is zero exactly at the entry |
| Fields.DistanceGridAxes | flowsnap.py:23-32 | a cell's distance is at least its row offset and its column offset; on the entry's row it is the column offset, on its column the row offset |
| Fields.UpstreamToPixels | flowsnap.py:44-46 | the cell count times `cellsize²` is the area |
| Fields.PixelsToArea | flowsnap.py:117 | `area * cellsize²` is the inverse of `upstream_to_pixels` |
| Fields.AreaDiscrepancy | flowsnap.py:56-57 | a cell's discrepancy is non-negative, zero exactly when the cell holds the target cell count, and, times `res²`, the absolute area difference |
| Fields.AreaMatrix | flowsnap.py:48-57 | same shape as the accumulation array; each cell is that cell's area discrepancy |
| Fields.Rating | flowsnap.py:80 | multiplying by `1/dweight` and `1/aweight` is dividing by the weights: `dist / dweight + area / aweight` |
| Fields.RatingGrid | flowsnap.py:80 | same shape as the distance grid; each cell is the rating of the two fields' cells at that position |
| Fields.RatingZeroIff | flowsnap.py:80 | with positive weights and non-negative fields, a rating is non-negative and zero exactly when both fields are zero |
| Fields.DistanceWeightMonotone | flowsnap.py:80 | raising `dweight` never raises a rating, and strictly lowers it where the distance is positive |
| Fields.AreaWeightMonotone | flowsnap.py:80 | raising `aweight` never raises a rating, and strictly lowers it where the area discrepancy is positive |
| Fields.SampleEntry | flowsnap.py:75-77 | the sample, swapped to (y, x), becomes a non-negative entry of the nearest cell counts from the origin, ties going to the even count |
| Fields.GetRatingGrid | flowsnap.py:59-81 | fails with a division by zero exactly when a weight is zero; otherwise has the raster's shape, and cell (i, j) is the rating of its distance from the sample's entry and its area discrepancy; with positive weights every rating is non-negative and zero exactly at the sample's cell when it holds the target area |
| Fields.RatingGridDistanceWeightMonotone | flowsnap.py:59-81 | raising `dweight` never raises any cell of the rating grid, and strictly lowers every cell other than the sample's entry |
| Fields.RatingGridAreaWeightMonotone | flowsnap.py:59-81 | raising `aweight` never raises any cell of the rating grid, and strictly lowers every cell whose value differs from the target cell count |
| Snap.CellLocation | flowsnap.py:98-100 | the location given to a non-negative cell lies at or beyond the origin, and converts back to that cell |
| Snap.ReportedPtToRasterPt | flowsnap.py:83-100 | fails exactly on a zero weight (division by zero) or an empty raster (empty argmin); otherwise returns the location of the in-bounds first minimum-rating cell and that cell's accumulation value |
| Snap.SnapPtAndInfo | flowsnap.py:102-126 | fails exactly as `reported_pt_to_raster_pt` does; otherwise returns the record for its snapped point and cell value, with the distance measured from the raster origin |
| Snap.SnapRecord | flowsnap.py:115-126 | echoes the reported point and area and the snapped point; the snapped area is the cell value times `res²`; the area offset is the absolute difference of the reported and snapped areas, zero exactly when they agree; both offsets are non-negative; the distance offset is the norm of the offset from the reference point and is zero exactly when the points coincide |
| Snap.SnapsToFirstMinCell | flowsnap.py:96-117 | a successful snap reports the node of the first minimum-rating cell, and that cell's value in square units |
| Snap.SnapsToZeroCostCell | flowsnap.py:96-97 | with positive weights, the sample's own cell, when it holds the target area, is the selected first minimum |
| Snap.ZeroCostAtGridNode | flowsnap.py:113-118 | a point on an in-bounds node, with that cell's area, snaps to itself with zero area offset, but its distance offset is zero only for cell (0, 0) |
| Snap.NodeAtOrigin | flowsnap.py:115-116 | a cell's node coincides with the raster origin only for cell (0, 0) |
| Snap.SnappedNotBeforeOrigin | flowsnap.py:98-100 | every snapped point lies at or beyond the origin on both axes, so it lies north of a north-up raster's origin row |
| SnapCorrected.NorthUpCellLocation | flowsnap.py:98 | the north-up location of a cell lies east of and south of the origin |
| SnapCorrected.NorthUpNodeRoundTrip | flowsnap.py:75-77 | the sample conversion of a north-up node gives its cell back |
| SnapCorrected.NorthUpRoundTrip | flowsnap.py:34-42 | every location east and south of the origin comes back within half a cell on each axis |
| SnapCorrected.ReportedPtToRasterPtCorrected | flowsnap.py:83-100 | the same failures as the original; otherwise returns the north-up location of the in-bounds first minimum-rating cell and its value |
| SnapCorrected.SnapPtAndInfoCorrected | flowsnap.py:102-126 | the same failures; otherwise returns the record for the north-up snapped point, with the distance measured from the reported point |
| SnapCorrected.ZeroOffsetAtGridNode | flowsnap.py:113-118 | a point on an in-bounds north-up node, with that cell's area, snaps to itself with both offsets zero |
| SnapCorrected.SnappedInsideRaster | flowsnap.py:98-100 | the snapped point lies on the raster's span of nodes: at most `XSize - 1` cells east and `YSize - 1` cells south of the origin |

## Left out

- `snapper.py`, the batch driver, is not part of this model. It reads the
  raster and the CSV of points, loops over the points and writes the results.
  The same goes for GDAL dataset opening and raster band reading.
- Floating point is not modelled: all arithmetic is on exact reals and
  integers. This includes `np.rint` on values that are not exactly
  representable, and the rounding in `**(0.5)` and `numpy.linalg.norm`.
- Square root: left abstract as the parameter `sqrt`, constrained by
  `Numeric.IsSqrt`.
- Weights are modelled as reals. Under Python 2, an integer weight other than
  ±1 makes `1/dweight` a floored integer, for example `1/2 == 0`. The model
  does not reproduce that integer-division path.
- `get_min_entry` is modelled for Python 2 integer division. There `/` on the
  non-negative flat index floors, as Dafny's `/` does. Python 3 would return
  a float row.
- Cell size: `Georef.ValidGeoTransform` requires `gtf[1] > 0`. A zero cell
  size makes `upstream_to_pixels` (flowsnap.py:46) divide by zero and raise
  `ZeroDivisionError`; the model excludes it instead of carrying that error.
  A negative cell size runs in the code and is also excluded. The rotation
  terms and `gtf[5]` are never read by the code and are not modelled.
- The accumulation array's shape is required to be
  (`RasterYSize`, `RasterXSize`): numpy broadcasting errors on mismatched
  shapes are not modelled.
- The code has no error for negative weights or out-of-bounds sample
  entries. A distance grid simply has no zero when the sample lies outside
  the raster. The model adds neither check.
- Default weights: `reported_pt_to_raster_pt` and `snap_pt_and_info` default
  `dweight` and `aweight` to 1 (flowsnap.py:83, 102). Dafny has no default
  arguments, so the model takes both weights as mandatory parameters;
  calling with `1.0, 1.0` is the default.
- Windowing the raster around each point is done by callers and is not
  modelled.
- Snap.SnapPtAndInfo: states the distance offset as the code computes it,
  from the raster origin, which is not the reported point.
  `SnapCorrected.SnapPtAndInfoCorrected` measures it from the reported point.

## Findings

| source | as written | input that shows it | evidently intended | confidence | as-written member | corrected member |
|---|---|---|---|---|---|---|
| flowsnap.py:115-116 | `distance_offset` is the norm of `snaped - origin`, with origin `(gtf[0], gtf[3])`: the snapped point's distance from the raster origin | a reported point exactly on the node of cell (2, 3), holding exactly that cell's area: it snaps to itself, yet `distance_offset` is the node's distance from the origin, not 0 | the distance between the reported point and the snapped point | not executed | Snap.ZeroCostAtGridNode | SnapCorrected.ZeroOffsetAtGridNode |
| flowsnap.py:98 | the best cell's location is `origin + entry * res` on both axes, so y grows with the row. `location_to_array_entry` (line 42) measures rows with `abs`, so a point south of the origin of a north-up raster gets a positive row | origin y = 500, cell size 100, reported y = 200: the row is 3, and row 3 is reported back at y = 800 | y = `gtf[3] - row * res` for a north-up raster, the inverse of line 42 for points inside the raster | not executed | Georef.NorthUpRoundTripExample | SnapCorrected.NorthUpRoundTrip |
