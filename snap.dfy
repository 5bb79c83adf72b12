/** The snap orchestrators: `reported_pt_to_raster_pt`, which picks the
    best cell and returns its location and accumulation value, and
    `snap_pt_and_info`, which wraps that into the result record. */
module Snap {
  import opened Numeric
  import opened Grids
  import opened Georef
  import opened Results
  import opened Fields
  import opened Selector

  /** The record `snap_pt_and_info` returns, one field per key. */
  datatype SnapResult = SnapResult(
    reportedX: real,
    reportedY: real,
    reportedArea: real,
    snapedX: real,
    snapedY: real,
    snapedArea: real,
    distanceOffset: real,
    areaOffset: real)

  /** The rating grid that `reported_pt_to_raster_pt` builds (line 96). */
  function RatingOf(sample: Vec2, upstreamArea: real, accArray: Grid, dataset: Dataset,
                    dweight: real, aweight: real, sqrt: real -> real): Grid
    requires IsSqrt(sqrt)
    requires ValidGeoTransform(dataset.geoTransform)
    requires HasShape(accArray, dataset.rasterYSize, dataset.rasterXSize)
    requires dweight != 0.0 && aweight != 0.0
  {
    GetRatingGrid(sample, dweight, aweight, upstreamArea, accArray, dataset.geoTransform, dataset, sqrt).value
  }

  /** The (x, y) location `reported_pt_to_raster_pt` gives cell `(row, col)`
      (lines 98 and 100): the entry converted from row/column order with the
      (y, x) origin, then swapped back to (x, y). */
  function CellLocation(gtf: GeoTransform, row: int, col: int): (xy: Vec2)
    requires ValidGeoTransform(gtf)
    requires 0 <= row && 0 <= col
    ensures SampleEntry(xy, gtf) == (row, col)
    ensures gtf.originX <= xy.0 && gtf.originY <= xy.1
  {
    GridNodeRoundTrip((row, col), (gtf.originY, gtf.originX), gtf.res);
    var loc := ArrayEntryToLocation((row, col), (gtf.originY, gtf.originX), gtf.res);
    (loc.1, loc.0)
  }

  /** `reported_pt_to_raster_pt`: the (x, y) location of the first
      minimum-rating cell, i.e. the origin plus the cell's column and row
      times the cell size, and the accumulation value stored in that cell.
      It fails with a division by zero when a weight is zero and otherwise
      with an empty argmin when the raster has no cells. */
  function ReportedPtToRasterPt(sample: Vec2, upstreamArea: real, accArray: Grid, dataset: Dataset,
                                dweight: real, aweight: real, sqrt: real -> real): (r: Result<(Vec2, real)>)
    requires IsSqrt(sqrt)
    requires ValidGeoTransform(dataset.geoTransform)
    requires HasShape(accArray, dataset.rasterYSize, dataset.rasterXSize)
    ensures r.Err? <==>
      dweight == 0.0 || aweight == 0.0 || dataset.rasterYSize == 0 || dataset.rasterXSize == 0
    ensures r.Err? ==>
      r.error == if dweight == 0.0 || aweight == 0.0 then ZeroDivision else EmptyArgMin
    ensures r.Ok? ==>
      var gtf := dataset.geoTransform;
      var rating := RatingOf(sample, upstreamArea, accArray, dataset, dweight, aweight, sqrt);
      exists row, col | IsFirstMin(rating, row, col) ::
        && 0 <= row < dataset.rasterYSize && 0 <= col < dataset.rasterXSize
        && r.value.0 == CellLocation(gtf, row, col)
        && r.value.1 == accArray[row][col]
  {
    var gtf := dataset.geoTransform;
    var rg :- GetRatingGrid(sample, dweight, aweight, upstreamArea, accArray, gtf, dataset, sqrt);
    ShapeIsRect(rg, dataset.rasterYSize, dataset.rasterXSize);
    var best :- GetMinEntry(rg);
    var area := accArray[best.0][best.1];
    assert rg == RatingOf(sample, upstreamArea, accArray, dataset, dweight, aweight, sqrt);
    Ok((CellLocation(gtf, best.0, best.1), area))
  }

  /** `snap_pt_and_info`: fails as `reported_pt_to_raster_pt` does, and
      otherwise returns the record of `SnapRecord` for the snapped point and
      cell value `reported_pt_to_raster_pt` picks, with the distance offset
      measured from the raster origin `(gtf[0], gtf[3])`. */
  function SnapPtAndInfo(sample: Vec2, upstreamArea: real, dataset: Dataset, accArray: Grid,
                         dweight: real, aweight: real, sqrt: real -> real): (r: Result<SnapResult>)
    requires IsSqrt(sqrt)
    requires ValidGeoTransform(dataset.geoTransform)
    requires HasShape(accArray, dataset.rasterYSize, dataset.rasterXSize)
    ensures r.Err? <==>
      dweight == 0.0 || aweight == 0.0 || dataset.rasterYSize == 0 || dataset.rasterXSize == 0
    ensures r.Err? ==>
      r.error == if dweight == 0.0 || aweight == 0.0 then ZeroDivision else EmptyArgMin
    ensures r.Ok? ==>
      var pt := ReportedPtToRasterPt(sample, upstreamArea, accArray, dataset, dweight, aweight, sqrt).value;
      r.value == SnapRecord(sample, upstreamArea, pt.0, pt.1, dataset.geoTransform.res, (dataset.geoTransform.originX, dataset.geoTransform.originY), sqrt)
  {
    var gtf := dataset.geoTransform;
    var pt :- ReportedPtToRasterPt(sample, upstreamArea, accArray, dataset, dweight, aweight, sqrt);
    Ok(SnapRecord(sample, upstreamArea, pt.0, pt.1, gtf.res, (gtf.originX, gtf.originY), sqrt))
  }

  /** Lines 115-126 of `snap_pt_and_info`: the record for a reported point
      and area and a snapped point holding `area` cells. The snapped area is
      the cell count scaled back to square units, the area offset is the
      absolute area difference, zero exactly when the two areas agree, and
      the distance offset is the length of the snapped point's offset from
      `from`, zero exactly when the two points coincide. */
  function SnapRecord(sample: Vec2, upstreamArea: real, snaped: Vec2, area: real, res: real,
                      from: Vec2, sqrt: real -> real): (r: SnapResult)
    requires IsSqrt(sqrt) && res != 0.0
    ensures r.reportedX == sample.0 && r.reportedY == sample.1 && r.reportedArea == upstreamArea
    ensures r.snapedX == snaped.0 && r.snapedY == snaped.1
    ensures r.snapedArea == PixelsToArea(area, res) && UpstreamToPixels(r.snapedArea, res) == area
    ensures r.areaOffset == Abs(r.reportedArea - r.snapedArea)
    ensures 0.0 <= r.areaOffset && (r.areaOffset == 0.0 <==> r.reportedArea == r.snapedArea)
    ensures r.distanceOffset == Norm(snaped.0 - from.0, snaped.1 - from.1, sqrt)
    ensures 0.0 <= r.distanceOffset
    ensures r.distanceOffset == 0.0 <==> snaped.0 == from.0 && snaped.1 == from.1
  {
    var distance := Norm(snaped.0 - from.0, snaped.1 - from.1, sqrt);
    var snapedArea := PixelsToArea(area, res);
    var sizeDif := Abs(upstreamArea - snapedArea);
    SnapResult(sample.0, sample.1, upstreamArea, snaped.0, snaped.1, snapedArea, distance, sizeDif)
  }

  /** Whenever snapping succeeds, the snapped point is the node of the
      first minimum-rating cell and the snapped area is that cell's
      accumulation value in square units. */
  lemma SnapsToFirstMinCell(sample: Vec2, upstreamArea: real, dataset: Dataset, accArray: Grid,
                            dweight: real, aweight: real, sqrt: real -> real)
    requires IsSqrt(sqrt)
    requires ValidGeoTransform(dataset.geoTransform)
    requires HasShape(accArray, dataset.rasterYSize, dataset.rasterXSize)
    ensures var r := SnapPtAndInfo(sample, upstreamArea, dataset, accArray, dweight, aweight, sqrt);
      r.Ok? ==>
        var rating := RatingOf(sample, upstreamArea, accArray, dataset, dweight, aweight, sqrt);
        exists row, col | IsFirstMin(rating, row, col) ::
          && 0 <= row < dataset.rasterYSize && 0 <= col < dataset.rasterXSize
          && (r.value.snapedX, r.value.snapedY) == CellLocation(dataset.geoTransform, row, col)
          && r.value.snapedArea == PixelsToArea(accArray[row][col], dataset.geoTransform.res)
  {
    var r := SnapPtAndInfo(sample, upstreamArea, dataset, accArray, dweight, aweight, sqrt);
    if r.Ok? {
      var pt := ReportedPtToRasterPt(sample, upstreamArea, accArray, dataset, dweight, aweight, sqrt);
      var rating := RatingOf(sample, upstreamArea, accArray, dataset, dweight, aweight, sqrt);
      var row, col :| IsFirstMin(rating, row, col)
        && 0 <= row < dataset.rasterYSize && 0 <= col < dataset.rasterXSize
        && pt.value.0 == CellLocation(dataset.geoTransform, row, col)
        && pt.value.1 == accArray[row][col];
      assert (r.value.snapedX, r.value.snapedY) == CellLocation(dataset.geoTransform, row, col);
    }
  }

  /** A positive whole number of cells spans a positive distance. */
  lemma CellsPositive(n: int, res: real)
    requires 0 < n && 0.0 < res
    ensures 0.0 < n as real * res
  {
    calc {
      n as real * res;
      >= 1.0 * res;
      > 0.0;
    }
  }

  /** The sample's own cell, when it holds the target area, is the unique
      zero of the rating grid and therefore the snapped cell. */
  lemma {:induction false} SnapsToZeroCostCell(sample: Vec2, upstreamArea: real, accArray: Grid, dataset: Dataset,
                                                dweight: real, aweight: real, sqrt: real -> real, row: int, col: int)
    requires IsSqrt(sqrt)
    requires ValidGeoTransform(dataset.geoTransform)
    requires HasShape(accArray, dataset.rasterYSize, dataset.rasterXSize)
    requires 0.0 < dweight && 0.0 < aweight
    requires 0 <= row < dataset.rasterYSize && 0 <= col < dataset.rasterXSize
    requires SampleEntry(sample, dataset.geoTransform) == (row, col)
    requires accArray[row][col] == UpstreamToPixels(upstreamArea, dataset.geoTransform.res)
    ensures IsFirstMin(RatingOf(sample, upstreamArea, accArray, dataset, dweight, aweight, sqrt), row, col)
  {
    var rating := RatingOf(sample, upstreamArea, accArray, dataset, dweight, aweight, sqrt);
    assert rating[row][col] == 0.0;
    forall i, j | 0 <= i < |rating| && 0 <= j < |rating[i]|
      ensures rating[row][col] <= rating[i][j]
      ensures i < row || (i == row && j < col) ==> rating[row][col] < rating[i][j]
    {
      assert 0.0 <= rating[i][j];
      assert (i, j) != (row, col) ==> rating[i][j] != 0.0;
    }
  }

  /** Snapping a point that lies exactly on the grid node of an in-bounds
      cell, with the reported area equal to that cell's area, returns the
      point itself with zero area offset. The distance offset is
      nevertheless measured from the raster origin, so it is zero only for
      the origin's own cell. */
  lemma ZeroCostAtGridNode(sample: Vec2, upstreamArea: real, dataset: Dataset, accArray: Grid,
                           dweight: real, aweight: real, sqrt: real -> real, row: int, col: int)
    requires IsSqrt(sqrt)
    requires ValidGeoTransform(dataset.geoTransform)
    requires HasShape(accArray, dataset.rasterYSize, dataset.rasterXSize)
    requires 0.0 < dweight && 0.0 < aweight
    requires 0 <= row < dataset.rasterYSize && 0 <= col < dataset.rasterXSize
    requires sample == CellLocation(dataset.geoTransform, row, col)
    requires upstreamArea == PixelsToArea(accArray[row][col], dataset.geoTransform.res)
    ensures var r := SnapPtAndInfo(sample, upstreamArea, dataset, accArray, dweight, aweight, sqrt);
      && r.Ok?
      && (r.value.snapedX, r.value.snapedY) == sample
      && r.value.snapedArea == upstreamArea
      && r.value.areaOffset == 0.0
      && (r.value.distanceOffset == 0.0 <==> row == 0 && col == 0)
  {
    var gtf := dataset.geoTransform;
    SnapsToZeroCostCell(sample, upstreamArea, accArray, dataset, dweight, aweight, sqrt, row, col);
    var rating := RatingOf(sample, upstreamArea, accArray, dataset, dweight, aweight, sqrt);
    var pt := ReportedPtToRasterPt(sample, upstreamArea, accArray, dataset, dweight, aweight, sqrt);
    var r', c' :| IsFirstMin(rating, r', c')
      && 0 <= r' < dataset.rasterYSize && 0 <= c' < dataset.rasterXSize
      && pt.value.0 == CellLocation(gtf, r', c')
      && pt.value.1 == accArray[r'][c'];
    FirstMinUnique(rating, r', c', row, col);
    assert pt.value == (sample, accArray[row][col]);
    NodeAtOrigin(gtf, row, col);
  }

  /** A grid node coincides with the raster origin only for cell (0, 0). */
  lemma NodeAtOrigin(gtf: GeoTransform, row: int, col: int)
    requires ValidGeoTransform(gtf)
    requires 0 <= row && 0 <= col
    ensures CellLocation(gtf, row, col) == (gtf.originX, gtf.originY) <==> row == 0 && col == 0
  {
    var xy := CellLocation(gtf, row, col);
    if row != 0 {
      CellsPositive(row, gtf.res);
      assert xy.1 == gtf.originY + row as real * gtf.res;
    }
    if col != 0 {
      CellsPositive(col, gtf.res);
      assert xy.0 == gtf.originX + col as real * gtf.res;
    }
  }

  /** Every snapped point lies at or beyond the origin on both axes: for a
      north-up raster, whose cells lie south of the origin, the snapped y is
      never inside the raster below its first row. */
  lemma SnappedNotBeforeOrigin(sample: Vec2, upstreamArea: real, dataset: Dataset, accArray: Grid,
                               dweight: real, aweight: real, sqrt: real -> real)
    requires IsSqrt(sqrt)
    requires ValidGeoTransform(dataset.geoTransform)
    requires HasShape(accArray, dataset.rasterYSize, dataset.rasterXSize)
    ensures var r := SnapPtAndInfo(sample, upstreamArea, dataset, accArray, dweight, aweight, sqrt);
      r.Ok? ==>
        dataset.geoTransform.originX <= r.value.snapedX && dataset.geoTransform.originY <= r.value.snapedY
  {
    var gtf := dataset.geoTransform;
    var r := SnapPtAndInfo(sample, upstreamArea, dataset, accArray, dweight, aweight, sqrt);
    if r.Ok? {
      var pt := ReportedPtToRasterPt(sample, upstreamArea, accArray, dataset, dweight, aweight, sqrt);
      var rating := RatingOf(sample, upstreamArea, accArray, dataset, dweight, aweight, sqrt);
      var row, col :| IsFirstMin(rating, row, col)
        && 0 <= row < dataset.rasterYSize && 0 <= col < dataset.rasterXSize
        && pt.value.0 == CellLocation(gtf, row, col)
        && pt.value.1 == accArray[row][col];
    }
  }
}
