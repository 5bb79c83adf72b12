/** The snap orchestrators as they are evidently meant to work on a north-up
    raster, whose rows run south from the origin: the cell's location falls
    in y as the row grows (the inverse of `location_to_array_entry`), and the
    distance offset is measured from the reported point rather than from
    the raster origin. The rating grid and the selector are the source's. */
module SnapCorrected {
  import opened Numeric
  import opened Grids
  import opened Georef
  import opened Results
  import opened Fields
  import opened Selector
  import opened Snap

  /** The (x, y) location of cell `(row, col)` of a north-up raster: x grows
      with the column and y falls with the row, so the node lies east of
      and south of the origin. */
  function NorthUpCellLocation(gtf: GeoTransform, row: int, col: int): (xy: Vec2)
    requires ValidGeoTransform(gtf)
    requires 0 <= row && 0 <= col
    ensures gtf.originX <= xy.0 && xy.1 <= gtf.originY
  {
    (gtf.originX + col as real * gtf.res, gtf.originY - row as real * gtf.res)
  }

  /** Converting a north-up node back with the sample conversion of
      `get_rating_grid` gives its cell. */
  lemma NorthUpNodeRoundTrip(gtf: GeoTransform, row: int, col: int)
    requires ValidGeoTransform(gtf)
    requires 0 <= row && 0 <= col
    ensures SampleEntry(NorthUpCellLocation(gtf, row, col), gtf) == (row, col)
  {
    var xy := NorthUpCellLocation(gtf, row, col);
    calc {
      Abs(xy.1 - gtf.originY) / gtf.res;
      == (row as real * gtf.res) / gtf.res;
      == row as real;
    }
    calc {
      Abs(xy.0 - gtf.originX) / gtf.res;
      == (col as real * gtf.res) / gtf.res;
      == col as real;
    }
    RintUnique(row as real, row);
    RintUnique(col as real, col);
  }

  /** Every location east of and south of the origin (inside the quadrant
      a north-up raster covers) comes back from the sample conversion and
      the north-up location within half a cell on each axis. */
  lemma NorthUpRoundTrip(location: Vec2, gtf: GeoTransform)
    requires ValidGeoTransform(gtf)
    requires gtf.originX <= location.0 && location.1 <= gtf.originY
    ensures var e := SampleEntry(location, gtf);
      var back := NorthUpCellLocation(gtf, e.0, e.1);
      Abs(back.0 - location.0) <= gtf.res / 2.0 && Abs(back.1 - location.1) <= gtf.res / 2.0
  {
    var e := SampleEntry(location, gtf);
    NearestNodeWithinHalfCell(location, gtf, e.0, e.1);
  }

  /** The north-up node of an entry whose components are the nearest cell
      counts of the location's distances from the origin is within half a
      cell of the location on each axis. */
  lemma NearestNodeWithinHalfCell(location: Vec2, gtf: GeoTransform, row: int, col: int)
    requires ValidGeoTransform(gtf)
    requires gtf.originX <= location.0 && location.1 <= gtf.originY
    requires 0 <= row && 0 <= col
    requires NearestCellCount(row, Abs(location.1 - gtf.originY), gtf.res)
    requires NearestCellCount(col, Abs(location.0 - gtf.originX), gtf.res)
    ensures var back := NorthUpCellLocation(gtf, row, col);
      Abs(back.0 - location.0) <= gtf.res / 2.0 && Abs(back.1 - location.1) <= gtf.res / 2.0
  {
    var back := NorthUpCellLocation(gtf, row, col);
    NodeWithinHalfCell(col, gtf.originX, location.0, back.0, gtf.res);
    SouthWithinHalfCell(row, gtf.originY, location.1, back.1, gtf.res);
  }

  /** The node `n` cells south of `origin`, `n` being the nearest cell
      count of the distance to a point `p` south of the origin, is within
      half a cell of `p`. */
  lemma SouthWithinHalfCell(n: int, origin: real, p: real, node: real, res: real)
    requires p <= origin && 0.0 < res
    requires NearestCellCount(n, Abs(p - origin), res)
    requires node == origin - n as real * res
    ensures Abs(node - p) <= res / 2.0
  {
  }

  /** `reported_pt_to_raster_pt` with the north-up cell location. */
  function ReportedPtToRasterPtCorrected(sample: Vec2, upstreamArea: real, accArray: Grid, dataset: Dataset,
                                         dweight: real, aweight: real, sqrt: real -> real): (r: Result<(Vec2, real)>)
    requires IsSqrt(sqrt)
    requires ValidGeoTransform(dataset.geoTransform)
    requires HasShape(accArray, dataset.rasterYSize, dataset.rasterXSize)
    ensures r.Err? <==>
      dweight == 0.0 || aweight == 0.0 || dataset.rasterYSize == 0 || dataset.rasterXSize == 0
    ensures r.Err? ==>
      r.error == if dweight == 0.0 || aweight == 0.0 then ZeroDivision else EmptyArgMin
    ensures r.Ok? ==>
      var gtf := dataset.geoTransform;
      var rating := RatingOf(sample, upstreamArea, accArray, dataset, dweight, aweight, sqrt);
      exists row, col | IsFirstMin(rating, row, col) ::
        && 0 <= row < dataset.rasterYSize && 0 <= col < dataset.rasterXSize
        && r.value.0 == NorthUpCellLocation(gtf, row, col)
        && r.value.1 == accArray[row][col]
  {
    var gtf := dataset.geoTransform;
    var rg :- GetRatingGrid(sample, dweight, aweight, upstreamArea, accArray, gtf, dataset, sqrt);
    ShapeIsRect(rg, dataset.rasterYSize, dataset.rasterXSize);
    var best :- GetMinEntry(rg);
    var area := accArray[best.0][best.1];
    assert rg == RatingOf(sample, upstreamArea, accArray, dataset, dweight, aweight, sqrt);
    Ok((NorthUpCellLocation(gtf, best.0, best.1), area))
  }

  /** `snap_pt_and_info` with the north-up cell location and the distance
      offset measured from the reported point to the snapped one. */
  function SnapPtAndInfoCorrected(sample: Vec2, upstreamArea: real, dataset: Dataset, accArray: Grid,
                                  dweight: real, aweight: real, sqrt: real -> real): (r: Result<SnapResult>)
    requires IsSqrt(sqrt)
    requires ValidGeoTransform(dataset.geoTransform)
    requires HasShape(accArray, dataset.rasterYSize, dataset.rasterXSize)
    ensures r.Err? <==>
      dweight == 0.0 || aweight == 0.0 || dataset.rasterYSize == 0 || dataset.rasterXSize == 0
    ensures r.Err? ==>
      r.error == if dweight == 0.0 || aweight == 0.0 then ZeroDivision else EmptyArgMin
    ensures r.Ok? ==>
      var pt := ReportedPtToRasterPtCorrected(sample, upstreamArea, accArray, dataset, dweight, aweight, sqrt).value;
      r.value == SnapRecord(sample, upstreamArea, pt.0, pt.1, dataset.geoTransform.res, sample, sqrt)
  {
    var gtf := dataset.geoTransform;
    var pt :- ReportedPtToRasterPtCorrected(sample, upstreamArea, accArray, dataset, dweight, aweight, sqrt);
    Ok(SnapRecord(sample, upstreamArea, pt.0, pt.1, gtf.res, sample, sqrt))
  }

  /** A reported point that lies exactly on the north-up grid node of an
      in-bounds cell, with the reported area equal to that cell's area,
      snaps to itself with both offsets zero. */
  lemma ZeroOffsetAtGridNode(sample: Vec2, upstreamArea: real, dataset: Dataset, accArray: Grid,
                             dweight: real, aweight: real, sqrt: real -> real, row: int, col: int)
    requires IsSqrt(sqrt)
    requires ValidGeoTransform(dataset.geoTransform)
    requires HasShape(accArray, dataset.rasterYSize, dataset.rasterXSize)
    requires 0.0 < dweight && 0.0 < aweight
    requires 0 <= row < dataset.rasterYSize && 0 <= col < dataset.rasterXSize
    requires sample == NorthUpCellLocation(dataset.geoTransform, row, col)
    requires upstreamArea == PixelsToArea(accArray[row][col], dataset.geoTransform.res)
    ensures var r := SnapPtAndInfoCorrected(sample, upstreamArea, dataset, accArray, dweight, aweight, sqrt);
      && r.Ok?
      && (r.value.snapedX, r.value.snapedY) == sample
      && r.value.snapedArea == upstreamArea
      && r.value.areaOffset == 0.0
      && r.value.distanceOffset == 0.0
  {
    var gtf := dataset.geoTransform;
    NorthUpNodeRoundTrip(gtf, row, col);
    SnapsToZeroCostCell(sample, upstreamArea, accArray, dataset, dweight, aweight, sqrt, row, col);
    var rating := RatingOf(sample, upstreamArea, accArray, dataset, dweight, aweight, sqrt);
    var pt := ReportedPtToRasterPtCorrected(sample, upstreamArea, accArray, dataset, dweight, aweight, sqrt);
    var r', c' :| IsFirstMin(rating, r', c')
      && 0 <= r' < dataset.rasterYSize && 0 <= c' < dataset.rasterXSize
      && pt.value.0 == NorthUpCellLocation(gtf, r', c')
      && pt.value.1 == accArray[r'][c'];
    FirstMinUnique(rating, r', c', row, col);
    assert pt.value == (sample, accArray[row][col]);
  }

  /** The corrected snapped point is a node of the raster: east of the
      origin by at most `rasterXSize - 1` cells and south of it by at most
      `rasterYSize - 1` cells. */
  lemma SnappedInsideRaster(sample: Vec2, upstreamArea: real, dataset: Dataset, accArray: Grid,
                            dweight: real, aweight: real, sqrt: real -> real)
    requires IsSqrt(sqrt)
    requires ValidGeoTransform(dataset.geoTransform)
    requires HasShape(accArray, dataset.rasterYSize, dataset.rasterXSize)
    ensures var r := SnapPtAndInfoCorrected(sample, upstreamArea, dataset, accArray, dweight, aweight, sqrt);
      r.Ok? ==> InsideRaster((r.value.snapedX, r.value.snapedY), dataset)
  {
    var gtf := dataset.geoTransform;
    var r := SnapPtAndInfoCorrected(sample, upstreamArea, dataset, accArray, dweight, aweight, sqrt);
    if r.Ok? {
      var pt := ReportedPtToRasterPtCorrected(sample, upstreamArea, accArray, dataset, dweight, aweight, sqrt);
      var rating := RatingOf(sample, upstreamArea, accArray, dataset, dweight, aweight, sqrt);
      var row, col :| IsFirstMin(rating, row, col)
        && 0 <= row < dataset.rasterYSize && 0 <= col < dataset.rasterXSize
        && pt.value.0 == NorthUpCellLocation(gtf, row, col)
        && pt.value.1 == accArray[row][col];
      NodeInsideRaster(dataset, row, col);
    }
  }

  /** `xy` lies on the span of grid nodes of a north-up raster. */
  predicate InsideRaster(xy: Vec2, dataset: Dataset) {
    var gtf := dataset.geoTransform;
    && gtf.originX <= xy.0 <= gtf.originX + (dataset.rasterXSize - 1) as real * gtf.res
    && gtf.originY - (dataset.rasterYSize - 1) as real * gtf.res <= xy.1 <= gtf.originY
  }

  /** The node of every in-bounds cell lies inside the raster. */
  lemma NodeInsideRaster(dataset: Dataset, row: int, col: int)
    requires ValidGeoTransform(dataset.geoTransform)
    requires 0 <= row < dataset.rasterYSize && 0 <= col < dataset.rasterXSize
    ensures InsideRaster(NorthUpCellLocation(dataset.geoTransform, row, col), dataset)
  {
    var gtf := dataset.geoTransform;
    var xy := NorthUpCellLocation(gtf, row, col);
    var east, south := col as real * gtf.res, row as real * gtf.res;
    assert xy.0 == gtf.originX + east;
    assert xy.1 == gtf.originY - south;
    CellsAtMost(col, dataset.rasterXSize - 1, gtf.res);
    CellsAtMost(row, dataset.rasterYSize - 1, gtf.res);
  }

  /** Fewer cells span a shorter distance. */
  lemma CellsAtMost(n: int, m: int, res: real)
    requires 0 <= n <= m && 0.0 < res
    ensures 0.0 <= n as real * res <= m as real * res
  {
    calc {
      m as real * res - n as real * res;
      == (m - n) as real * res;
      >= 0.0;
    }
    calc {
      n as real * res;
      >= 0.0 * res;
      == 0.0;
    }
  }
}
