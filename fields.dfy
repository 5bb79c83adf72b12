/** The three grids the snapping code builds over the accumulation raster:
    the distance field (`get_distance_grid`), the area-discrepancy field
    (`upstream_to_pixels`, `get_area_matrix`) and their weighted sum, the
    rating grid (`get_rating_grid`). */
module Fields {
  import opened Numeric
  import opened Grids
  import opened Georef
  import opened Results

  /** `get_distance_grid(rows, columns, entry)`: a rows x columns grid whose
      cell `(i, j)` holds the Euclidean distance, in cells, from `(i, j)` to
      `entry` (given in row/column order; it need not lie inside the grid):
      the norm of the offset `(i - entry.0, j - entry.1)`: never negative,
      squaring to `(i - entry.0)² + (j - entry.1)²`, and zero only at `entry`
      itself. */
  function DistanceGrid(rows: nat, columns: nat, entry: Entry, sqrt: real -> real): (g: Grid)
    requires IsSqrt(sqrt)
    ensures HasShape(g, rows, columns)
    ensures forall i, j | 0 <= i < rows && 0 <= j < columns ::
      g[i][j] == Norm((i - entry.0) as real, (j - entry.1) as real, sqrt)
    ensures forall i, j | 0 <= i < rows && 0 <= j < columns ::
      var di, dj := (i - entry.0) as real, (j - entry.1) as real;
      0.0 <= g[i][j] && g[i][j] * g[i][j] == di * di + dj * dj
    ensures forall i, j | 0 <= i < rows && 0 <= j < columns :: g[i][j] == 0.0 <==> (i, j) == entry
  {
    var g := seq(rows, i => seq(columns, j => Norm((i - entry.0) as real, (j - entry.1) as real, sqrt)));
    forall i, j | 0 <= i < rows && 0 <= j < columns
      ensures g[i][j] == Norm((i - entry.0) as real, (j - entry.1) as real, sqrt)
      ensures g[i][j] * g[i][j] == (i - entry.0) as real * (i - entry.0) as real + (j - entry.1) as real * (j - entry.1) as real
    {
      NormSquared((i - entry.0) as real, (j - entry.1) as real, sqrt);
    }
    g
  }

  /** A cell of the distance grid is at least its row offset and its
      column offset from `entry`, and equals the offset along the other axis
      on `entry`'s own row or column. */
  lemma DistanceGridAxes(rows: nat, columns: nat, entry: Entry, sqrt: real -> real, i: int, j: int)
    requires IsSqrt(sqrt)
    requires 0 <= i < rows && 0 <= j < columns
    ensures var g := DistanceGrid(rows, columns, entry, sqrt);
      && Abs((i - entry.0) as real) <= g[i][j]
      && Abs((j - entry.1) as real) <= g[i][j]
      && (i == entry.0 ==> g[i][j] == Abs((j - entry.1) as real))
      && (j == entry.1 ==> g[i][j] == Abs((i - entry.0) as real))
  {
    var di, dj := (i - entry.0) as real, (j - entry.1) as real;
    NormAtLeastComponents(di, dj, sqrt);
    if i == entry.0 {
      assert di == 0.0;
      NormOnAxis(dj, sqrt);
    }
    if j == entry.1 {
      assert dj == 0.0;
      NormOnAxis(di, sqrt);
    }
  }

  /** `upstream_to_pixels`: an area in square geographic units as a number
      of cells of side `cellsize`; scaling back by `cellsize²` restores it. */
  function UpstreamToPixels(upstreamArea: real, cellsize: real): (pixels: real)
    requires cellsize != 0.0
    ensures pixels * (cellsize * cellsize) == upstreamArea
  {
    upstreamArea / (cellsize * cellsize)
  }

  /** Line 117 of `snap_pt_and_info`: a number of cells of side `cellsize`
      as an area (`pixels * cellsize²`), the inverse of `upstream_to_pixels`. */
  function PixelsToArea(pixels: real, cellsize: real): (area: real)
    requires cellsize != 0.0
    ensures UpstreamToPixels(area, cellsize) == pixels
  {
    var k := cellsize * cellsize;
    assert 0.0 < k by {
      SquarePositive(cellsize);
      calc { k; == cellsize * cellsize; > 0.0; }
    }
    assert (pixels * k) / k == pixels;
    pixels * k
  }

  /** `|a - p| * k == |a * k - p * k|` for a positive scale `k`. */
  lemma AbsScale(a: real, p: real, k: real)
    requires 0.0 < k
    ensures Abs(a - p) * k == Abs(a * k - p * k)
  {
    assert (a - p) * k == a * k - p * k;
    if a - p < 0.0 {
      assert (a - p) * k < 0.0;
    } else {
      assert 0.0 <= (a - p) * k;
    }
  }

  /** The area discrepancy of one cell (line 57 of `get_area_matrix`):
      never negative, zero exactly when the cell holds the target, and,
      scaled by `res²`, the discrepancy in area units. */
  function AreaDiscrepancy(acc: real, upstreamArea: real, res: real): (a: real)
    requires res != 0.0
    ensures 0.0 <= a
    ensures a == 0.0 <==> acc == UpstreamToPixels(upstreamArea, res)
    ensures a * (res * res) == Abs(acc * (res * res) - upstreamArea)
  {
    var pixels := UpstreamToPixels(upstreamArea, res);
    var k := res * res;
    assert 0.0 < k by {
      SquarePositive(res);
      calc { k; == res * res; > 0.0; }
    }
    AbsScale(acc, pixels, k);
    Abs(acc - pixels)
  }

  /** `get_area_matrix`: the area discrepancy of every cell of `accArray`,
      in a grid of the same shape. */
  function AreaMatrix(upstreamArea: real, accArray: Grid, geoTransform: GeoTransform): (g: Grid)
    requires geoTransform.res != 0.0
    ensures SameShape(g, accArray)
    ensures forall i, j | 0 <= i < |g| && 0 <= j < |g[i]| ::
      g[i][j] == AreaDiscrepancy(accArray[i][j], upstreamArea, geoTransform.res)
  {
    seq(|accArray|, i requires 0 <= i < |accArray| =>
      seq(|accArray[i]|, j requires 0 <= j < |accArray[i]| =>
        AreaDiscrepancy(accArray[i][j], upstreamArea, geoTransform.res)))
  }

  /** Two grids of the same shape, as numpy needs to add them cellwise. */
  predicate SameShape(a: Grid, b: Grid) {
    |a| == |b| && forall i | 0 <= i < |a| :: |a[i]| == |b[i]|
  }

  /** The rating of one cell: `dist * (1/dweight) + area * (1/aweight)`. */
  function Rating(dist: real, area: real, dweight: real, aweight: real): (rt: real)
    requires dweight != 0.0 && aweight != 0.0
    ensures rt == dist / dweight + area / aweight
  {
    dist * (1.0 / dweight) + area * (1.0 / aweight)
  }

  /** Line 80 of `get_rating_grid`: the cellwise rating of two grids of
      the same shape. */
  function RatingGrid(distGrid: Grid, areaGrid: Grid, dweight: real, aweight: real): (g: Grid)
    requires SameShape(distGrid, areaGrid)
    requires dweight != 0.0 && aweight != 0.0
    ensures SameShape(g, distGrid)
    ensures forall i, j | 0 <= i < |g| && 0 <= j < |g[i]| ::
      g[i][j] == Rating(distGrid[i][j], areaGrid[i][j], dweight, aweight)
  {
    seq(|distGrid|, i requires 0 <= i < |distGrid| =>
      seq(|distGrid[i]|, j requires 0 <= j < |distGrid[i]| =>
        Rating(distGrid[i][j], areaGrid[i][j], dweight, aweight)))
  }

  /** With positive weights and non-negative fields a rating is never
      negative, and it is zero exactly when both fields are zero. */
  lemma RatingZeroIff(dist: real, area: real, dweight: real, aweight: real)
    requires 0.0 < dweight && 0.0 < aweight
    requires 0.0 <= dist && 0.0 <= area
    ensures 0.0 <= Rating(dist, area, dweight, aweight)
    ensures Rating(dist, area, dweight, aweight) == 0.0 <==> dist == 0.0 && area == 0.0
  {
    var x, y := dist * (1.0 / dweight), area * (1.0 / aweight);
    assert 0.0 < 1.0 / dweight && 0.0 < 1.0 / aweight;
    assert 0.0 <= x && (x == 0.0 <==> dist == 0.0);
    assert 0.0 <= y && (y == 0.0 <==> area == 0.0);
  }

  /** The weights act as divisors: with the area weight fixed, raising the
      distance weight never raises a cell's rating, and strictly lowers it
      wherever the cell is away from the reference cell. */
  lemma DistanceWeightMonotone(dist: real, area: real, dweight1: real, dweight2: real, aweight: real)
    requires 0.0 < dweight1 <= dweight2 && aweight != 0.0
    requires 0.0 <= dist
    ensures Rating(dist, area, dweight2, aweight) <= Rating(dist, area, dweight1, aweight)
    ensures 0.0 < dist && dweight1 < dweight2 ==>
      Rating(dist, area, dweight2, aweight) < Rating(dist, area, dweight1, aweight)
  {
    assert 1.0 / dweight2 <= 1.0 / dweight1 by {
      calc {
        1.0 / dweight2;
        == (dweight1 / dweight2) * (1.0 / dweight1);
        <= 1.0 * (1.0 / dweight1);
      }
    }
    assert dist * (1.0 / dweight2) <= dist * (1.0 / dweight1);
    if 0.0 < dist && dweight1 < dweight2 {
      assert 1.0 / dweight2 < 1.0 / dweight1 by {
        calc {
          1.0 / dweight2;
          == (dweight1 / dweight2) * (1.0 / dweight1);
          < 1.0 * (1.0 / dweight1);
        }
      }
      assert dist * (1.0 / dweight2) < dist * (1.0 / dweight1);
    }
  }

  /** The same for the area weight, with the distance weight fixed. */
  lemma AreaWeightMonotone(dist: real, area: real, dweight: real, aweight1: real, aweight2: real)
    requires 0.0 < aweight1 <= aweight2 && dweight != 0.0
    requires 0.0 <= area
    ensures Rating(dist, area, dweight, aweight2) <= Rating(dist, area, dweight, aweight1)
    ensures 0.0 < area && aweight1 < aweight2 ==>
      Rating(dist, area, dweight, aweight2) < Rating(dist, area, dweight, aweight1)
  {
    DistanceWeightMonotone(area, dist, aweight1, aweight2, dweight);
  }

  /** Lines 75-77 of `get_rating_grid`: the sample, swapped to (y, x), as a
      row/column entry relative to the raster origin. */
  function SampleEntry(sample: Vec2, geoTransform: GeoTransform): (e: Entry)
    requires ValidGeoTransform(geoTransform)
    ensures 0 <= e.0 && 0 <= e.1
    ensures NearestCellCount(e.0, Abs(sample.1 - geoTransform.originY), geoTransform.res)
    ensures NearestCellCount(e.1, Abs(sample.0 - geoTransform.originX), geoTransform.res)
    ensures TieGoesToEven(e.0, Abs(sample.1 - geoTransform.originY), geoTransform.res)
    ensures TieGoesToEven(e.1, Abs(sample.0 - geoTransform.originX), geoTransform.res)
  {
    var origin := (geoTransform.originY, geoTransform.originX);
    var rcSample := (sample.1, sample.0);
    LocationToArrayEntry(rcSample, origin, geoTransform.res)
  }

  /** `get_rating_grid`: a grid of the raster's shape rating every cell by
      its distance to the sample and its area discrepancy. A zero weight is
      a division by zero. Cell `(i, j)` rates its distance, in cells, to the
      sample's entry together with its area discrepancy. With positive weights
      every rating is non-negative and a rating is zero exactly at the
      sample's own cell when that cell holds the target area. */
  function GetRatingGrid(sample: Vec2, dweight: real, aweight: real, upstreamArea: real,
                         accArray: Grid, geoTransform: GeoTransform, dataset: Dataset,
                         sqrt: real -> real): (r: Result<Grid>)
    requires IsSqrt(sqrt)
    requires ValidGeoTransform(geoTransform)
    requires HasShape(accArray, dataset.rasterYSize, dataset.rasterXSize)
    ensures r.Err? <==> dweight == 0.0 || aweight == 0.0
    ensures r.Err? ==> r.error == ZeroDivision
    ensures r.Ok? ==> HasShape(r.value, dataset.rasterYSize, dataset.rasterXSize)
    ensures r.Ok? ==>
      var e := SampleEntry(sample, geoTransform);
      forall i, j | 0 <= i < dataset.rasterYSize && 0 <= j < dataset.rasterXSize ::
        r.value[i][j] == Rating(Norm((i - e.0) as real, (j - e.1) as real, sqrt),
                                AreaDiscrepancy(accArray[i][j], upstreamArea, geoTransform.res),
                                dweight, aweight)
    ensures r.Ok? && 0.0 < dweight && 0.0 < aweight ==>
      forall i, j | 0 <= i < dataset.rasterYSize && 0 <= j < dataset.rasterXSize ::
        0.0 <= r.value[i][j]
        && (r.value[i][j] == 0.0 <==>
              (i, j) == SampleEntry(sample, geoTransform)
              && accArray[i][j] == UpstreamToPixels(upstreamArea, geoTransform.res))
  {
    if dweight == 0.0 || aweight == 0.0 then Err(ZeroDivision)
    else
      var rows, columns := dataset.rasterYSize, dataset.rasterXSize;
      var sampleLocation := SampleEntry(sample, geoTransform);
      var distanceGrid := DistanceGrid(rows, columns, sampleLocation, sqrt);
      var areaGrid := AreaMatrix(upstreamArea, accArray, geoTransform);
      var g := RatingGrid(distanceGrid, areaGrid, dweight, aweight);
      assert 0.0 < dweight && 0.0 < aweight ==>
        forall i, j | 0 <= i < rows && 0 <= j < columns ::
          0.0 <= g[i][j]
          && (g[i][j] == 0.0 <==>
                (i, j) == sampleLocation
                && accArray[i][j] == UpstreamToPixels(upstreamArea, geoTransform.res)) by {
        if 0.0 < dweight && 0.0 < aweight {
          forall i, j | 0 <= i < rows && 0 <= j < columns
            ensures 0.0 <= g[i][j]
            ensures g[i][j] == 0.0 <==>
              (i, j) == sampleLocation
              && accArray[i][j] == UpstreamToPixels(upstreamArea, geoTransform.res)
          {
            RatingZeroIff(distanceGrid[i][j], areaGrid[i][j], dweight, aweight);
          }
        }
      }
      Ok(g)
  }

  /** Raising the distance weight, with everything else fixed, never raises
      a cell of the rating grid, and strictly lowers every cell other than
      the sample's own entry. */
  lemma RatingGridDistanceWeightMonotone(sample: Vec2, dweight1: real, dweight2: real, aweight: real,
                                         upstreamArea: real, accArray: Grid, geoTransform: GeoTransform,
                                         dataset: Dataset, sqrt: real -> real)
    requires IsSqrt(sqrt)
    requires ValidGeoTransform(geoTransform)
    requires HasShape(accArray, dataset.rasterYSize, dataset.rasterXSize)
    requires 0.0 < dweight1 <= dweight2 && aweight != 0.0
    ensures
      var g1 := GetRatingGrid(sample, dweight1, aweight, upstreamArea, accArray, geoTransform, dataset, sqrt).value;
      var g2 := GetRatingGrid(sample, dweight2, aweight, upstreamArea, accArray, geoTransform, dataset, sqrt).value;
      forall i, j | 0 <= i < dataset.rasterYSize && 0 <= j < dataset.rasterXSize ::
        g2[i][j] <= g1[i][j]
        && (dweight1 < dweight2 && (i, j) != SampleEntry(sample, geoTransform) ==> g2[i][j] < g1[i][j])
  {
    var g1 := GetRatingGrid(sample, dweight1, aweight, upstreamArea, accArray, geoTransform, dataset, sqrt).value;
    var g2 := GetRatingGrid(sample, dweight2, aweight, upstreamArea, accArray, geoTransform, dataset, sqrt).value;
    var e := SampleEntry(sample, geoTransform);
    forall i, j | 0 <= i < dataset.rasterYSize && 0 <= j < dataset.rasterXSize
      ensures g2[i][j] <= g1[i][j]
      ensures dweight1 < dweight2 && (i, j) != e ==> g2[i][j] < g1[i][j]
    {
      var dist := Norm((i - e.0) as real, (j - e.1) as real, sqrt);
      var area := AreaDiscrepancy(accArray[i][j], upstreamArea, geoTransform.res);
      assert (i, j) != e ==> 0.0 < dist by {
        if (i, j) != e {
          assert (i - e.0) as real != 0.0 || (j - e.1) as real != 0.0;
        }
      }
      DistanceWeightMonotone(dist, area, dweight1, dweight2, aweight);
    }
  }

  /** Raising the area weight, with everything else fixed, never raises a
      cell of the rating grid, and strictly lowers every cell whose
      accumulation differs from the target. */
  lemma RatingGridAreaWeightMonotone(sample: Vec2, dweight: real, aweight1: real, aweight2: real,
                                     upstreamArea: real, accArray: Grid, geoTransform: GeoTransform,
                                     dataset: Dataset, sqrt: real -> real)
    requires IsSqrt(sqrt)
    requires ValidGeoTransform(geoTransform)
    requires HasShape(accArray, dataset.rasterYSize, dataset.rasterXSize)
    requires 0.0 < aweight1 <= aweight2 && dweight != 0.0
    ensures
      var g1 := GetRatingGrid(sample, dweight, aweight1, upstreamArea, accArray, geoTransform, dataset, sqrt).value;
      var g2 := GetRatingGrid(sample, dweight, aweight2, upstreamArea, accArray, geoTransform, dataset, sqrt).value;
      forall i, j | 0 <= i < dataset.rasterYSize && 0 <= j < dataset.rasterXSize ::
        g2[i][j] <= g1[i][j]
        && (aweight1 < aweight2 && accArray[i][j] != UpstreamToPixels(upstreamArea, geoTransform.res) ==>
              g2[i][j] < g1[i][j])
  {
    var g1 := GetRatingGrid(sample, dweight, aweight1, upstreamArea, accArray, geoTransform, dataset, sqrt).value;
    var g2 := GetRatingGrid(sample, dweight, aweight2, upstreamArea, accArray, geoTransform, dataset, sqrt).value;
    var e := SampleEntry(sample, geoTransform);
    forall i, j | 0 <= i < dataset.rasterYSize && 0 <= j < dataset.rasterXSize
      ensures g2[i][j] <= g1[i][j]
      ensures aweight1 < aweight2 && accArray[i][j] != UpstreamToPixels(upstreamArea, geoTransform.res) ==>
        g2[i][j] < g1[i][j]
    {
      var dist := Norm((i - e.0) as real, (j - e.1) as real, sqrt);
      var area := AreaDiscrepancy(accArray[i][j], upstreamArea, geoTransform.res);
      AreaWeightMonotone(dist, area, dweight, aweight1, aweight2);
    }
  }
}
