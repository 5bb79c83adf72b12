/** Grid georeference: the conversions between geographic coordinates and
    array entries (flowsnap.py `array_entry_to_location` and
    `location_to_array_entry`), and the raster record that supplies the
    origin and the cell size. Both conversions work on a pair in whichever
    axis order the caller uses; the snapping code calls them in row/column
    order, i.e. with (y, x) pairs. */
module Georef {
  import opened Numeric

  /** A geographic pair, in (x, y) or (y, x) order depending on the caller. */
  type Vec2 = (real, real)

  /** An array entry, in (row, column) order when it indexes a grid. */
  type Entry = (int, int)

  /** The three geotransform fields the snapping code reads:
      `gtf[0]` (x of the origin), `gtf[1]` (cell size) and `gtf[3]`
      (y of the origin). Rotation terms and the y pixel size are never read. */
  datatype GeoTransform = GeoTransform(originX: real, res: real, originY: real)

  /** The accumulation raster's dataset as the snapping code sees it:
      `GetGeoTransform()`, `RasterXSize` (columns) and `RasterYSize` (rows). */
  datatype Dataset = Dataset(geoTransform: GeoTransform, rasterXSize: nat, rasterYSize: nat)

  /** A usable geotransform has a positive cell size. */
  predicate ValidGeoTransform(gtf: GeoTransform) {
    gtf.res > 0.0
  }

  /** `origin + entry * res`, component-wise. */
  function ArrayEntryToLocation(entry: Entry, origin: Vec2, res: real): (loc: Vec2)
    ensures entry == (0, 0) ==> loc == origin
    ensures 0.0 < res && 0 <= entry.0 && 0 <= entry.1 ==> origin.0 <= loc.0 && origin.1 <= loc.1
  {
    (origin.0 + entry.0 as real * res, origin.1 + entry.1 as real * res)
  }

  /** `rint(abs(location - origin) / res)`, component-wise: the nearest
      whole number of cells between the origin and the location, whichever
      side of the origin the location is on. */
  function LocationToArrayEntry(location: Vec2, origin: Vec2, res: real): (e: Entry)
    requires 0.0 < res
    ensures 0 <= e.0 && 0 <= e.1
    ensures NearestCellCount(e.0, Abs(location.0 - origin.0), res)
    ensures NearestCellCount(e.1, Abs(location.1 - origin.1), res)
    ensures TieGoesToEven(e.0, Abs(location.0 - origin.0), res)
    ensures TieGoesToEven(e.1, Abs(location.1 - origin.1), res)
  {
    var e := (Rint(Abs(location.0 - origin.0) / res), Rint(Abs(location.1 - origin.1) / res));
    RintScaled(Abs(location.0 - origin.0), res);
    RintScaled(Abs(location.1 - origin.1), res);
    e
  }

  /** `n` cells of size `res` span `d` to within half a cell. */
  predicate NearestCellCount(n: int, d: real, res: real) {
    -res / 2.0 <= n as real * res - d <= res / 2.0
  }

  /** When `d` lies exactly halfway between two cell counts, `n` is the even
      one (numpy's `rint` rounds half to even). */
  predicate TieGoesToEven(n: int, d: real, res: real) {
    n as real * res - d == res / 2.0 || n as real * res - d == -res / 2.0 ==> n % 2 == 0
  }

  /** Rounding `d / res` to the nearest integer, ties to even, is the
      nearest cell count of `d`, ties to even. */
  lemma RintScaled(d: real, res: real)
    requires 0.0 < res
    ensures NearestCellCount(Rint(d / res), d, res)
    ensures TieGoesToEven(Rint(d / res), d, res)
    ensures 0.0 <= d ==> 0 <= Rint(d / res)
  {
    var n := Rint(d / res);
    var t := n as real - d / res;
    assert -0.5 <= t <= 0.5;
    calc {
      n as real * res - d;
      == t * res;
    }
    assert -0.5 * res <= t * res <= 0.5 * res;
    if t * res == res / 2.0 {
      assert t == 0.5;
    } else if t * res == -res / 2.0 {
      assert t == -0.5;
    }
  }

  /** Within half a cell, with ties to even, one cell count fits a
      distance: the nearest cell count of `LocationToArrayEntry` is the only
      one. */
  lemma CellCountUnique(location: Vec2, origin: Vec2, res: real, n: int)
    requires 0.0 < res
    requires NearestCellCount(n, Abs(location.0 - origin.0), res)
    requires TieGoesToEven(n, Abs(location.0 - origin.0), res)
    ensures n == LocationToArrayEntry(location, origin, res).0
  {
    var d := Abs(location.0 - origin.0);
    var t := n as real - d / res;
    calc {
      n as real * res - d;
      == t * res;
    }
    assert -0.5 <= t <= 0.5 by {
      assert -0.5 * res <= t * res <= 0.5 * res;
    }
    if t == 0.5 || t == -0.5 {
      assert n as real * res - d == res / 2.0 || n as real * res - d == -res / 2.0;
    }
    RintUnique(d / res, n);
  }

  /** A location exactly halfway between nodes on both axes rounds to the
      even entry on each: 2.5 cells from the origin on both axes is entry
      `(2, 2)`, not `(3, 3)`. */
  lemma HalfwayRoundsToEven()
    ensures LocationToArrayEntry((250.0, 250.0), (500.0, 0.0), 100.0) == (2, 2)
  {
    RintUnique(2.5, 2);
  }

  /** On a grid node at or beyond the origin the two conversions are exact
      inverses: the location maps to its entry, and the entry back to it. */
  lemma GridNodeRoundTrip(k: Entry, origin: Vec2, res: real)
    requires 0.0 < res
    requires 0 <= k.0 && 0 <= k.1
    ensures LocationToArrayEntry(ArrayEntryToLocation(k, origin, res), origin, res) == k
  {
    var loc := ArrayEntryToLocation(k, origin, res);
    calc {
      Abs(loc.0 - origin.0) / res;
      == (k.0 as real * res) / res;
      == k.0 as real;
    }
    calc {
      Abs(loc.1 - origin.1) / res;
      == (k.1 as real * res) / res;
      == k.1 as real;
    }
    RintUnique(k.0 as real, k.0);
    RintUnique(k.1 as real, k.1);
  }

  /** For any location at or beyond the origin on both axes, converting to
      an entry and back moves it by at most half a cell per axis. */
  lemma RoundTripWithinHalfCell(location: Vec2, origin: Vec2, res: real)
    requires 0.0 < res
    requires origin.0 <= location.0 && origin.1 <= location.1
    ensures var back := ArrayEntryToLocation(LocationToArrayEntry(location, origin, res), origin, res);
      Abs(back.0 - location.0) <= res / 2.0 && Abs(back.1 - location.1) <= res / 2.0
  {
    var e := LocationToArrayEntry(location, origin, res);
    var back := ArrayEntryToLocation(e, origin, res);
    NodeWithinHalfCell(e.0, origin.0, location.0, back.0, res);
    NodeWithinHalfCell(e.1, origin.1, location.1, back.1, res);
  }

  /** The node `n` cells beyond `origin`, `n` being the nearest cell count
      of the distance to a point `p` beyond the origin, is within half a
      cell of `p`. */
  lemma NodeWithinHalfCell(n: int, origin: real, p: real, node: real, res: real)
    requires origin <= p && 0.0 < res
    requires NearestCellCount(n, Abs(p - origin), res)
    requires node == origin + n as real * res
    ensures Abs(node - p) <= res / 2.0
  {
  }

  /** A location before the origin on an axis (for the row axis of a north-up
      raster: south of the origin, where the raster's cells lie) comes back
      reflected to the other side of the origin: within half a cell of its
      mirror image `2 * origin - location`. */
  lemma RoundTripMirrorsBeforeOrigin(location: Vec2, origin: Vec2, res: real)
    requires 0.0 < res
    requires location.0 < origin.0
    ensures var back := ArrayEntryToLocation(LocationToArrayEntry(location, origin, res), origin, res);
      origin.0 <= back.0 && Abs(back.0 - (2.0 * origin.0 - location.0)) <= res / 2.0
  {
    var e := LocationToArrayEntry(location, origin, res);
    var back := ArrayEntryToLocation(e, origin, res);
    var mirror := 2.0 * origin.0 - location.0;
    assert Abs(mirror - origin.0) == Abs(location.0 - origin.0);
    NodeWithinHalfCell(e.0, origin.0, mirror, back.0, res);
  }

  /** A concrete instance: origin y = 500, x = 0, 100-unit cells, and the
      location y = 200, x = 300 (three cells south and three east of the
      origin). The entry is (3, 3), but the location it converts back to is
      y = 800: three cells north of the origin instead of three south. */
  lemma NorthUpRoundTripExample()
    ensures LocationToArrayEntry((200.0, 300.0), (500.0, 0.0), 100.0) == (3, 3)
    ensures ArrayEntryToLocation((3, 3), (500.0, 0.0), 100.0) == (800.0, 300.0)
  {
    RintUnique(3.0, 3);
  }
}
