/** Two-dimensional numeric arrays as sequences of rows, and their row-major
    flattening (the order in which `np.argmin` visits a 2-D array). */
module Grids {

  type Grid = seq<seq<real>>

  /** `np.shape(g) == (rows, columns)`. */
  predicate HasShape(g: Grid, rows: nat, columns: nat) {
    |g| == rows && forall i | 0 <= i < rows :: |g[i]| == columns
  }

  /** The column count of a rectangular grid (0 when it has no rows). */
  function Columns(g: Grid): nat {
    if |g| == 0 then 0 else |g[0]|
  }

  /** Every row has the same length, as in any numpy 2-D array. */
  predicate IsRect(g: Grid) {
    HasShape(g, |g|, Columns(g))
  }

  /** A grid of a declared shape is rectangular, with that many columns
      whenever it has a row. */
  lemma ShapeIsRect(g: Grid, rows: nat, columns: nat)
    requires HasShape(g, rows, columns)
    ensures IsRect(g)
    ensures rows > 0 ==> Columns(g) == columns
  {
  }

  /** The cells of `g` in row-major order. */
  function Flatten(g: Grid): seq<real> {
    if |g| == 0 then [] else g[0] + Flatten(g[1..])
  }

  lemma {:induction false} FlattenLength(g: Grid, columns: nat)
    requires HasShape(g, |g|, columns)
    ensures |Flatten(g)| == |g| * columns
  {
    if |g| > 0 {
      FlattenLength(g[1..], columns);
    }
  }

  /** Cell `(r, c)` sits at position `r * columns + c` of the flattening. */
  lemma {:induction false} FlattenAt(g: Grid, columns: nat, r: nat, c: nat)
    requires HasShape(g, |g|, columns)
    requires r < |g| && c < columns
    ensures |Flatten(g)| == |g| * columns
    ensures r * columns + c < |Flatten(g)|
    ensures Flatten(g)[r * columns + c] == g[r][c]
  {
    FlattenLength(g, columns);
    if r > 0 {
      FlattenAt(g[1..], columns, r - 1, c);
      assert (r - 1) * columns + c + columns == r * columns + c;
    }
  }

  /** Row-major order is the order of flat positions. */
  lemma RowMajorBefore(columns: nat, i: nat, j: nat, r: nat, c: nat)
    requires j < columns && c < columns
    ensures (i < r || (i == r && j < c)) <==> i * columns + j < r * columns + c
  {
    if i < r {
      calc {
        i * columns + j;
        < i * columns + columns;
        == (i + 1) * columns;
        <= r * columns;
        <= r * columns + c;
      }
    } else if r < i {
      calc {
        r * columns + c;
        < r * columns + columns;
        == (r + 1) * columns;
        <= i * columns;
        <= i * columns + j;
      }
    }
  }

  /** A flat position splits into a row and a column with `/` and `%`. */
  lemma SplitFlatIndex(rows: nat, columns: nat, k: nat)
    requires k < rows * columns
    ensures columns > 0
    ensures k / columns < rows && k % columns < columns
    ensures (k / columns) * columns + k % columns == k
  {
    var q := k / columns;
    assert q * columns + k % columns == k;
  }
}
