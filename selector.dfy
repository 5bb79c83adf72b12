/** The selector `get_min_entry`: `np.argmin` over the row-major flattening
    of the rating grid, and the split of the flat position into a row and a
    column. */
module Selector {
  import opened Grids
  import opened Georef
  import opened Results

  /** `np.argmin` on a flat sequence: the position of the first minimum. */
  function ArgMin(s: seq<real>): (k: nat)
    requires |s| > 0
    ensures k < |s|
    ensures forall j | 0 <= j < |s| :: s[k] <= s[j]
    ensures forall j | 0 <= j < k :: s[k] < s[j]
  {
    if |s| == 1 then 0
    else
      var k := ArgMin(s[..|s| - 1]);
      if s[|s| - 1] < s[k] then |s| - 1 else k
  }

  /** Cell `(r, c)` holds the smallest value of `g`, and every cell before
      it in row-major order (an earlier row, or the same row and an earlier
      column) holds a strictly larger one. */
  predicate IsFirstMin(g: Grid, r: int, c: int) {
    && 0 <= r < |g| && 0 <= c < |g[r]|
    && (forall i, j | 0 <= i < |g| && 0 <= j < |g[i]| :: g[r][c] <= g[i][j])
    && (forall i, j | 0 <= i < |g| && 0 <= j < |g[i]| && (i < r || (i == r && j < c)) ::
          g[r][c] < g[i][j])
  }

  /** At most one cell of a grid is its first minimum. */
  lemma FirstMinUnique(g: Grid, r1: int, c1: int, r2: int, c2: int)
    requires IsFirstMin(g, r1, c1) && IsFirstMin(g, r2, c2)
    ensures r1 == r2 && c1 == c2
  {
    assert g[r1][c1] <= g[r2][c2] && g[r2][c2] <= g[r1][c1];
  }

  /** The first minimum of the flattening, split with `/` and `%`, is the
      first minimum of the grid. */
  lemma {:induction false} FirstMinOfFlatten(g: Grid, columns: nat, k: nat)
    requires HasShape(g, |g|, columns)
    requires k < |Flatten(g)|
    requires forall j | 0 <= j < |Flatten(g)| :: Flatten(g)[k] <= Flatten(g)[j]
    requires forall j | 0 <= j < k :: Flatten(g)[k] < Flatten(g)[j]
    ensures columns > 0
    ensures (k / columns) * columns + k % columns == k
    ensures IsFirstMin(g, k / columns, k % columns)
  {
    FlattenLength(g, columns);
    SplitFlatIndex(|g|, columns, k);
    var r, c := k / columns, k % columns;
    FlattenAt(g, columns, r, c);
    forall i, j | 0 <= i < |g| && 0 <= j < |g[i]|
      ensures g[r][c] <= g[i][j]
      ensures i < r || (i == r && j < c) ==> g[r][c] < g[i][j]
    {
      FlattenAt(g, columns, i, j);
      RowMajorBefore(columns, i, j, r, c);
    }
  }

  /** `get_min_entry`: the (row, column) of the grid's first minimum in
      row-major order, whose flat position `row * columns + column` is what
      `np.argmin` returns. `np.argmin` fails on a grid with no cells. */
  function GetMinEntry(grid: Grid): (r: Result<Entry>)
    requires IsRect(grid)
    ensures r.Err? <==> |grid| == 0 || Columns(grid) == 0
    ensures r.Err? ==> r.error == EmptyArgMin
    ensures r.Ok? ==> IsFirstMin(grid, r.value.0, r.value.1)
    ensures r.Ok? ==>
      |Flatten(grid)| > 0 && r.value.0 * Columns(grid) + r.value.1 == ArgMin(Flatten(grid))
  {
    var rows, columns := |grid|, Columns(grid);
    if rows == 0 || columns == 0 then Err(EmptyArgMin)
    else
      FlattenAt(grid, columns, 0, 0);
      var minimum := ArgMin(Flatten(grid));
      FirstMinOfFlatten(grid, columns, minimum);
      Ok((minimum / columns, minimum % columns))
  }
}
