/** The 9×9 grid shared by the codec, the placement checks and the solver. */
module Board {

  /** Rows of cells in row-major order; 0 marks an empty cell. */
  type Grid = seq<seq<int>>

  /** A well-shaped grid: 9 rows of 9 cells. */
  predicate IsGrid(g: Grid) {
    |g| == 9 && forall r :: 0 <= r < 9 ==> |g[r]| == 9
  }

  /** The grid `g` with cell (r, c) overwritten by `v`: the one write the solver performs. */
  function Set(g: Grid, r: int, c: int, v: int): (h: Grid)
    requires IsGrid(g) && 0 <= r < 9 && 0 <= c < 9
    ensures IsGrid(h)
    ensures h[r][c] == v
    ensures forall i, j :: 0 <= i < 9 && 0 <= j < 9 && (i != r || j != c) ==> h[i][j] == g[i][j]
    ensures g[r][c] == v ==> h == g
  {
    var row := g[r][c := v];
    assert g[r][c] == v ==> row == g[r];
    g[r := row]
  }

  /** Writing a cell's old value back after any write restores the grid. */
  lemma SetRestores(g: Grid, r: int, c: int, v: int)
    requires IsGrid(g) && 0 <= r < 9 && 0 <= c < 9
    ensures Set(Set(g, r, c, v), r, c, g[r][c]) == g
  {
    var h := Set(Set(g, r, c, v), r, c, g[r][c]);
    forall i | 0 <= i < 9
      ensures h[i] == g[i]
    {
      assert forall j :: 0 <= j < 9 ==> h[i][j] == g[i][j];
    }
  }

  /** Cells (r1, c1) and (r2, c2) lie in one row, one column or one 3×3 region. */
  predicate SameUnit(r1: int, c1: int, r2: int, c2: int) {
    r1 == r2 || c1 == c2 || (r1 / 3 == r2 / 3 && c1 / 3 == c2 / 3)
  }

  /** Two distinct cells that constrain each other. */
  predicate Peers(r1: int, c1: int, r2: int, c2: int) {
    (r1 != r2 || c1 != c2) && SameUnit(r1, c1, r2, c2)
  }

  /** Cell (r, c) holds a digit 1..9 that no peer holds. */
  predicate Consistent(g: Grid, r: int, c: int)
    requires IsGrid(g) && 0 <= r < 9 && 0 <= c < 9
  {
    && 1 <= g[r][c] <= 9
    && forall i, j :: 0 <= i < 9 && 0 <= j < 9 && Peers(r, c, i, j) ==> g[i][j] != g[r][c]
  }
}
