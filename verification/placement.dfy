/**
 * Placement checks: may `num` go into a cell without repeating in its row, column or
 * 3×3 region? Every check looks at the whole unit, the target cell included.
 */
module Placement {
  import opened Board

  /** `num` occurs nowhere in row `row`. */
  predicate RowFree(g: Grid, row: int, num: int)
    requires IsGrid(g) && 0 <= row < 9
  {
    forall x :: 0 <= x < 9 ==> g[row][x] != num
  }

  /** `num` occurs nowhere in column `col`. */
  predicate ColFree(g: Grid, col: int, num: int)
    requires IsGrid(g) && 0 <= col < 9
  {
    forall x :: 0 <= x < 9 ==> g[x][col] != num
  }

  /** First row of the region holding row `row` (and, alike, first column of a column's region). */
  function RegionStart(i: int): (s: int)
    requires 0 <= i < 9
    ensures 0 <= s <= i < s + 3 <= 9 && s % 3 == 0
  {
    i - i % 3
  }

  /** `num` occurs nowhere in the 3×3 block whose origin is (row - row % 3, col - col % 3). */
  predicate RegionFree(g: Grid, row: int, col: int, num: int)
    requires IsGrid(g) && 0 <= row < 9 && 0 <= col < 9
  {
    var startRow, startCol := RegionStart(row), RegionStart(col);
    forall i, j :: startRow <= i < startRow + 3 && startCol <= j < startCol + 3 ==> g[i][j] != num
  }

  /**
   * isSafe, the solver's pruning test: all three unit checks pass. It fails exactly when `num`
   * already sits in some cell sharing a row, column or region with (row, col), that cell included.
   */
  function IsSafe(g: Grid, row: int, col: int, num: int): (ok: bool)
    requires IsGrid(g) && 0 <= row < 9 && 0 <= col < 9
    ensures ok <==> forall i, j :: 0 <= i < 9 && 0 <= j < 9 && SameUnit(row, col, i, j) ==> g[i][j] != num
  {
    RegionFreeIff(g, row, col, num);
    RowFree(g, row, num) && ColFree(g, col, num) && RegionFree(g, row, col, num)
  }

  /**
   * checkValueInCoord: the cell (row, col) already holds `num`. Such a cell makes each of the
   * three unit checks fail on the target itself.
   */
  function HoldsValue(g: Grid, row: int, col: int, num: int): (held: bool)
    requires IsGrid(g) && 0 <= row < 9 && 0 <= col < 9
    ensures held <==> g[row][col] == num
    ensures held ==> !RowFree(g, row, num) && !ColFree(g, col, num) && !RegionFree(g, row, col, num)
    ensures held ==> !IsSafe(g, row, col, num)
  {
    g[row][col] == num
  }

  /** The block origin rule picks exactly the cells whose row and column fall in the same thirds. */
  lemma RegionStartSameThird(a: int, b: int)
    requires 0 <= a < 9 && 0 <= b < 9
    ensures RegionStart(a) <= b < RegionStart(a) + 3 <==> a / 3 == b / 3
  {
  }

  /** The region check is the "same 3×3 block" test stated with integer division. */
  lemma RegionFreeIff(g: Grid, row: int, col: int, num: int)
    requires IsGrid(g) && 0 <= row < 9 && 0 <= col < 9
    ensures RegionFree(g, row, col, num) <==>
      forall i, j :: 0 <= i < 9 && 0 <= j < 9 && i / 3 == row / 3 && j / 3 == col / 3 ==> g[i][j] != num
  {
    forall i | 0 <= i < 9 { RegionStartSameThird(row, i); }
    forall j | 0 <= j < 9 { RegionStartSameThird(col, j); }
  }

  /** checkRowPlacement: scans columns 0..8 and stops at the first cell holding `num`. */
  method CheckRowPlacement(g: Grid, row: int, num: int) returns (ok: bool)
    requires IsGrid(g) && 0 <= row < 9
    ensures ok <==> RowFree(g, row, num)
  {
    for x := 0 to 9
      invariant forall y :: 0 <= y < x ==> g[row][y] != num
    {
      if g[row][x] == num {
        return false;
      }
    }
    return true;
  }

  /** checkColPlacement: scans rows 0..8 and stops at the first cell holding `num`. */
  method CheckColPlacement(g: Grid, col: int, num: int) returns (ok: bool)
    requires IsGrid(g) && 0 <= col < 9
    ensures ok <==> ColFree(g, col, num)
  {
    for x := 0 to 9
      invariant forall y :: 0 <= y < x ==> g[y][col] != num
    {
      if g[x][col] == num {
        return false;
      }
    }
    return true;
  }

  /** checkRegionPlacement: scans the 3×3 block row by row from its origin. */
  method CheckRegionPlacement(g: Grid, row: int, col: int, num: int) returns (ok: bool)
    requires IsGrid(g) && 0 <= row < 9 && 0 <= col < 9
    ensures ok <==> RegionFree(g, row, col, num)
  {
    var startRow, startCol := row - row % 3, col - col % 3;
    for i := 0 to 3
      invariant forall a, b :: startRow <= a < startRow + i && startCol <= b < startCol + 3 ==> g[a][b] != num
    {
      var r := startRow + i;
      for j := 0 to 3
        invariant forall b :: startCol <= b < startCol + j ==> g[r][b] != num
        invariant forall a, b :: startRow <= a < startRow + i && startCol <= b < startCol + 3 ==> g[a][b] != num
      {
        if g[i + startRow][j + startCol] == num {
          return false;
        }
      }
    }
    return true;
  }

  /** isSafe: the three scans joined by short-circuit `&&`. The in-place solver decides each trial with it. */
  method CheckSafe(g: Grid, row: int, col: int, num: int) returns (ok: bool)
    requires IsGrid(g) && 0 <= row < 9 && 0 <= col < 9
    ensures ok <==> forall i, j :: 0 <= i < 9 && 0 <= j < 9 && SameUnit(row, col, i, j) ==> g[i][j] != num
  {
    ok := CheckRowPlacement(g, row, num);
    if ok {
      ok := CheckColPlacement(g, col, num);
      if ok {
        ok := CheckRegionPlacement(g, row, col, num);
      }
    }
  }
}
