/**
 * The backtracking search of SudokuSolver.solve. The cursor (row, col) walks the grid in
 * row-major order; col == 9 wraps to the next row, a non-zero cell is skipped, and an empty
 * cell tries the digits 1..9 in ascending order, writing 0 back after every failed trial.
 */
module Solver {
  import opened Board
  import opened Placement

  /** The success flag `solve` returns together with the grid as the call leaves it. */
  datatype Outcome = Outcome(solved: bool, grid: Grid)

  /** Row-major position of the cursor (row, col); (r, 9) and (r + 1, 0) share a position. */
  function Position(row: int, col: int): int {
    9 * row + col
  }

  /** Frame: every cell before position `p` and every non-zero cell of `g` is the same in `h`. */
  ghost predicate Keeps(g: Grid, h: Grid, p: int)
    requires IsGrid(g) && IsGrid(h)
  {
    forall i, j :: 0 <= i < 9 && 0 <= j < 9 && (Position(i, j) < p || g[i][j] != 0) ==> h[i][j] == g[i][j]
  }

  /** Every cell at position `p` or later that is empty in `g` is filled consistently in `h`. */
  ghost predicate CompletedFrom(g: Grid, h: Grid, p: int)
    requires IsGrid(g) && IsGrid(h)
  {
    forall i, j :: 0 <= i < 9 && 0 <= j < 9 && Position(i, j) >= p && g[i][j] == 0 ==> Consistent(h, i, j)
  }

  /** The contract of Search, TryDigits and Trial for a cursor at position `p`, as one predicate. */
  ghost predicate SearchSpec(g: Grid, p: int, o: Outcome)
    requires IsGrid(g)
  {
    && IsGrid(o.grid)
    && (!o.solved ==> o.grid == g)
    && Keeps(g, o.grid, p)
    && (o.solved ==> CompletedFrom(g, o.grid, p))
  }

  /**
   * solve(grid, row, col). On failure the grid comes back exactly as given; givens and the
   * cells before the cursor are never changed; on success every empty cell from the cursor on
   * holds a digit 1..9 that differs from all its peers.
   */
  function Search(g: Grid, row: int, col: int): (o: Outcome)
    requires IsGrid(g) && 0 <= row <= 8 && 0 <= col <= 9
    ensures IsGrid(o.grid)
    ensures !o.solved ==> o.grid == g
    ensures Keeps(g, o.grid, Position(row, col))
    ensures o.solved ==> CompletedFrom(g, o.grid, Position(row, col))
    decreases 81 - Position(row, col), 12
  {
    if row == 8 && col == 9 then Outcome(true, g)
    else
      var r, c := if col == 9 then row + 1 else row, if col == 9 then 0 else col;
      if g[r][c] != 0 then
        var o := Search(g, r, c + 1);
        GivenSkipped(g, r, c, o);
        o
      else TryDigits(g, r, c, 1)
  }

  /**
   * The digit loop of solve at the empty cell (r, c), from digit `num` on: the first trial
   * that succeeds ends the loop, and after digit 9 the search fails.
   */
  function TryDigits(g: Grid, r: int, c: int, num: int): (o: Outcome)
    requires IsGrid(g) && 0 <= r < 9 && 0 <= c < 9 && 1 <= num <= 10 && g[r][c] == 0
    ensures IsGrid(o.grid)
    ensures !o.solved ==> o.grid == g
    ensures Keeps(g, o.grid, Position(r, c))
    ensures o.solved ==> CompletedFrom(g, o.grid, Position(r, c))
    decreases 81 - Position(r, c), 11 - num
  {
    if num == 10 then Outcome(false, g)
    else
      var trial := Trial(g, r, c, num);
      if trial.solved then trial else TryDigits(trial.grid, r, c, num + 1)
  }

  /**
   * One pass of the digit loop: a digit passing isSafe is written and the search continues
   * at (r, c + 1); unless that succeeds, the cell is reset to 0.
   */
  function Trial(g: Grid, r: int, c: int, num: int): (o: Outcome)
    requires IsGrid(g) && 0 <= r < 9 && 0 <= c < 9 && 1 <= num <= 9 && g[r][c] == 0
    ensures IsGrid(o.grid)
    ensures !o.solved ==> o.grid == g
    ensures Keeps(g, o.grid, Position(r, c))
    ensures o.solved ==> CompletedFrom(g, o.grid, Position(r, c))
    decreases 81 - Position(r, c), 0
  {
    var next := if IsSafe(g, r, c, num) then Search(Set(g, r, c, num), r, c + 1) else Outcome(false, g);
    if next.solved then
      PlacementExtends(g, r, c, num, next.grid);
      next
    else
      SetRestores(g, r, c, num);
      Outcome(false, Set(next.grid, r, c, 0))
  }

  /** Skipping a given: a search from the next position is a search from the given's position. */
  lemma GivenSkipped(g: Grid, r: int, c: int, o: Outcome)
    requires IsGrid(g) && 0 <= r < 9 && 0 <= c < 9 && g[r][c] != 0
    requires SearchSpec(g, Position(r, c) + 1, o)
    ensures SearchSpec(g, Position(r, c), o)
  {
  }

  /**
   * The inductive step of a successful trial: a safe digit at (r, c) followed by a successful
   * search from the next position completes the search from (r, c).
   */
  lemma PlacementExtends(g: Grid, r: int, c: int, num: int, h: Grid)
    requires IsGrid(g) && IsGrid(h) && 0 <= r < 9 && 0 <= c < 9 && 1 <= num <= 9
    requires g[r][c] == 0 && IsSafe(g, r, c, num)
    requires Keeps(Set(g, r, c, num), h, Position(r, c) + 1)
    requires CompletedFrom(Set(g, r, c, num), h, Position(r, c) + 1)
    ensures Keeps(g, h, Position(r, c))
    ensures CompletedFrom(g, h, Position(r, c))
  {
    var g1 := Set(g, r, c, num);
    assert h[r][c] == num;
    forall i, j | 0 <= i < 9 && 0 <= j < 9 && Peers(r, c, i, j)
      ensures h[i][j] != num
    {
      if Position(i, j) > Position(r, c) && g[i][j] == 0 {
        assert Consistent(h, i, j);
        assert Peers(i, j, r, c);
      }
    }
    assert Consistent(h, r, c);
  }

  /** The cells at position `p` and later are all non-zero. */
  ghost predicate FullFrom(g: Grid, p: int)
    requires IsGrid(g)
  {
    forall i, j :: 0 <= i < 9 && 0 <= j < 9 && Position(i, j) >= p ==> g[i][j] != 0
  }

  /** A grid with no empty cell left from the cursor on is reported solved and left unchanged. */
  lemma {:induction false} FullGridSolved(g: Grid, row: int, col: int)
    requires IsGrid(g) && 0 <= row <= 8 && 0 <= col <= 9
    requires FullFrom(g, Position(row, col))
    ensures Search(g, row, col) == Outcome(true, g)
    decreases 81 - Position(row, col)
  {
    if row == 8 && col == 9 {
    } else {
      var r, c := if col == 9 then row + 1 else row, if col == 9 then 0 else col;
      assert g[r][c] != 0;
      FullGridSolved(g, r, c + 1);
    }
  }

  /**
   * solve(grid, 0, 0) as the solve handler calls it: on success no cell is empty, every
   * given is unchanged and every formerly empty cell is consistent with all its peers;
   * on failure the grid is untouched.
   */
  lemma SolveFromStart(g: Grid)
    requires IsGrid(g)
    ensures var o := Search(g, 0, 0);
      && IsGrid(o.grid)
      && (!o.solved ==> o.grid == g)
      && (forall i, j :: 0 <= i < 9 && 0 <= j < 9 && g[i][j] != 0 ==> o.grid[i][j] == g[i][j])
      && (o.solved ==> forall i, j :: 0 <= i < 9 && 0 <= j < 9 ==> o.grid[i][j] != 0)
      && (o.solved ==> forall i, j :: 0 <= i < 9 && 0 <= j < 9 && g[i][j] == 0 ==> Consistent(o.grid, i, j))
  {
    var o := Search(g, 0, 0);
    assert Keeps(g, o.grid, 0);
    if o.solved {
      assert CompletedFrom(g, o.grid, 0);
      forall i, j | 0 <= i < 9 && 0 <= j < 9
        ensures o.grid[i][j] != 0
      {
        if g[i][j] == 0 {
          assert Consistent(o.grid, i, j);
        }
      }
    }
  }

  /** The grid held by a 9×9 array, as a value. */
  function Snapshot(a: array2<int>): (g: Grid)
    requires a.Length0 == 9 && a.Length1 == 9
    reads a
    ensures IsGrid(g)
    ensures forall i, j :: 0 <= i < 9 && 0 <= j < 9 ==> g[i][j] == a[i, j]
  {
    seq(9, i requires 0 <= i < 9 reads a => seq(9, j requires 0 <= j < 9 reads a => a[i, j]))
  }

  /** Two well-shaped grids agreeing on every cell are equal. */
  lemma GridExt(g: Grid, h: Grid)
    requires IsGrid(g) && IsGrid(h)
    requires forall i, j :: 0 <= i < 9 && 0 <= j < 9 ==> g[i][j] == h[i][j]
    ensures g == h
  {
    forall i | 0 <= i < 9
      ensures g[i] == h[i]
    {
      assert forall j :: 0 <= j < 9 ==> g[i][j] == h[i][j];
    }
  }

  /** One step of the search: the cursor wrap, then the skip of a given or the digit loop. */
  lemma SearchUnfold(g: Grid, row: int, col: int, r: int, c: int)
    requires IsGrid(g) && 0 <= row <= 8 && 0 <= col <= 9 && !(row == 8 && col == 9)
    requires r == (if col == 9 then row + 1 else row) && c == (if col == 9 then 0 else col)
    ensures 0 <= r < 9 && 0 <= c < 9
    ensures g[r][c] != 0 ==> Search(g, row, col) == Search(g, r, c + 1)
    ensures g[r][c] == 0 ==> Search(g, row, col) == TryDigits(g, r, c, 1)
  {
  }

  /**
   * solve on a mutable 9×9 array, written as the source writes it: the grid is changed in
   * place, and the flag and final contents are those of Search.
   */
  method Solve(grid: array2<int>, row: int, col: int) returns (found: bool)
    requires grid.Length0 == 9 && grid.Length1 == 9
    requires 0 <= row <= 8 && 0 <= col <= 9
    modifies grid
    ensures found == Search(old(Snapshot(grid)), row, col).solved
    ensures Snapshot(grid) == Search(old(Snapshot(grid)), row, col).grid
    decreases 81 - Position(row, col), 2
  {
    if row == 8 && col == 9 {
      return true;
    }
    var r, c := row, col;
    if c == 9 {
      r, c := r + 1, 0;
    }
    SearchUnfold(Snapshot(grid), row, col, r, c);
    if grid[r, c] != 0 {
      found := Solve(grid, r, c + 1);
    } else {
      found := SolveCell(grid, r, c);
    }
  }

  /** The digit loop of solve at the empty cell (r, c), in place. */
  method SolveCell(grid: array2<int>, r: int, c: int) returns (found: bool)
    requires grid.Length0 == 9 && grid.Length1 == 9
    requires 0 <= r < 9 && 0 <= c < 9 && grid[r, c] == 0
    modifies grid
    ensures found == TryDigits(old(Snapshot(grid)), r, c, 1).solved
    ensures Snapshot(grid) == TryDigits(old(Snapshot(grid)), r, c, 1).grid
    decreases 81 - Position(r, c), 1
  {
    ghost var g0 := Snapshot(grid);
    var num := 1;
    while num < 10
      invariant 1 <= num <= 10
      invariant Snapshot(grid) == g0
      invariant TryDigits(g0, r, c, num) == TryDigits(g0, r, c, 1)
    {
      found := SolveDigit(grid, r, c, num);
      if found {
        return;
      }
      num := num + 1;
    }
    found := false;
  }

  /** One pass of the digit loop, in place. */
  method SolveDigit(grid: array2<int>, r: int, c: int, num: int) returns (found: bool)
    requires grid.Length0 == 9 && grid.Length1 == 9
    requires 0 <= r < 9 && 0 <= c < 9 && 1 <= num <= 9 && grid[r, c] == 0
    modifies grid
    ensures found == Trial(old(Snapshot(grid)), r, c, num).solved
    ensures Snapshot(grid) == Trial(old(Snapshot(grid)), r, c, num).grid
    decreases 81 - Position(r, c), 0
  {
    ghost var g0 := Snapshot(grid);
    var safe := CheckSafe(Snapshot(grid), r, c, num);
    if safe {
      assert IsSafe(g0, r, c, num);
      grid[r, c] := num;
      GridExt(Snapshot(grid), Set(g0, r, c, num));
      found := Solve(grid, r, c + 1);
      if found {
        return;
      }
    }
    grid[r, c] := 0;
    GridExt(Snapshot(grid), g0);
    found := false;
  }
}
