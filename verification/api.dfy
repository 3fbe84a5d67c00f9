/**
 * The decision logic of the two request handlers, /api/check and /api/solve, as pure
 * functions from the request fields to the response they produce.
 */
module Api {
  import opened Wrappers
  import opened Board
  import opened Codec
  import opened Validation
  import opened Placement
  import opened Coordinate
  import opened Solver

  /** Every error a handler can answer with. */
  datatype ApiError =
    | PuzzleInvalid(reason: PuzzleError)
    | RequiredFieldsMissing
    | InvalidCoordinate
    | InvalidValue
    | CannotBeSolved
  {
    /** The exact text reported under `error`. */
    function Message(): string {
      match this
      case PuzzleInvalid(reason) => reason.Message()
      case RequiredFieldsMissing => "Required field(s) missing"
      case InvalidCoordinate => "Invalid coordinate"
      case InvalidValue => "Invalid value"
      case CannotBeSolved => "Puzzle cannot be solved"
    }
  }

  /** A constraint family a placement violates. */
  datatype Conflict = RowConflict | ColumnConflict | RegionConflict {
    /** The name reported in the `conflict` list. */
    function Name(): string {
      match this
      case RowConflict => "row"
      case ColumnConflict => "column"
      case RegionConflict => "region"
    }

    /** Place in the fixed reporting order row, column, region. */
    function Rank(): int {
      match this
      case RowConflict => 0
      case ColumnConflict => 1
      case RegionConflict => 2
    }
  }

  /** Response of /api/check: an error, `{ valid: true }`, or `{ valid: false, conflict }`. */
  datatype CheckResponse = CheckError(error: ApiError) | Valid | Invalid(conflict: seq<Conflict>)

  /** Response of /api/solve: an error or the 81-character solution. */
  datatype SolveResponse = SolveError(error: ApiError) | Solved(solution: string)

  /** The cell a check request addresses, in the decoded grid. */
  datatype Target = Target(grid: Grid, row: int, col: int)

  /** The value test: the pattern /[^1-9]/ finds nothing, scanning from the left. */
  function IsDigitString(s: string): (ok: bool)
    ensures ok <==> forall i :: 0 <= i < |s| ==> '1' <= s[i] <= '9'
  {
    if |s| == 0 then true
    else if !('1' <= s[0] <= '9') then false
    else
      assert forall i :: 1 <= i < |s| ==> s[i] == s[1..][i - 1];
      IsDigitString(s[1..])
  }

  /** parseInt on a non-empty string of digits 1..9, read left to right. */
  function ParseDecimal(s: string): (n: int)
    requires |s| > 0 && IsDigitString(s)
    ensures |s| == 1 ==> s[0] as int == '0' as int + n
    ensures |s| >= 2 ==> n >= 11
    ensures n >= 1
  {
    var last := s[|s| - 1] as int - '0' as int;
    if |s| == 1 then last else ParseDecimal(s[..|s| - 1]) * 10 + last
  }

  /** Writing the parsed number back in decimal gives the digits it was read from. */
  lemma {:induction false} ParseDecimalRoundTrip(s: string)
    requires |s| > 0 && IsDigitString(s)
    ensures NumberText(ParseDecimal(s)) == s
  {
    var last := s[|s| - 1] as int - '0' as int;
    if |s| > 1 {
      var p := ParseDecimal(s[..|s| - 1]);
      ParseDecimalRoundTrip(s[..|s| - 1]);
      assert (p * 10 + last) / 10 == p && (p * 10 + last) % 10 == last;
      assert s == s[..|s| - 1] + [s[|s| - 1]];
    }
  }

  /**
   * The conflict list: "row", "column", "region", each present exactly when its check
   * fails, in that fixed order.
   */
  function Conflicts(g: Grid, row: int, col: int, num: int): (cs: seq<Conflict>)
    requires IsGrid(g) && 0 <= row < 9 && 0 <= col < 9
    ensures RowConflict in cs <==> !RowFree(g, row, num)
    ensures ColumnConflict in cs <==> !ColFree(g, col, num)
    ensures RegionConflict in cs <==> !RegionFree(g, row, col, num)
    ensures forall i, j :: 0 <= i < j < |cs| ==> cs[i].Rank() < cs[j].Rank()
    ensures |cs| == 0 <==> IsSafe(g, row, col, num)
  {
    (if !RowFree(g, row, num) then [RowConflict] else [])
    + (if !ColFree(g, col, num) then [ColumnConflict] else [])
    + (if !RegionFree(g, row, col, num) then [RegionConflict] else [])
  }

  /**
   * The verdict once every input is accepted: valid when the digit is safe or the cell already
   * holds it, otherwise not valid together with the failing checks.
   */
  function Verdict(g: Grid, row: int, col: int, num: int): (r: CheckResponse)
    requires IsGrid(g) && 0 <= row < 9 && 0 <= col < 9
    ensures r.Valid? || r.Invalid?
    ensures r.Valid? <==> IsSafe(g, row, col, num) || g[row][col] == num
    ensures r.Invalid? ==> |r.conflict| > 0 && r.conflict == Conflicts(g, row, col, num)
  {
    var valid := IsSafe(g, row, col, num) || HoldsValue(g, row, col, num);
    if valid then Valid else Invalid(Conflicts(g, row, col, num))
  }

  /**
   * Confirming the digit a cell already holds is answered valid, although the placement checks
   * alone would refuse it, since they see the digit in the target cell itself.
   */
  lemma ConfirmingHeldValueIsValid(g: Grid, row: int, col: int, num: int)
    requires IsGrid(g) && 0 <= row < 9 && 0 <= col < 9 && HoldsValue(g, row, col, num)
    ensures !IsSafe(g, row, col, num)
    ensures Verdict(g, row, col, num) == Valid
  {
    assert g[row][col] == num;
  }

  /** A digit the placement checks accept, written into its cell, is consistent with every peer. */
  lemma SafePlacementIsConsistent(g: Grid, row: int, col: int, num: int)
    requires IsGrid(g) && 0 <= row < 9 && 0 <= col < 9 && 1 <= num <= 9
    requires IsSafe(g, row, col, num)
    ensures Consistent(Set(g, row, col, num), row, col)
  {
  }

  /**
   * The first steps of /api/check: puzzle validation, the presence test of all three fields,
   * decoding, and the coordinate test.
   */
  function Locate(puzzle: Option<string>, coordinate: Option<string>, value: Option<string>): (t: Result<Target, ApiError>)
    ensures ValidatePuzzle(puzzle).Some? ==> t == Failure(PuzzleInvalid(ValidatePuzzle(puzzle).value))
    ensures IsValidPuzzle(puzzle) && !(Present(coordinate) && Present(value)) ==> t == Failure(RequiredFieldsMissing)
    ensures t == Failure(InvalidCoordinate) <==>
      IsValidPuzzle(puzzle) && Present(coordinate) && Present(value) && ResolveCoordinate(coordinate.value).None?
    ensures t.Success? <==>
      IsValidPuzzle(puzzle) && Present(coordinate) && Present(value) && ResolveCoordinate(coordinate.value).Some?
    ensures t.Success? ==>
      && IsGrid(t.value.grid) && t.value.grid == Decode(puzzle.value)
      && ResolveCoordinate(coordinate.value) == Some((t.value.row, t.value.col))
  {
    match ValidatePuzzle(puzzle)
    case Some(e) => Failure(PuzzleInvalid(e))
    case None =>
      if !Present(puzzle) || !Present(coordinate) || !Present(value) then Failure(RequiredFieldsMissing)
      else
        var grid := Decode(puzzle.value);
        match ResolveCoordinate(coordinate.value)
        case None => Failure(InvalidCoordinate)
        case Some(cell) => Success(Target(grid, cell.0, cell.1))
  }

  /**
   * /api/check as written: any puzzle error first, then missing fields, then the coordinate,
   * then the value; only then the verdict for the parsed number.
   */
  function Check(puzzle: Option<string>, coordinate: Option<string>, value: Option<string>): (r: CheckResponse)
    ensures ValidatePuzzle(puzzle).Some? ==> r == CheckError(PuzzleInvalid(ValidatePuzzle(puzzle).value))
    ensures IsValidPuzzle(puzzle) && !(Present(coordinate) && Present(value)) ==> r == CheckError(RequiredFieldsMissing)
    ensures r == CheckError(InvalidCoordinate) <==>
      IsValidPuzzle(puzzle) && Present(coordinate) && Present(value) && ResolveCoordinate(coordinate.value).None?
    ensures r == CheckError(InvalidValue) <==>
      && IsValidPuzzle(puzzle) && Present(coordinate) && Present(value)
      && ResolveCoordinate(coordinate.value).Some?
      && exists i :: 0 <= i < |value.value| && !('1' <= value.value[i] <= '9')
    ensures (IsValidPuzzle(puzzle) && Present(coordinate) && Present(value)
             && ResolveCoordinate(coordinate.value).Some? && IsDigitString(value.value)) ==> !r.CheckError?
    ensures !r.CheckError? ==>
      && IsValidPuzzle(puzzle) && Present(coordinate) && Present(value) && IsDigitString(value.value)
      && var cell := ResolveCoordinate(coordinate.value).value;
         r == Verdict(Decode(puzzle.value), cell.0, cell.1, ParseDecimal(value.value))
  {
    match Locate(puzzle, coordinate, value)
    case Failure(e) => CheckError(e)
    case Success(t) =>
      if !IsDigitString(value.value) then CheckError(InvalidValue)
      else Verdict(t.grid, t.row, t.col, ParseDecimal(value.value))
  }

  /**
   * /api/check with the value restricted to a single digit 1..9, as the "Invalid value"
   * error is meant to enforce.
   */
  function CheckSingleDigit(puzzle: Option<string>, coordinate: Option<string>, value: Option<string>): (r: CheckResponse)
    ensures ValidatePuzzle(puzzle).Some? ==> r == CheckError(PuzzleInvalid(ValidatePuzzle(puzzle).value))
    ensures IsValidPuzzle(puzzle) && !(Present(coordinate) && Present(value)) ==> r == CheckError(RequiredFieldsMissing)
    ensures r == CheckError(InvalidCoordinate) <==>
      IsValidPuzzle(puzzle) && Present(coordinate) && Present(value) && ResolveCoordinate(coordinate.value).None?
    ensures !(value.Some? && |value.value| >= 2 && IsDigitString(value.value)) ==> r == Check(puzzle, coordinate, value)
    ensures r == CheckError(InvalidValue) <==>
      && IsValidPuzzle(puzzle) && Present(coordinate) && Present(value)
      && ResolveCoordinate(coordinate.value).Some?
      && !(|value.value| == 1 && '1' <= value.value[0] <= '9')
    ensures (IsValidPuzzle(puzzle) && Present(coordinate) && Present(value)
             && ResolveCoordinate(coordinate.value).Some?
             && |value.value| == 1 && '1' <= value.value[0] <= '9') ==> !r.CheckError?
    ensures !r.CheckError? ==>
      && IsValidPuzzle(puzzle) && Present(coordinate) && ResolveCoordinate(coordinate.value).Some?
      && value.Some? && |value.value| == 1 && '1' <= value.value[0] <= '9'
      && var num := value.value[0] as int - '0' as int;
         var cell := ResolveCoordinate(coordinate.value).value;
         r == Verdict(Decode(puzzle.value), cell.0, cell.1, num)
  {
    match Locate(puzzle, coordinate, value)
    case Failure(e) => CheckError(e)
    case Success(t) =>
      if |value.value| != 1 || !('1' <= value.value[0] <= '9') then CheckError(InvalidValue)
      else Verdict(t.grid, t.row, t.col, value.value[0] as int - '0' as int)
  }

  /** On one-character values the corrected handler answers exactly as the original. */
  lemma SingleDigitAgrees(puzzle: Option<string>, coordinate: Option<string>, value: Option<string>)
    requires value.Some? && |value.value| == 1
    ensures CheckSingleDigit(puzzle, coordinate, value) == Check(puzzle, coordinate, value)
  {
  }

  /**
   * The original handler accepts a multi-digit value such as "12": the pattern test passes,
   * parseInt yields a number no cell can hold, so every check passes and the answer is valid.
   */
  lemma MultiDigitValueReportedValid(puzzle: Option<string>, coordinate: Option<string>, value: Option<string>)
    requires IsValidPuzzle(puzzle) && Present(coordinate) && ResolveCoordinate(coordinate.value).Some?
    requires value.Some? && |value.value| >= 2 && IsDigitString(value.value)
    ensures Check(puzzle, coordinate, value) == Valid
    ensures CheckSingleDigit(puzzle, coordinate, value) == CheckError(InvalidValue)
  {
    var g := Decode(puzzle.value);
    var cell := ResolveCoordinate(coordinate.value).value;
    var num := ParseDecimal(value.value);
    assert forall i, j :: 0 <= i < 9 && 0 <= j < 9 ==> 0 <= g[i][j] <= 9 < num;
  }

  /**
   * /api/solve: a puzzle error is answered as it is; otherwise the decoded grid is searched
   * from (0, 0) and, on success, flattened back to text.
   */
  function SolvePuzzle(puzzle: Option<string>): (r: SolveResponse)
    ensures ValidatePuzzle(puzzle).Some? ==> r == SolveError(PuzzleInvalid(ValidatePuzzle(puzzle).value))
    ensures IsValidPuzzle(puzzle) ==> (r.Solved? <==> Search(Decode(puzzle.value), 0, 0).solved)
    ensures IsValidPuzzle(puzzle) && r.SolveError? ==> r.error == CannotBeSolved
  {
    match ValidatePuzzle(puzzle)
    case Some(e) => SolveError(PuzzleInvalid(e))
    case None =>
      var o := Search(Decode(puzzle.value), 0, 0);
      if !o.solved then SolveError(CannotBeSolved) else Solved(Encode(o.grid))
  }

  /**
   * `solution` completes `puzzle`: 81 digits 1..9, equal to the puzzle at every given, and
   * at every blank a digit no peer position holds.
   */
  ghost predicate CompletesText(puzzle: string, solution: string)
    requires |puzzle| == 81
  {
    && |solution| == 81
    && (forall k :: 0 <= k < 81 ==> '1' <= solution[k] <= '9')
    && (forall k :: 0 <= k < 81 && puzzle[k] != '.' ==> solution[k] == puzzle[k])
    && (forall k, m :: 0 <= k < 81 && 0 <= m < 81 && puzzle[k] == '.' && Peers(k / 9, k % 9, m / 9, m % 9) ==>
          solution[k] != solution[m])
  }

  /** A solution the solve handler returns completes the puzzle it was given. */
  lemma SolutionCompletesPuzzle(puzzle: Option<string>)
    requires IsValidPuzzle(puzzle)
    ensures SolvePuzzle(puzzle).Solved? ==> CompletesText(puzzle.value, SolvePuzzle(puzzle).solution)
  {
    var g := Decode(puzzle.value);
    SolveFromStart(g);
    var o := Search(g, 0, 0);
    if o.solved {
      assert SolvePuzzle(puzzle).solution == Encode(o.grid);
      CompletedGridText(puzzle.value, o.grid);
    }
  }

  /** The text of a grid that keeps the puzzle's givens and fills its blanks consistently completes the puzzle. */
  lemma CompletedGridText(p: string, h: Grid)
    requires |p| == 81 && AllPuzzleChars(p) && IsGrid(h)
    requires forall i, j :: 0 <= i < 9 && 0 <= j < 9 && Decode(p)[i][j] != 0 ==> h[i][j] == Decode(p)[i][j]
    requires forall i, j :: 0 <= i < 9 && 0 <= j < 9 && Decode(p)[i][j] == 0 ==> Consistent(h, i, j)
    ensures CompletesText(p, Encode(h))
  {
    CompletedGridDigits(p, h);
    var sol := Encode(h);
    TextPositions(p, h);
    forall k | 0 <= k < 81 && p[k] != '.'
      ensures sol[k] == p[k]
    {
      assert h[k / 9][k % 9] == Decode(p)[k / 9][k % 9] == CellValue(p[k]);
    }
    forall k, m | 0 <= k < 81 && 0 <= m < 81 && p[k] == '.' && Peers(k / 9, k % 9, m / 9, m % 9)
      ensures sol[k] != sol[m]
    {
      var r, c := k / 9, k % 9;
      assert Decode(p)[r][c] == 0;
      assert Consistent(h, r, c);
      assert h[m / 9][m % 9] != h[r][c];
    }
  }

  /** Such a grid holds digits 1..9 only. */
  lemma CompletedGridDigits(p: string, h: Grid)
    requires |p| == 81 && AllPuzzleChars(p) && IsGrid(h)
    requires forall i, j :: 0 <= i < 9 && 0 <= j < 9 && Decode(p)[i][j] != 0 ==> h[i][j] == Decode(p)[i][j]
    requires forall i, j :: 0 <= i < 9 && 0 <= j < 9 && Decode(p)[i][j] == 0 ==> Consistent(h, i, j)
    ensures forall i, j :: 0 <= i < 9 && 0 <= j < 9 ==> 1 <= h[i][j] <= 9
  {
    forall i, j | 0 <= i < 9 && 0 <= j < 9
      ensures 1 <= h[i][j] <= 9
    {
      if Decode(p)[i][j] == 0 {
        assert Consistent(h, i, j);
      }
    }
  }

  /** Position k of the puzzle and of the grid's text both stand for cell (k / 9, k % 9). */
  lemma TextPositions(p: string, h: Grid)
    requires |p| == 81 && AllPuzzleChars(p) && IsGrid(h)
    requires forall i, j :: 0 <= i < 9 && 0 <= j < 9 ==> 1 <= h[i][j] <= 9
    ensures |Encode(h)| == 81
    ensures forall k :: 0 <= k < 81 ==> Encode(h)[k] == DigitChar(h[k / 9][k % 9])
    ensures forall k :: 0 <= k < 81 ==> Decode(p)[k / 9][k % 9] == CellValue(p[k])
  {
    var sol := Encode(h);
    forall k | 0 <= k < 81
      ensures sol[k] == DigitChar(h[k / 9][k % 9])
      ensures Decode(p)[k / 9][k % 9] == CellValue(p[k])
    {
      assert k == 9 * (k / 9) + k % 9;
    }
  }

  /**
   * A blank-free valid puzzle is returned as its own solution, whether or not its givens
   * agree with one another: the solver never re-checks givens.
   */
  lemma FullPuzzleReturnedUnchanged(p: string)
    requires IsValidPuzzle(Some(p))
    requires forall k :: 0 <= k < 81 ==> p[k] != '.'
    ensures SolvePuzzle(Some(p)) == Solved(p)
  {
    var g := Decode(p);
    forall i, j | 0 <= i < 9 && 0 <= j < 9
      ensures g[i][j] != 0
    {
      assert p[9 * i + j] != '.';
    }
    FullGridSolved(g, 0, 0);
    EncodeDecodeNoBlanks(p);
  }
}
