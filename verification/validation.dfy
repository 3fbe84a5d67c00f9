/** Structural validation of a puzzle string (SudokuSolver.validatePuzzle). */
module Validation {
  import opened Wrappers
  import opened Codec

  /** The three ways a puzzle string can be refused, in the order they are tested. */
  datatype PuzzleError = RequiredFieldMissing | InvalidCharacters | WrongLength {
    /** The exact text reported under `error`. */
    function Message(): string {
      match this
      case RequiredFieldMissing => "Required field missing"
      case InvalidCharacters => "Invalid characters in puzzle"
      case WrongLength => "Expected puzzle to be 81 characters long"
    }
  }

  /** A request field that JavaScript treats as truthy: present and not the empty string. */
  predicate Present(field: Option<string>) {
    field.Some? && |field.value| > 0
  }

  /** A puzzle string the solver and the codec accept: 81 characters, each 1..9 or '.'. */
  predicate IsValidPuzzle(puzzle: Option<string>) {
    puzzle.Some? && |puzzle.value| == 81 && AllPuzzleChars(puzzle.value)
  }

  /** The scan of the pattern /[^1-9.]/: does some character fall outside the puzzle alphabet? */
  function HasInvalidChar(s: string): (found: bool)
    ensures found <==> exists i :: 0 <= i < |s| && !IsPuzzleChar(s[i])
  {
    if |s| == 0 then false
    else if !IsPuzzleChar(s[0]) then true
    else
      assert forall i :: 1 <= i < |s| ==> s[i] == s[1..][i - 1];
      HasInvalidChar(s[1..])
  }

  /**
   * Validates a puzzle field. `None` means no error. Absence is tested first, then the
   * character set, and the length only last.
   */
  function ValidatePuzzle(puzzle: Option<string>): (err: Option<PuzzleError>)
    ensures err.None? <==> IsValidPuzzle(puzzle)
    ensures err == Some(RequiredFieldMissing) <==> !Present(puzzle)
    ensures err == Some(InvalidCharacters) <==>
      Present(puzzle) && exists i :: 0 <= i < |puzzle.value| && !IsPuzzleChar(puzzle.value[i])
    ensures err == Some(WrongLength) <==>
      Present(puzzle) && AllPuzzleChars(puzzle.value) && |puzzle.value| != 81
  {
    if !Present(puzzle) then Some(RequiredFieldMissing)
    else if HasInvalidChar(puzzle.value) then Some(InvalidCharacters)
    else if |puzzle.value| != 81 then Some(WrongLength)
    else None
  }

  /** A character error wins over a length error: the text of a too-short or too-long bad string names its characters. */
  lemma CharacterErrorBeforeLength(s: string, i: int)
    requires 0 <= i < |s| && !IsPuzzleChar(s[i])
    ensures ValidatePuzzle(Some(s)) == Some(InvalidCharacters)
  {
  }
}
