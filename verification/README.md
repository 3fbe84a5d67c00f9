# Sudoku solver engine in Dafny

This project models the engine of a small Sudoku web service and proves properties of it. The engine is the `SudokuSolver` class and the two request handlers `/api/check` and `/api/solve`. The model has these parts:

- **Validation** (`Validation`). `validatePuzzle` runs three checks in a fixed order: a missing or empty field first, then a character outside `1`–`9` and `.`, and the length of 81 last.
- **Codec** (`Codec`). `strToGrid` reads the puzzle text as rows of nine cells, with `.` read as 0. The solve handler writes a grid back as text with `grid.flat().join("")`.
- **Placement checks** (`Placement`). The row, column and 3×3-region scans each look at the whole unit, the target cell included. `isSafe` is their conjunction.
- **Coordinates** (`Coordinate`). `rowLetterToNumber` maps a letter to a row. The check handler reads the column from the coordinate's second character.
- **Backtracking search** (`Solver`). `solve` is modelled twice:
  - as pure functions (`Search`, `TryDigits`, `Trial`) that return the success flag together with the grid as the call leaves it;
  - as the in-place recursion over a mutable 9×9 array (`Solve`, `SolveCell`, `SolveDigit`), proved to agree with the functions.
- **Handlers** (`Api`). Each handler is a pure function from the request fields to a response datatype: an error with its exact message, `valid`, `not valid` with a conflict list, or a solution string.

The class's methods are grouped into modules by concern, and each handler is a function in `Api`. `Board` holds the grid type and the peer relation, and `Wrappers` holds `Option` and `Result`. The number of rows, columns and digits is fixed at 9, as in the source.

Two details of the code matter here:
- `strToGrid` does not require 81 characters. It builds one row per nine characters and drops any trailing partial row, so `Codec.Decode` is defined for every length.
- The value test of `/api/check` rejects only characters outside `1`–`9`. It does not require a single character (see Findings).

## Model

| member | source | states |
|---|---|---|
| Validation.ValidatePuzzle | controllers/sudoku-solver.js:2-10 | No error exactly when the field is present, is 81 characters long and uses only 1–9 and '.'. "Required field missing" exactly when the field is absent or empty. "Invalid characters in puzzle" exactly when some character is outside the alphabet, whatever the length. "Expected puzzle to be 81 characters long" exactly when the field is non-empty, uses only the alphabet and has the wrong length |
| Validation.HasInvalidChar | controllers/sudoku-solver.js:5-6 | The pattern scan finds something exactly when some position holds a character other than 1–9 or '.' |
| Validation.CharacterErrorBeforeLength | controllers/sudoku-solver.js:5-9 | A string with a bad character reports the character error even when its length is also wrong |
| Codec.CellValue | controllers/sudoku-solver.js:74 | A puzzle character stands for a number in 0..9: 0 exactly for '.', otherwise the digit the character writes |
| Codec.Decode | controllers/sudoku-solver.js:68-81 | For text over the puzzle alphabet: there are |s|/9 rows of 9 cells, and cell (r, c) is the value of character 9r+c |
| Codec.Encode | routes/api.js:52 | For rows of nine cells in 0..9: the text has nine characters per row, and character 9r+c is the digit of cell (r, c) |
| Codec.DecodedText | routes/api.js:47-52 | Re-encoding decoded text keeps its length, and character k becomes the digit of the cell that character k stands for |
| Codec.EncodeDecode | routes/api.js:47-52 | Re-encoding decoded text gives the text back with every '.' written as '0' |
| Codec.EncodeDecodeNoBlanks | routes/api.js:47-52 | For an 81-character text with no '.', encode(decode(s)) == s |
| Codec.DecodeEncode | controllers/sudoku-solver.js:68-81 | The text of a 9×9 grid of digits 1..9 uses only the puzzle alphabet and decodes back to the same grid |
| Placement.RegionStart | controllers/sudoku-solver.js:32-33 | The block origin row - row % 3 is a multiple of 3 and the row lies within the three rows it starts |
| Placement.RegionStartSameThird | controllers/sudoku-solver.js:32-37 | A row lies in the three rows starting at another row's block origin exactly when both rows have the same quotient by 3 |
| Placement.CheckRowPlacement | controllers/sudoku-solver.js:17-22 | The scan returns true exactly when no column of the row holds num |
| Placement.CheckColPlacement | controllers/sudoku-solver.js:24-29 | The scan returns true exactly when no row of the column holds num |
| Placement.CheckRegionPlacement | controllers/sudoku-solver.js:31-41 | The nested scan from the block origin returns true exactly when no cell of the 3×3 block holds num |
| Placement.RegionFreeIff | controllers/sudoku-solver.js:31-41 | The origin-based region check is the same as "no cell whose row and column have the target's quotients by 3 holds num" |
| Placement.IsSafe | controllers/sudoku-solver.js:83-89 | isSafe is false exactly when num already sits in some cell sharing a row, column or region with the target, the target itself included |
| Placement.HoldsValue | controllers/sudoku-solver.js:12-15 | checkValueInCoord holds exactly when the cell already holds num. Such a cell makes the row, column and region checks, and so isSafe, fail on the target itself |
| Placement.CheckSafe | controllers/sudoku-solver.js:83-89 | The three scans joined by && return true exactly when no cell of the target's row, column or region holds num |
| Coordinate.RowLetterToIndex | controllers/sudoku-solver.js:43-66 | A row index exists exactly for the letters A–I and a–i. It lies in 0..8 and is the letter's offset from 'A' or from 'a'. Every other character gives None, where the source gives NaN |
| Coordinate.RowLetterTable | controllers/sudoku-solver.js:43-66 | Letter i of "ABCDEFGHI" and of "abcdefghi" both map to row i |
| Coordinate.ParseDigit | routes/api.js:20 | parseInt of one character gives a value exactly for '0'..'9', and that value is the digit |
| Coordinate.ResolveCoordinate | routes/api.js:19-24 | A cell is found exactly when the coordinate has at least two characters, a row letter first and a digit 1–9 second. The row is that letter's index and the column is the digit minus one |
| Coordinate.OnlyTwoCharactersMatter | routes/api.js:19-20 | A coordinate resolves exactly as its first two characters do, so "A10" resolves as "A1" |
| Solver.Search | controllers/sudoku-solver.js:91-135 | On failure the grid is returned exactly as given. Givens and the cells before the cursor are never changed. On success every cell from the cursor on that was empty holds a digit 1..9 that no peer holds |
| Solver.TryDigits | controllers/sudoku-solver.js:114-134 | The loop over digits 1..9 at an empty cell keeps the same promises. When no digit succeeds, the grid is as it was before the loop |
| Solver.Trial | controllers/sudoku-solver.js:118-132 | One loop pass: after a failed trial the cell is back to 0 and the grid is unchanged. A successful trial completes the search from this cell |
| Solver.GivenSkipped | controllers/sudoku-solver.js:112 | Skipping a non-zero cell to (row, col + 1) keeps the search's promises at the skipped cell |
| Solver.PlacementExtends | controllers/sudoku-solver.js:118-127 | A digit that passes isSafe, followed by a successful search from the next cell, leaves that digit consistent with every peer in the final grid |
| Solver.SearchUnfold | controllers/sudoku-solver.js:98-112 | For any cursor other than (8, 9), a col == 9 cursor wraps to the next row. A non-zero cell is skipped, and an empty cell enters the digit loop. These are the unfolding steps the in-place Solve relies on |
| Solver.FullGridSolved | controllers/sudoku-solver.js:98-112 | A grid with no empty cell from the cursor on is reported solved and left unchanged |
| Solver.SolveFromStart | controllers/sudoku-solver.js:91-135 | From (0, 0): on failure the grid is untouched and every given is kept. On success no cell is 0, and every formerly empty cell holds a digit 1..9 different from all its peers |
| Solver.Solve | controllers/sudoku-solver.js:91-112 | The in-place recursion returns the flag of Search and leaves the array holding Search's grid |
| Solver.SolveCell | controllers/sudoku-solver.js:114-134 | The in-place digit loop returns the flag and grid of TryDigits |
| Solver.SolveDigit | controllers/sudoku-solver.js:118-132 | One in-place pass returns the flag and grid of Trial. It decides isSafe with the scans of CheckSafe, then writes, recurses and resets the cell to 0 |
| Board.SetRestores | controllers/sudoku-solver.js:123-132 | Writing a trial digit and then writing back the cell's old value restores the grid |
| Api.IsDigitString | routes/api.js:26 | The left-to-right scan of the pattern /[^1-9]/ finds nothing exactly when every character of the value is a digit 1–9 |
| Api.ParseDecimal | routes/api.js:21 | parseInt of a string of digits 1..9 is at least 1. A single character gives its own digit, and two or more characters give at least 11 |
| Api.ParseDecimalRoundTrip | routes/api.js:21 | Writing the parsed number in decimal gives back the string it was read from |
| Api.Conflicts | routes/api.js:32-37 | "row", "column" and "region" each appear exactly when their check fails, in that fixed order. The list is empty exactly when isSafe holds |
| Api.Verdict | routes/api.js:28-39 | Valid exactly when the digit is safe or the cell already holds it. Otherwise the answer is not valid, with a non-empty conflict list |
| Api.ConfirmingHeldValueIsValid | controllers/sudoku-solver.js:12-15 | When the cell already holds num, isSafe alone refuses it, because the checks see num in the target cell itself. The check's verdict is still valid |
| Api.SafePlacementIsConsistent | routes/api.js:28-30 | A digit 1..9 that passes isSafe, once written into its cell, differs from every peer |
| Api.Locate | routes/api.js:11-24 | A puzzle error is returned as it is. Then a missing coordinate or value gives "Required field(s) missing", and an unresolvable coordinate gives "Invalid coordinate". Success exactly when all of these pass, carrying the decoded grid and the resolved cell |
| Api.Check | routes/api.js:8-40 | Errors come in the source's order: puzzle errors, then missing fields, then "Invalid coordinate", then "Invalid value". "Invalid value" is returned exactly when the first three pass and the value has a character outside 1–9. When all four pass, the answer is never an error and is the verdict for parseInt(value) at the resolved cell |
| Api.CheckSingleDigit | routes/api.js:8-40 | Corrected check. It answers puzzle errors, missing fields and bad coordinates as Check does, and it differs from Check only on values of two or more digits 1–9. "Invalid value" comes exactly when the earlier checks pass and the value is not one digit 1–9. When every check passes, the answer is the verdict for that digit, conflict list included |
| Api.SingleDigitAgrees | routes/api.js:26-30 | On one-character values the corrected and the original check give the same response |
| Api.MultiDigitValueReportedValid | routes/api.js:21-30 | As written, a value of two or more digits 1–9 at any resolved cell of any valid puzzle is answered valid. The corrected check answers "Invalid value" |
| Api.SolvePuzzle | routes/api.js:42-55 | A puzzle error is returned as it is. For a valid puzzle a solution is returned exactly when the search from (0, 0) succeeds, and otherwise the error is "Puzzle cannot be solved" |
| Api.SolutionCompletesPuzzle | routes/api.js:47-54 | For a valid puzzle, a returned solution has 81 characters, all digits 1–9, and equals the puzzle at every given. At every '.' it holds a digit no peer position holds |
| Api.CompletedGridText | routes/api.js:52 | The text of a grid that keeps the puzzle's givens and fills its blanks consistently completes the puzzle text |
| Api.FullPuzzleReturnedUnchanged | routes/api.js:42-55 | A valid puzzle without '.' is returned as its own solution, even when its givens clash, because the search never re-checks givens |

## Findings

| source | as written | input that shows it | evidently intended | confidence | as-written member | corrected member |
|---|---|---|---|---|---|---|
| routes/api.js:21-30 | The value test only rejects characters outside 1–9, and `parseInt(value)` then reads the whole string. A value such as "12" becomes 12, which no cell holds, so every placement check passes and the answer is `{ valid: true }` | any valid puzzle, coordinate "A1", value "12" | A value is one digit 1–9, and "12" is answered "Invalid value" | medium, not executed | Api.MultiDigitValueReportedValid | Api.CheckSingleDigit |

## Left out

- The Express wiring is not modelled: route registration, `req.body`, `res.json` and the server module. The handlers are pure functions returning a response datatype.
- The chai test suites are not modelled. Their sample-puzzle vectors serve as documentation and are not evaluated in proofs: the end-to-end solution, the unsolvable "999…" puzzle and the A1 checks.
- Request fields of types other than strings (numbers, arrays, objects) are left out. A field is an `Option<string>`, and JavaScript's falsy test is "absent or empty".
- Coordinate.RowLetterToIndex: only ASCII letters are upper-cased. JavaScript's `toUpperCase` also maps the dotless ı (U+0131) to "I", so the source accepts "ı1" as row I.
- Api.ParseDecimal: integers are unbounded. Above 2^53, `parseInt` loses precision, but such a number still matches no cell, so no response changes.
- Codec.Decode: defined only for text over the puzzle alphabet. A '0' would be stored as 0, and any other character outside the alphabet would be stored as NaN by `parseInt`. Both callers validate the text first.
- The single shared solver instance is left out. The engine has no state, so it is a set of module-level functions.
- Running time and the lack of any timeout are not modelled.
- Two properties of the search are not stated: completeness (it succeeds whenever some consistent completion exists) and that it returns the first solution in ascending digit order.
