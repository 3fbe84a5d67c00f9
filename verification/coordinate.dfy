/** Translation of a coordinate such as "A1" into zero-based (row, column) indices. */
module Coordinate {
  import opened Wrappers

  /** String#toUpperCase restricted to the ASCII letters. */
  function ToUpper(ch: char): char {
    if 'a' <= ch <= 'z' then ((ch as int) - 32) as char else ch
  }

  /** A row letter A..I in either case. */
  predicate IsRowLetter(ch: char) {
    'A' <= ch <= 'I' || 'a' <= ch <= 'i'
  }

  /**
   * rowLetterToNumber: the upper-cased letter looked up in the table A..I -> 0..8.
   * `None` replaces the NaN returned for every other character.
   */
  function RowLetterToIndex(letter: char): (row: Option<int>)
    ensures row.Some? <==> IsRowLetter(letter)
    ensures row.Some? ==> 0 <= row.value < 9
    ensures row.Some? ==> letter as int - row.value in {'A' as int, 'a' as int}
  {
    match ToUpper(letter)
    case 'A' => Some(0)
    case 'B' => Some(1)
    case 'C' => Some(2)
    case 'D' => Some(3)
    case 'E' => Some(4)
    case 'F' => Some(5)
    case 'G' => Some(6)
    case 'H' => Some(7)
    case 'I' => Some(8)
    case _ => None
  }

  /** parseInt applied to one character: its value for '0'..'9', `None` (NaN) otherwise. */
  function ParseDigit(ch: char): (d: Option<int>)
    ensures d.Some? <==> '0' <= ch <= '9'
    ensures d.Some? ==> 0 <= d.value <= 9 && ch as int == '0' as int + d.value
  {
    if '0' <= ch <= '9' then Some(ch as int - '0' as int) else None
  }

  /**
   * The coordinate test of the check handler: the row from the first character, the column
   * from the second minus one, refused unless both resolve and the column is in 0..8.
   * A missing second character parses to NaN and is refused too.
   */
  function ResolveCoordinate(coordinate: string): (cell: Option<(int, int)>)
    requires |coordinate| > 0
    ensures cell.Some? <==> |coordinate| >= 2 && IsRowLetter(coordinate[0]) && '1' <= coordinate[1] <= '9'
    ensures cell.Some? ==> 0 <= cell.value.0 < 9 && 0 <= cell.value.1 < 9
    ensures cell.Some? ==> Some(cell.value.0) == RowLetterToIndex(coordinate[0])
    ensures cell.Some? ==> coordinate[1] as int == '1' as int + cell.value.1
  {
    var row := RowLetterToIndex(coordinate[0]);
    var col := if |coordinate| >= 2 then ParseDigit(coordinate[1]) else None;
    if row.None? || col.None? || col.value - 1 < 0 || col.value - 1 > 8 then None
    else Some((row.value, col.value - 1))
  }

  /** Upper and lower case name the same row, and letter i of "ABCDEFGHI" names row i. */
  lemma RowLetterTable(i: int)
    requires 0 <= i < 9
    ensures RowLetterToIndex("ABCDEFGHI"[i]) == Some(i)
    ensures RowLetterToIndex("abcdefghi"[i]) == Some(i)
  {
  }

  /** Only the first two characters are consulted: "A10" resolves like "A1". */
  lemma OnlyTwoCharactersMatter(coordinate: string)
    requires |coordinate| >= 2
    ensures ResolveCoordinate(coordinate) == ResolveCoordinate(coordinate[..2])
  {
  }
}
