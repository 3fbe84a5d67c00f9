/** Conversion between the 81-character puzzle text and the numeric grid. */
module Codec {
  import opened Board

  /** A character the puzzle text may contain: a digit 1..9 or the blank marker '.'. */
  predicate IsPuzzleChar(ch: char) {
    '1' <= ch <= '9' || ch == '.'
  }

  /** Every character of `s` is a digit 1..9 or '.'. */
  predicate AllPuzzleChars(s: string) {
    forall i :: 0 <= i < |s| ==> IsPuzzleChar(s[i])
  }

  /** The decimal digit character for 0..9. */
  function DigitChar(d: int): char
    requires 0 <= d <= 9
  {
    (('0' as int) + d) as char
  }

  /** The number one puzzle character stands for: '.' becomes 0, a digit its value. */
  function CellValue(ch: char): (v: int)
    requires IsPuzzleChar(ch)
    ensures 0 <= v <= 9
    ensures v == 0 <==> ch == '.'
    ensures v != 0 ==> DigitChar(v) == ch
  {
    if ch == '.' then 0 else ch as int - '0' as int
  }

  /** One row of nine cells taken from nine consecutive characters. */
  function DecodeRow(s: string): (row: seq<int>)
    requires |s| == 9 && AllPuzzleChars(s)
    ensures |row| == 9
    ensures forall c :: 0 <= c < 9 ==> row[c] == CellValue(s[c])
  {
    seq(9, c requires 0 <= c < 9 => CellValue(s[c]))
  }

  /**
   * Splits the text into rows of nine cells, in order; characters after the last
   * complete row are dropped, as the row-flushing loop of strToGrid drops them.
   */
  function Decode(s: string): (g: Grid)
    requires AllPuzzleChars(s)
    ensures |g| == |s| / 9
    ensures forall r :: 0 <= r < |g| ==> |g[r]| == 9
    ensures forall r, c :: 0 <= r < |g| && 0 <= c < 9 ==> g[r][c] == CellValue(s[9 * r + c])
    decreases |s|
  {
    if |s| < 9 then [] else [DecodeRow(s[..9])] + Decode(s[9..])
  }

  /** Decimal text of a natural number, most significant digit first. */
  function Digits(n: nat): (t: string)
    ensures |t| >= 1
    ensures n < 10 ==> t == [DigitChar(n)]
    decreases n
  {
    if n < 10 then [DigitChar(n)] else Digits(n / 10) + [DigitChar(n % 10)]
  }

  /** The text JavaScript's `join` writes for an integer cell. */
  function NumberText(v: int): string {
    if v < 0 then "-" + Digits(-v) else Digits(v)
  }

  /** A row's cells written one after another. */
  function EncodeRow(row: seq<int>): (t: string)
    ensures (forall c :: 0 <= c < |row| ==> 0 <= row[c] <= 9) ==>
      |t| == |row| && forall c :: 0 <= c < |row| ==> t[c] == DigitChar(row[c])
  {
    if |row| == 0 then "" else NumberText(row[0]) + EncodeRow(row[1..])
  }

  /** The grid flattened in row-major order and joined without separators. */
  function Encode(g: Grid): (t: string)
    ensures (forall r :: 0 <= r < |g| ==> |g[r]| == 9) &&
            (forall r, c :: 0 <= r < |g| && 0 <= c < 9 ==> 0 <= g[r][c] <= 9) ==>
      |t| == 9 * |g| &&
      forall r, c :: 0 <= r < |g| && 0 <= c < 9 ==> t[9 * r + c] == DigitChar(g[r][c])
  {
    if |g| == 0 then "" else EncodeRow(g[0]) + Encode(g[1..])
  }

  /** The grid's cells all lie in 1..9. */
  predicate AllDigits(g: Grid)
    requires IsGrid(g)
  {
    forall r, c :: 0 <= r < 9 && 0 <= c < 9 ==> 1 <= g[r][c] <= 9
  }

  /** Re-encoding decoded text gives the text back, with every blank marker written as '0'. */
  lemma EncodeDecode(s: string)
    requires AllPuzzleChars(s) && |s| % 9 == 0
    ensures Encode(Decode(s)) == seq(|s|, k requires 0 <= k < |s| => if s[k] == '.' then '0' else s[k])
  {
    DecodedText(s);
  }

  /** Character k of the re-encoded text is the digit of the cell character k stands for. */
  lemma DecodedText(s: string)
    requires AllPuzzleChars(s) && |s| % 9 == 0
    ensures |Encode(Decode(s))| == |s|
    ensures forall k :: 0 <= k < |s| ==> Encode(Decode(s))[k] == DigitChar(CellValue(s[k]))
  {
    var g := Decode(s);
    var t := Encode(g);
    forall k | 0 <= k < |s|
      ensures t[k] == DigitChar(CellValue(s[k]))
    {
      var r, c := k / 9, k % 9;
      assert k == 9 * r + c && 0 <= r < |g| && 0 <= c < 9;
      assert g[r][c] == CellValue(s[k]);
      assert t[9 * r + c] == DigitChar(g[r][c]);
    }
  }

  /** For blank-free text the round trip is exact: encode(decode(s)) == s. */
  lemma EncodeDecodeNoBlanks(s: string)
    requires AllPuzzleChars(s) && |s| == 81
    requires forall k :: 0 <= k < |s| ==> s[k] != '.'
    ensures Encode(Decode(s)) == s
  {
    EncodeDecode(s);
  }

  /** Decoding the text of a filled 9×9 grid gives the grid back. */
  lemma DecodeEncode(g: Grid)
    requires IsGrid(g) && AllDigits(g)
    ensures AllPuzzleChars(Encode(g))
    ensures Decode(Encode(g)) == g
  {
    var t := Encode(g);
    forall k | 0 <= k < |t|
      ensures '1' <= t[k] <= '9'
    {
      var r, c := k / 9, k % 9;
      assert k == 9 * r + c;
      assert t[9 * r + c] == DigitChar(g[r][c]);
    }
    var h := Decode(t);
    forall r | 0 <= r < 9
      ensures h[r] == g[r]
    {
      forall c | 0 <= c < 9
        ensures h[r][c] == g[r][c]
      {
        assert t[9 * r + c] == DigitChar(g[r][c]);
      }
    }
  }
}
