/**
 * A glyph of the older loader (figurust/src/font/chars.rs): built from its
 * block of font lines, which it only reads, with every hardblank turned into
 * a space and the character code it was loaded for.
 */
module LegacyChars {
  import opened Wrappers
  import opened Ints
  import opened Text
  import opened Header
  import opened FontFormat

  datatype FIGcharacter = FIGcharacter(code: uint32, charLines: seq<string>, width: nat)

  /** Declared, but no loader ever builds one. */
  datatype CharacterParseError = Temp

  /** Row `x` without its terminator and with its hardblanks turned into spaces. */
  function StoredRow(rows: seq<string>, x: nat, header: RawHeader): (r: string)
    requires RowsFit(rows, header.height) && x < |rows|
    ensures |r| == |StrippedRow(rows, x, header.height)|
    ensures header.hardblank != ' ' ==> header.hardblank !in r
  {
    ReplaceChar(StrippedRow(rows, x, header.height), header.hardblank, ' ')
  }

  /** A stored row holds no character other than a space that its line does not hold. */
  lemma StoredRowAvoids(rows: seq<string>, x: nat, header: RawHeader, c: char)
    requires RowsFit(rows, header.height) && x < |rows|
    requires c != ' ' && c !in rows[x]
    ensures c !in StoredRow(rows, x, header)
  {
    var stripped := StrippedRow(rows, x, header.height);
    forall k | 0 <= k < |stripped|
      ensures stripped[k] != c
    {
      assert stripped[k] == rows[x][k];
    }
  }

  /**
   * The glyph `from_lines` builds from `rows` for `code`: one stored row
   * per line, in order, and the width of the widest row before the
   * hardblanks were replaced.
   */
  function Glyph(rows: seq<string>, code: uint32, header: RawHeader): (c: FIGcharacter)
    requires RowsFit(rows, header.height)
    ensures c.code == code
    ensures |c.charLines| == |rows|
    ensures forall x :: 0 <= x < |rows| ==> c.charLines[x] == StoredRow(rows, x, header)
    ensures forall x :: 0 <= x < |rows| ==> |c.charLines[x]| <= c.width
    ensures header.hardblank != ' ' ==> forall x :: 0 <= x < |rows| ==> header.hardblank !in c.charLines[x]
  {
    var stripped := seq(|rows|, x requires 0 <= x < |rows| => StrippedRow(rows, x, header.height));
    var stored := seq(|rows|, x requires 0 <= x < |rows| => StoredRow(rows, x, header));
    assert forall x :: 0 <= x < |rows| ==> |stored[x]| == |stripped[x]|;
    FIGcharacter(code, stored, MaxLength(stripped))
  }

  /**
   * Replacing a one-character hardblank keeps every row's length, so the
   * width is the longest stored row.
   */
  lemma GlyphWidth(rows: seq<string>, code: uint32, header: RawHeader)
    requires RowsFit(rows, header.height)
    ensures Glyph(rows, code, header).width == MaxLength(Glyph(rows, code, header).charLines)
  {
    var stripped := seq(|rows|, x requires 0 <= x < |rows| => StrippedRow(rows, x, header.height));
    MaxLengthOfLengths(stripped, Glyph(rows, code, header).charLines);
  }

  /**
   * `FIGcharacter::from_lines`: strips each row's terminator, replaces its
   * hardblanks and keeps a running maximum of the stripped widths. The
   * lines are only read.
   */
  method FromLines(lines: seq<string>, code: uint32, header: RawHeader) returns (r: Result<FIGcharacter, CharacterParseError>)
    requires RowsFit(lines, header.height)
    ensures r == Success(Glyph(lines, code, header))
  {
    var charLines: seq<string> := [];
    ghost var stripped: seq<string> := [];
    var width: nat := 0;
    var x := 0;
    while x < |lines|
      invariant 0 <= x <= |lines|
      invariant |charLines| == x && |stripped| == x
      invariant forall i :: 0 <= i < x ==> stripped[i] == StrippedRow(lines, i, header.height)
      invariant forall i :: 0 <= i < x ==> charLines[i] == StoredRow(lines, i, header)
      invariant width == MaxLength(stripped)
    {
      var line := lines[x];
      var lineWidth := if x == |lines| - 1 && header.height != 1 then |line| - 2 else |line| - 1;
      LineWidthStrips(lines, x, header.height, lineWidth);
      if lineWidth > width {
        width := lineWidth;
      }
      MaxLengthAppend(stripped, line[..lineWidth]);
      stripped := stripped + [line[..lineWidth]];
      charLines := charLines + [ReplaceChar(line[..lineWidth], header.hardblank, ' ')];
      x := x + 1;
    }
    assert charLines == Glyph(lines, code, header).charLines;
    assert stripped == seq(|lines|, x requires 0 <= x < |lines| => StrippedRow(lines, x, header.height));
    r := Success(FIGcharacter(code, charLines, width));
  }
}
