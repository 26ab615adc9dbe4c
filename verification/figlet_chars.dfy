/**
 * A glyph of the current loader (figurust/src/figlet/chars.rs): built from
 * its block of font lines, which the loader empties as it goes, and joined
 * row by row onto the rendered output.
 */
module FigletChars {
  import opened Wrappers
  import opened Header
  import opened FontFormat
  import S = EngineSettings

  datatype FIGcharacter = FIGcharacter(charLines: seq<string>, width: nat)

  /** Declared, but no loader ever builds one. */
  datatype CharacterParseError = Temp

  /**
   * The glyph `from_lines` builds from `rows`: one stored row per line, in
   * order, each the line without its terminator (hardblanks kept), and the
   * width of the widest stored row.
   */
  function Glyph(rows: seq<string>, height: int): (c: FIGcharacter)
    requires RowsFit(rows, height)
    ensures |c.charLines| == |rows|
    ensures forall x :: 0 <= x < |rows| ==> c.charLines[x] == StrippedRow(rows, x, height)
    ensures forall x :: 0 <= x < |rows| ==> |c.charLines[x]| <= c.width
    ensures rows == [] ==> c.width == 0
  {
    StrippedRowsAt(rows, height, |rows|);
    var stored := StrippedRows(rows, height, |rows|);
    FIGcharacter(stored, MaxLength(stored))
  }

  /** The first `n` rows without their terminators. */
  function StrippedRows(rows: seq<string>, height: int, n: nat): (stored: seq<string>)
    requires RowsFit(rows, height) && n <= |rows|
    ensures |stored| == n
  {
    if n == 0 then [] else StrippedRows(rows, height, n - 1) + [StrippedRow(rows, n - 1, height)]
  }

  lemma {:induction false} StrippedRowsAt(rows: seq<string>, height: int, n: nat)
    requires RowsFit(rows, height) && n <= |rows|
    ensures forall x :: 0 <= x < n ==> StrippedRows(rows, height, n)[x] == StrippedRow(rows, x, height)
  {
    if n > 0 {
      StrippedRowsAt(rows, height, n - 1);
    }
  }

  /** The width is exactly the longest stored row. */
  lemma GlyphWidthAttained(rows: seq<string>, height: int)
    requires RowsFit(rows, height) && rows != []
    ensures exists x :: 0 <= x < |rows| && |Glyph(rows, height).charLines[x]| == Glyph(rows, height).width
  {
    MaxLengthAttained(Glyph(rows, height).charLines);
  }

  /**
   * `FIGcharacter::from_lines` on the slice `lines[lo..hi]`: builds the
   * glyph and takes every line of the slice, leaving the empty string.
   */
  method FromLines(lines: array<string>, lo: nat, hi: nat, header: RawHeader) returns (r: Result<FIGcharacter, CharacterParseError>)
    requires lo <= hi <= lines.Length
    requires RowsFit(lines[lo..hi], header.height)
    modifies lines
    ensures r == Success(Glyph(old(lines[lo..hi]), header.height))
    ensures forall k :: lo <= k < hi ==> lines[k] == ""
    ensures forall k :: 0 <= k < lo || hi <= k < lines.Length ==> lines[k] == old(lines[k])
  {
    ghost var rows := lines[lo..hi];
    var charLines: seq<string> := [];
    var width: nat := 0;
    var len := hi - lo;
    var x := 0;
    while x < len
      invariant 0 <= x <= len
      invariant charLines == StrippedRows(rows, header.height, x)
      invariant width == MaxLength(charLines)
      invariant forall k :: lo <= k < lo + x ==> lines[k] == ""
      invariant forall k :: 0 <= k < lo || lo + x <= k < lines.Length ==> lines[k] == old(lines[k])
    {
      var line := lines[lo + x];
      var lineWidth := if x == len - 1 && header.height != 1 then |line| - 2 else |line| - 1;
      assert line == rows[x];
      LineWidthStrips(rows, x, header.height, lineWidth);
      StrippedRowsStep(rows, header.height, x, charLines, line[..lineWidth]);
      if lineWidth > width {
        width := lineWidth;
      }
      Take(lines, lo + x);
      charLines := charLines + [line[..lineWidth]];
      x := x + 1;
    }
    r := Success(FIGcharacter(charLines, width));
  }

  /** `std::mem::take` on line `k`: leaves the empty string in its place. */
  method Take(lines: array<string>, k: nat)
    requires k < lines.Length
    modifies lines
    ensures lines[k] == ""
    ensures forall j :: 0 <= j < lines.Length && j != k ==> lines[j] == old(lines[j])
  {
    lines[k] := "";
  }

  /** One more stripped row: the rows so far grow by it, and the widest grows to it if it is wider. */
  lemma StrippedRowsStep(rows: seq<string>, height: int, x: nat, stored: seq<string>, row: string)
    requires RowsFit(rows, height) && x < |rows|
    requires stored == StrippedRows(rows, height, x) && row == StrippedRow(rows, x, height)
    ensures stored + [row] == StrippedRows(rows, height, x + 1)
    ensures MaxLength(stored + [row]) == if |row| > MaxLength(stored) then |row| else MaxLength(stored)
  {
    MaxLengthAppend(stored, row);
  }

  // ---------------------------------------------------------------------------
  // Joining a glyph row onto the output

  /** The previous glyph's row ends in a space, or this row's second character is one. */
  predicate SpaceAtSeam(c: FIGcharacter, idx: nat, prev: FIGcharacter)
    requires idx < |c.charLines| && 2 <= |c.charLines[idx]|
    requires idx < |prev.charLines| && prev.charLines[idx] != ""
  {
    prev.charLines[idx][|prev.charLines[idx]| - 1] == ' ' || c.charLines[idx][1] == ' '
  }

  /** The smushing case proper: a previous glyph at least two columns wide. */
  predicate Smushes(spacing: S.Spacing, prev: Option<FIGcharacter>)
  {
    spacing == S.Smushing && prev.Some? && prev.value.width >= 2
  }

  /**
   * What `join_line` needs to run without panicking: an existing row, a
   * spacing it implements, and in the smushing case a row of at least two
   * characters and a non-empty row `idx` in the previous glyph.
   */
  predicate JoinDefined(c: FIGcharacter, idx: nat, spacing: S.Spacing, prev: Option<FIGcharacter>)
  {
    && idx < |c.charLines|
    && (spacing == S.FullWidth || spacing == S.Smushing)
    && (Smushes(spacing, prev) ==>
          2 <= |c.charLines[idx]| && idx < |prev.value.charLines| && prev.value.charLines[idx] != "")
  }

  /**
   * The text `join_line` appends for row `idx` of `c`: the row itself, or,
   * in the smushing case with a space at the seam, the row with its first
   * character replaced by a space.
   */
  function JoinLine(c: FIGcharacter, idx: nat, spacing: S.Spacing, prev: Option<FIGcharacter>): (appended: string)
    requires JoinDefined(c, idx, spacing, prev)
    ensures |appended| == |c.charLines[idx]|
    ensures forall k :: 1 <= k < |appended| ==> appended[k] == c.charLines[idx][k]
    ensures Smushes(spacing, prev) && SpaceAtSeam(c, idx, prev.value) ==> appended[0] == ' '
    ensures !(Smushes(spacing, prev) && SpaceAtSeam(c, idx, prev.value)) ==> appended == c.charLines[idx]
    decreases if spacing == S.FullWidth then 0 else 1
  {
    match spacing
    case FullWidth => c.charLines[idx]
    case Smushing =>
      if prev.Some? then
        var lastChar := prev.value;
        if lastChar.width < 2 then
          JoinLine(c, idx, S.FullWidth, prev)
        else
          var line := c.charLines[idx][1..];
          var lch := lastChar.charLines[idx][|lastChar.charLines[idx]| - 1];
          var rch := line[0];
          if lch == ' ' || rch == ' ' then [' '] + line else c.charLines[idx]
      else
        JoinLine(c, idx, S.FullWidth, prev)
  }
}
