/**
 * The older font (figurust/src/font.rs): loading a FIGfont from the text of
 * a font file without touching its lines, hardblanks turned into spaces at
 * load time, and full-width rendering.
 */
module LegacyFont {
  import opened Wrappers
  import opened Text
  import opened Header
  import opened FontFormat
  import opened LegacyChars

  datatype FIGfont = FIGfont(header: RawHeader, comments: string, characters: map<nat, FIGcharacter>)

  datatype FontLoadError =
    | EmptyString
    | MissingHeader
    | HeaderError(headerError: HeaderParseError)
    | CharacterError(characterError: CharacterParseError)

  // ---------------------------------------------------------------------------
  // Loading

  /** The required glyphs, each read from its block of lines and tagged with its code. */
  function Glyphs(lines: seq<string>, h: RawHeader): (m: map<nat, FIGcharacter>)
    requires BlocksFit(lines, h)
    ensures forall code :: code in m <==> 32 <= code <= 126
    ensures forall code :: code in m ==> m[code].code == code && |m[code].charLines| == h.height
  {
    map code: nat | 32 <= code <= 126 :: Glyph(Block(lines, h, code), code, h)
  }

  /** The glyphs of codes 32 up to `i - 1`. */
  function GlyphsBelow(lines: seq<string>, h: RawHeader, i: nat): map<nat, FIGcharacter>
    requires BlocksFit(lines, h) && i <= 127
  {
    map code: nat | 32 <= code < i :: Glyph(Block(lines, h, code), code, h)
  }

  lemma GlyphsBelowStep(lines: seq<string>, h: RawHeader, i: nat)
    requires BlocksFit(lines, h) && 32 <= i <= 126
    ensures GlyphsBelow(lines, h, i + 1) == GlyphsBelow(lines, h, i)[i := Glyph(Block(lines, h, i), i, h)]
  {
  }

  lemma GlyphsBelowAll(lines: seq<string>, h: RawHeader)
    requires BlocksFit(lines, h)
    ensures GlyphsBelow(lines, h, 127) == Glyphs(lines, h)
  {
  }

  /**
   * What `FIGfont::from_str` returns: `EmptyString` exactly for the empty
   * text, the header's own error when the first line does not parse, and
   * otherwise the header, the comment lines joined by newlines and the 95
   * required glyphs, each tagged with its own code and holding one stored
   * row per font row, none of them holding the hardblank unless it is a
   * space.
   */
  function Load(s: string): (r: Result<FIGfont, FontLoadError>)
    requires Loadable(s)
    ensures r == Failure(EmptyString) <==> s == ""
    ensures r != Failure(MissingHeader)
    ensures s != "" && Header.FromStr(Lines(s)[0]).Failure? ==> r == Failure(HeaderError(Header.FromStr(Lines(s)[0]).error))
    ensures r.Success? ==> r.value.header == Header.FromStr(Lines(s)[0]).value
    ensures r.Success? ==> forall code :: code in r.value.characters <==> 32 <= code <= 126
    ensures r.Success? ==> forall code :: code in r.value.characters ==>
      r.value.characters[code].code == code && |r.value.characters[code].charLines| == r.value.header.height
  {
    if s == "" then Failure(EmptyString)
    else
      var lines := Lines(s);
      if lines == [] then Failure(MissingHeader)
      else
        match Header.FromStr(lines[0])
        case Failure(e) => Failure(HeaderError(e))
        case Success(header) =>
          BlockOrder(header, 32, 127);
          Success(FIGfont(header, Join(lines[1..header.commentLines + 1], '\n'), Glyphs(lines, header)))
  }

  /** Once the header parses, loading succeeds with the comments and the glyphs of the lines. */
  lemma LoadParsed(s: string, header: RawHeader)
    requires Loadable(s) && s != ""
    requires Header.FromStr(Lines(s)[0]) == Success(header)
    ensures header.commentLines < 0xFFFF && BlocksFit(Lines(s), header)
    ensures header.commentLines + 1 <= |Lines(s)|
    ensures Load(s) == Success(FIGfont(header, Join(Lines(s)[1..header.commentLines + 1], '\n'), Glyphs(Lines(s), header)))
  {
    BlockOrder(header, 32, 127);
  }

  /** Unless the hardblank is a space, no row of a loaded glyph holds it. */
  lemma LoadedWithoutHardblank(s: string)
    requires Loadable(s) && Load(s).Success?
    requires Load(s).value.header.hardblank != ' '
    ensures GlyphsAvoid(Load(s).value.characters, Load(s).value.header.hardblank)
  {
    var font := Load(s).value;
    var h := font.header;
    LoadParsed(s, h);
    forall code, y | code in font.characters && 0 <= y < |font.characters[code].charLines|
      ensures h.hardblank !in font.characters[code].charLines[y]
    {
      assert font.characters[code] == Glyph(Block(Lines(s), h, code), code, h);
    }
  }

  /** No row of a loaded glyph holds a newline. */
  lemma LoadedWithoutNewline(s: string)
    requires Loadable(s) && Load(s).Success?
    ensures GlyphsAvoid(Load(s).value.characters, '\n')
  {
    var font := Load(s).value;
    var h := font.header;
    var lines := Lines(s);
    LoadParsed(s, h);
    forall code, y | code in font.characters && 0 <= y < |font.characters[code].charLines|
      ensures '\n' !in font.characters[code].charLines[y]
    {
      var block := Block(lines, h, code);
      assert font.characters[code] == Glyph(block, code, h);
      BlockOrder(h, code, 127);
      assert block[y] == lines[BlockStart(h, code) + y];
      StoredRowAvoids(block, y, h, '\n');
    }
  }

  /**
   * `FIGfont::from_str`: splits the text into lines, parses the header,
   * joins the comments and reads the required glyphs.
   */
  method FromStr(s: string) returns (r: Result<FIGfont, FontLoadError>)
    requires Loadable(s)
    ensures r == Load(s)
  {
    if s == "" {
      return Failure(EmptyString);
    }
    var lines := Lines(s);
    var parsed := Header.FromStr(lines[0]);
    if parsed.Failure? {
      return Failure(HeaderError(parsed.error));
    }
    var header := parsed.value;
    LoadParsed(s, header);
    var comments := Join(lines[1..header.commentLines + 1], '\n');
    var characters := ReadRequiredCharacters(lines, header);
    return Success(FIGfont(header, comments, characters));
  }

  /**
   * `FIGfont::read_required_characters`: builds the glyphs of codes 32 to
   * 126 from their blocks, in order. It never fails, so the map is
   * returned directly.
   */
  method ReadRequiredCharacters(lines: seq<string>, header: RawHeader) returns (characters: map<nat, FIGcharacter>)
    requires header.commentLines < 0xFFFF
    requires BlocksFit(lines, header)
    ensures characters == Glyphs(lines, header)
  {
    var offset := header.commentLines + 1;
    var charHeight := header.height;
    characters := map[];
    var i := 32;
    while i <= 126
      invariant 32 <= i <= 127
      invariant characters == GlyphsBelow(lines, header, i)
    {
      var code := i;
      var idx := offset + (i - 32) * charHeight;
      BlockOrder(header, i, 127);
      assert lines[idx..idx + charHeight] == Block(lines, header, i);
      var res := FromLines(lines[idx..idx + charHeight], code, header);
      GlyphsBelowStep(lines, header, i);
      characters := characters[code := res.value];
      i := i + 1;
    }
    GlyphsBelowAll(lines, header);
  }

  // ---------------------------------------------------------------------------
  // Rendering

  datatype FontConvertError = MissingCharacter(c: char)

  /** Every glyph has at least `height` rows. */
  predicate HasRows(glyphs: seq<FIGcharacter>, height: nat)
  {
    forall g :: 0 <= g < |glyphs| ==> height <= |glyphs[g].charLines|
  }

  /** Row `y` of the first `g` glyphs side by side. */
  function FullRow(glyphs: seq<FIGcharacter>, g: nat, y: nat): string
    requires g <= |glyphs| && HasRows(glyphs, y + 1)
  {
    if g == 0 then "" else FullRow(glyphs, g - 1, y) + glyphs[g - 1].charLines[y]
  }

  /** The first `n` output rows of one line of text. */
  function LineRows(glyphs: seq<FIGcharacter>, n: nat): (rows: seq<string>)
    requires HasRows(glyphs, n)
    ensures |rows| == n
  {
    if n == 0 then [] else LineRows(glyphs, n - 1) + [FullRow(glyphs, |glyphs|, n - 1)]
  }

  /** What `convert` needs of the glyphs of the text to run without panicking: `height` rows in each. */
  predicate Renderable(glyphLines: seq<seq<FIGcharacter>>, height: nat)
  {
    forall i :: 0 <= i < |glyphLines| ==> HasRows(glyphLines[i], height)
  }

  /** The output rows of the first `n` lines of text: `height` rows per line, in order. */
  function OutputRows(glyphLines: seq<seq<FIGcharacter>>, n: nat, height: nat): seq<string>
    requires n <= |glyphLines| && Renderable(glyphLines, height)
  {
    if n == 0 then [] else OutputRows(glyphLines, n - 1, height) + LineRows(glyphLines[n - 1], height)
  }

  /** `convert` does not panic on `content`. */
  predicate Convertible(font: FIGfont, content: string)
  {
    var resolved := Resolve(font.characters, Lines(content));
    resolved.Success? ==> Renderable(resolved.value, font.header.height)
  }

  /**
   * What `convert` returns: the first character of the text, in reading
   * order, that the font has no glyph for; otherwise every output row
   * followed by a newline.
   */
  function Converted(font: FIGfont, content: string): (r: Result<string, FontConvertError>)
    requires Convertible(font, content)
  {
    match Resolve(font.characters, Lines(content))
    case Failure(c) => Failure(MissingCharacter(c))
    case Success(glyphLines) => Success(Terminated(OutputRows(glyphLines, |glyphLines|, font.header.height)))
  }

  /** `FIGfont::convert`: looks up every character, then writes `height` rows per line of text. */
  method Convert(font: FIGfont, content: string) returns (r: Result<string, FontConvertError>)
    requires Convertible(font, content)
    ensures r == Converted(font, content)
  {
    var charLines := LookUp(font.characters, Lines(content));
    if charLines.Failure? {
      return Failure(MissingCharacter(charLines.error));
    }
    var output := Render(charLines.value, font.header.height);
    return Success(output);
  }

  /** Writes every output row of the resolved text, each followed by a newline. */
  method Render(charLines: seq<seq<FIGcharacter>>, height: nat) returns (output: string)
    requires Renderable(charLines, height)
    ensures output == Terminated(OutputRows(charLines, |charLines|, height))
  {
    output := "";
    var n := 0;
    while n < |charLines|
      invariant 0 <= n <= |charLines|
      invariant output == Terminated(OutputRows(charLines, n, height))
    {
      ghost var previous := output;
      output := RenderLine(output, charLines[n], height);
      OutputRowsStep(charLines, n, height, previous, output);
      n := n + 1;
    }
  }

  /** Writes the `height` rows of one line of text, each followed by a newline. */
  method RenderLine(output: string, charLine: seq<FIGcharacter>, height: nat) returns (o: string)
    requires HasRows(charLine, height)
    ensures o == output + Terminated(LineRows(charLine, height))
  {
    o := output;
    var y := 0;
    while y < height
      invariant 0 <= y <= height
      invariant o == output + Terminated(LineRows(charLine, y))
    {
      ghost var previous := o;
      o := AppendFullRow(o, charLine, y);
      o := o + "\n";
      LineRowsStep(charLine, y, output, previous, o);
      y := y + 1;
    }
  }

  /** Appends row `y` of every glyph of the line, side by side. */
  method AppendFullRow(output: string, charLine: seq<FIGcharacter>, y: nat) returns (o: string)
    requires HasRows(charLine, y + 1)
    ensures o == output + FullRow(charLine, |charLine|, y)
  {
    o := output;
    var g := 0;
    while g < |charLine|
      invariant 0 <= g <= |charLine|
      invariant o == output + FullRow(charLine, g, y)
    {
      o := o + charLine[g].charLines[y];
      g := g + 1;
    }
  }

  /** Writing row `y` and a newline after rows 0 to `y - 1` of a line writes rows 0 to `y`. */
  lemma LineRowsStep(glyphs: seq<FIGcharacter>, y: nat, start: string, previous: string, next: string)
    requires HasRows(glyphs, y + 1)
    requires previous == start + Terminated(LineRows(glyphs, y))
    requires next == previous + FullRow(glyphs, |glyphs|, y) + "\n"
    ensures next == start + Terminated(LineRows(glyphs, y + 1))
  {
    var rows := LineRows(glyphs, y + 1);
    assert rows[..y] == LineRows(glyphs, y);
    assert Terminated(rows) == Terminated(LineRows(glyphs, y)) + FullRow(glyphs, |glyphs|, y) + "\n";
  }

  /** Writing the rows of line `n` after those of lines 0 to `n - 1` writes those of lines 0 to `n`. */
  lemma OutputRowsStep(glyphLines: seq<seq<FIGcharacter>>, n: nat, height: nat, previous: string, next: string)
    requires n < |glyphLines| && Renderable(glyphLines, height)
    requires previous == Terminated(OutputRows(glyphLines, n, height))
    requires next == previous + Terminated(LineRows(glyphLines[n], height))
    ensures next == Terminated(OutputRows(glyphLines, n + 1, height))
  {
    TerminatedAppend(OutputRows(glyphLines, n, height), LineRows(glyphLines[n], height));
  }

  // ---------------------------------------------------------------------------
  // What rendering promises

  /** A loaded font renders any text without panicking: every glyph has `height` rows. */
  lemma LoadedConvertible(s: string, content: string)
    requires Loadable(s) && Load(s).Success?
    ensures Convertible(Load(s).value, content)
  {
    var font := Load(s).value;
    var lines := Lines(content);
    var resolved: Result<seq<seq<FIGcharacter>>, char> := Resolve(font.characters, lines);
    if resolved.Success? {
      forall i, g | 0 <= i < |resolved.value| && 0 <= g < |resolved.value[i]|
        ensures font.header.height <= |resolved.value[i][g].charLines|
      {
        assert resolved.value[i] == ResolveLine(font.characters, lines[i]).value;
        assert resolved.value[i][g] == font.characters[Code(lines[i][g])];
      }
    }
  }

  /** Text without lines renders as the empty string. */
  lemma ConvertedEmpty(font: FIGfont)
    ensures Convertible(font, "")
    ensures Converted(font, "") == Success("")
  {
    assert Lines("") == [];
  }

  /** `height` rows per line of text. */
  lemma {:induction false} OutputRowsCount(glyphLines: seq<seq<FIGcharacter>>, n: nat, height: nat)
    requires n <= |glyphLines| && Renderable(glyphLines, height)
    ensures |OutputRows(glyphLines, n, height)| == n * height
  {
    if n > 0 {
      OutputRowsCount(glyphLines, n - 1, height);
      assert (n - 1) * height + height == n * height;
    }
  }

  /** No stored row of any glyph holds `c`. */
  predicate GlyphsAvoid(characters: map<nat, FIGcharacter>, c: char)
  {
    forall code, y :: code in characters && 0 <= y < |characters[code].charLines| ==> c !in characters[code].charLines[y]
  }

  lemma {:induction false} FullRowAvoids(glyphs: seq<FIGcharacter>, g: nat, y: nat, c: char)
    requires g <= |glyphs| && HasRows(glyphs, y + 1)
    requires forall k :: 0 <= k < |glyphs| ==> c !in glyphs[k].charLines[y]
    ensures c !in FullRow(glyphs, g, y)
  {
    if g > 0 {
      FullRowAvoids(glyphs, g - 1, y, c);
    }
  }

  lemma {:induction false} TerminatedAvoids(rows: seq<string>, c: char)
    requires c != '\n'
    requires forall i :: 0 <= i < |rows| ==> c !in rows[i]
    ensures c !in Terminated(rows)
    decreases |rows|
  {
    if rows != [] {
      var n := |rows| - 1;
      assert forall i :: 0 <= i < n ==> rows[..n][i] == rows[i];
      TerminatedAvoids(rows[..n], c);
    }
  }

  lemma {:induction false} OutputRowsAvoid(glyphLines: seq<seq<FIGcharacter>>, n: nat, height: nat, c: char)
    requires n <= |glyphLines| && Renderable(glyphLines, height)
    requires forall i, g, y :: 0 <= i < |glyphLines| && 0 <= g < |glyphLines[i]| && 0 <= y < |glyphLines[i][g].charLines| ==>
               c !in glyphLines[i][g].charLines[y]
    ensures forall r :: 0 <= r < |OutputRows(glyphLines, n, height)| ==> c !in OutputRows(glyphLines, n, height)[r]
  {
    if n > 0 {
      OutputRowsAvoid(glyphLines, n - 1, height, c);
      var prefix := OutputRows(glyphLines, n - 1, height);
      var line := LineRows(glyphLines[n - 1], height);
      forall r | 0 <= r < |prefix + line|
        ensures c !in (prefix + line)[r]
      {
        if r >= |prefix| {
          var y := r - |prefix|;
          assert (prefix + line)[r] == line[y];
          LineRowsAt(glyphLines[n - 1], height, y);
          FullRowAvoids(glyphLines[n - 1], |glyphLines[n - 1]|, y, c);
        }
      }
    }
  }

  lemma {:induction false} LineRowsAt(glyphs: seq<FIGcharacter>, n: nat, y: nat)
    requires HasRows(glyphs, n) && y < n
    ensures LineRows(glyphs, n)[y] == FullRow(glyphs, |glyphs|, y)
  {
    if y < n - 1 {
      LineRowsAt(glyphs, n - 1, y);
    }
  }

  /**
   * When no glyph holds `c` (the hardblank of a loaded font, unless it is a
   * space) and `c` is not a newline, no output holds `c` either.
   */
  lemma ConvertedAvoids(font: FIGfont, content: string, c: char)
    requires Convertible(font, content) && Converted(font, content).Success?
    requires GlyphsAvoid(font.characters, c) && c != '\n'
    ensures c !in Converted(font, content).value
  {
    var glyphLines: seq<seq<FIGcharacter>> := Resolve(font.characters, Lines(content)).value;
    ResolvedAvoid(font, content, c);
    OutputRowsAvoid(glyphLines, |glyphLines|, font.header.height, c);
    TerminatedAvoids(OutputRows(glyphLines, |glyphLines|, font.header.height), c);
  }

  /** The glyphs looked up for the text hold no character that no glyph of the font holds. */
  lemma ResolvedAvoid(font: FIGfont, content: string, c: char)
    requires Resolve(font.characters, Lines(content)).Success?
    requires GlyphsAvoid(font.characters, c)
    ensures var glyphLines := Resolve(font.characters, Lines(content)).value;
      forall i, g, y :: 0 <= i < |glyphLines| && 0 <= g < |glyphLines[i]| && 0 <= y < |glyphLines[i][g].charLines| ==>
        c !in glyphLines[i][g].charLines[y]
  {
    var lines := Lines(content);
    var glyphLines: seq<seq<FIGcharacter>> := Resolve(font.characters, lines).value;
    forall i, g, y | 0 <= i < |glyphLines| && 0 <= g < |glyphLines[i]| && 0 <= y < |glyphLines[i][g].charLines|
      ensures c !in glyphLines[i][g].charLines[y]
    {
      assert glyphLines[i] == ResolveLine(font.characters, lines[i]).value;
      assert glyphLines[i][g] == font.characters[Code(lines[i][g])];
    }
  }

  /** Each line of text becomes `height` output lines, when no glyph row holds a newline. */
  lemma ConvertedLineCount(font: FIGfont, content: string)
    requires Convertible(font, content) && Converted(font, content).Success?
    requires GlyphsAvoid(font.characters, '\n')
    ensures Count(Converted(font, content).value, '\n') == |Lines(content)| * font.header.height
  {
    var glyphLines: seq<seq<FIGcharacter>> := Resolve(font.characters, Lines(content)).value;
    var height := font.header.height;
    ResolvedAvoid(font, content, '\n');
    OutputRowsAvoid(glyphLines, |glyphLines|, height, '\n');
    OutputRowsCount(glyphLines, |glyphLines|, height);
    TerminatedNewlines(OutputRows(glyphLines, |glyphLines|, height));
  }

  /**
   * Rendering fails exactly when some character of the text has no glyph,
   * and then names the first such character in reading order.
   */
  lemma ConvertedFailure(font: FIGfont, content: string)
    requires Convertible(font, content)
    ensures Converted(font, content).Failure? <==> exists i, j :: MissingAt(font.characters, Lines(content), i, j)
    ensures Converted(font, content).Failure? ==>
      FirstMissing(font.characters, Lines(content), Converted(font, content).error.c)
  {
    ResolveFailsExactly(font.characters, Lines(content));
    if Converted(font, content).Failure? {
      ResolveFirstMissing(font.characters, Lines(content));
    }
  }


  /**
   * The output of a loaded font never shows its hardblank, unless the
   * hardblank is a space or a newline.
   */
  lemma LoadedOutputWithoutHardblank(s: string, content: string)
    requires Loadable(s) && Load(s).Success?
    requires Load(s).value.header.hardblank != ' ' && Load(s).value.header.hardblank != '\n'
    ensures Convertible(Load(s).value, content)
    ensures Converted(Load(s).value, content).Success? ==>
      Load(s).value.header.hardblank !in Converted(Load(s).value, content).value
  {
    LoadedConvertible(s, content);
    LoadedWithoutHardblank(s);
    if Converted(Load(s).value, content).Success? {
      ConvertedAvoids(Load(s).value, content, Load(s).value.header.hardblank);
    }
  }
}
