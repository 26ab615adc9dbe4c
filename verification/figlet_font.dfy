/**
 * The current font (figurust/src/figlet/font.rs): loading a FIGfont from the
 * text of a font file, which takes the glyph lines out of the line list as
 * it reads them, and rendering text with it in the full-width and smushing
 * layouts.
 */
module FigletFont {
  import opened Wrappers
  import opened Text
  import opened Header
  import opened FontFormat
  import opened FigletChars
  import S = EngineSettings

  datatype FIGfont = FIGfont(header: RawHeader, comments: string, characters: map<nat, FIGcharacter>)

  datatype FontLoadError =
    | EmptyString
    | MissingHeader
    | HeaderError(headerError: HeaderParseError)
    | CharacterError(characterError: CharacterParseError)

  // ---------------------------------------------------------------------------
  // Loading

  /** The required glyphs, each read from its block of the original lines. */
  function Glyphs(lines: seq<string>, h: RawHeader): (m: map<nat, FIGcharacter>)
    requires BlocksFit(lines, h)
    ensures forall code :: code in m <==> 32 <= code <= 126
    ensures forall code :: code in m ==> |m[code].charLines| == h.height
  {
    map code: nat | 32 <= code <= 126 :: Glyph(Block(lines, h, code), h.height)
  }

  /**
   * What `FIGfont::from_str` returns: `EmptyString` exactly for the empty
   * text, the header's own error when the first line does not parse, and
   * otherwise the header, the comment lines joined by newlines and the 95
   * required glyphs, each with one stored row per font row.
   */
  function Load(s: string): (r: Result<FIGfont, FontLoadError>)
    requires Loadable(s)
    ensures r == Failure(EmptyString) <==> s == ""
    ensures r != Failure(MissingHeader)
    ensures s != "" && Header.FromStr(Lines(s)[0]).Failure? ==> r == Failure(HeaderError(Header.FromStr(Lines(s)[0]).error))
    ensures r.Success? ==> r.value.header == Header.FromStr(Lines(s)[0]).value
    ensures r.Success? ==> forall code :: code in r.value.characters <==> 32 <= code <= 126
    ensures r.Success? ==> forall code :: code in r.value.characters ==> |r.value.characters[code].charLines| == r.value.header.height
  {
    if s == "" then Failure(EmptyString)
    else
      var lines := Lines(s);
      if lines == [] then Failure(MissingHeader)
      else
        match Header.FromStr(lines[0])
        case Failure(e) => Failure(HeaderError(e))
        case Success(header) =>
          BlockOrder(header, 32, 127);
          Success(FIGfont(header, Join(lines[1..header.commentLines + 1], '\n'), Glyphs(lines, header)))
  }

  /**
   * Row `y` of a loaded glyph is the font line at that place without its
   * `@` or `@@` terminator, hardblanks kept, and no wider than the glyph.
   */
  lemma GlyphRow(lines: seq<string>, h: RawHeader, code: nat, y: nat)
    requires BlocksFit(lines, h) && 32 <= code <= 126 && y < h.height
    ensures BlockStart(h, code) + y < |lines|
    ensures var line := lines[BlockStart(h, code) + y];
      var glyph := Glyphs(lines, h)[code];
      && |glyph.charLines[y]| + TerminatorLength(y, h.height, h.height) == |line|
      && glyph.charLines[y] == line[..|glyph.charLines[y]|]
      && |glyph.charLines[y]| <= glyph.width
  {
    BlockOrder(h, code, 127);
    var rows := Block(lines, h, code);
    assert rows[y] == lines[BlockStart(h, code) + y];
    var glyph := Glyphs(lines, h)[code];
    assert glyph == Glyph(rows, h.height);
    var row := glyph.charLines[y];
    assert row == StrippedRow(rows, y, h.height);
    assert row == rows[y][..|row|];
  }

  /** A loaded font's glyphs are those of its lines. */
  lemma LoadedGlyphs(s: string)
    requires Loadable(s) && Load(s).Success?
    ensures BlocksFit(Lines(s), Load(s).value.header)
    ensures Load(s).value.characters == Glyphs(Lines(s), Load(s).value.header)
  {
  }

  /**
   * `FIGfont::from_str`: splits the text into lines, parses the header,
   * joins the comments and reads the required glyphs out of the line list.
   */
  method FromStr(s: string) returns (r: Result<FIGfont, FontLoadError>)
    requires Loadable(s)
    ensures r == Load(s)
  {
    if s == "" {
      return Failure(EmptyString);
    }
    var lineSeq := Lines(s);
    var parsed := Header.FromStr(lineSeq[0]);
    if parsed.Failure? {
      return Failure(HeaderError(parsed.error));
    }
    var header := parsed.value;
    LoadParsed(s, header);
    var comments := Join(lineSeq[1..header.commentLines + 1], '\n');
    var lines := new string[|lineSeq|](k requires 0 <= k < |lineSeq| => lineSeq[k]);
    assert lines[..] == lineSeq;
    var characters := ReadRequiredCharacters(lines, header);
    return Success(FIGfont(header, comments, characters));
  }

  /** Once the header parses, loading succeeds with the comments and the glyphs of the lines. */
  lemma LoadParsed(s: string, header: RawHeader)
    requires Loadable(s) && s != ""
    requires Header.FromStr(Lines(s)[0]) == Success(header)
    ensures header.commentLines < 0xFFFF && BlocksFit(Lines(s), header)
    ensures header.commentLines + 1 <= |Lines(s)|
    ensures Load(s) == Success(FIGfont(header, Join(Lines(s)[1..header.commentLines + 1], '\n'), Glyphs(Lines(s), header)))
  {
    BlockOrder(header, 32, 127);
  }

  /**
   * `FIGfont::read_required_characters`: builds the glyphs of codes 32 to
   * 126 from their blocks, in order, and leaves every line of those blocks
   * empty. It never fails, so the map is returned directly.
   */
  method ReadRequiredCharacters(lines: array<string>, header: RawHeader) returns (characters: map<nat, FIGcharacter>)
    requires header.commentLines < 0xFFFF
    requires BlocksFit(lines[..], header)
    modifies lines
    ensures characters == Glyphs(old(lines[..]), header)
    ensures forall k :: 0 <= k < lines.Length ==> lines[k] == if InBlocks(header, k) then "" else old(lines[k])
  {
    ghost var original := lines[..];
    ghost var start := BlockStart(header, 32);
    var offset := header.commentLines + 1;
    var charHeight := header.height;
    characters := map[];
    var i := 32;
    ghost var filled := start;
    while i <= 126
      invariant 32 <= i <= 127
      invariant filled == BlockStart(header, i)
      invariant start <= filled <= lines.Length
      invariant characters == GlyphsBelow(original, header, i)
      invariant forall k :: start <= k < filled ==> lines[k] == ""
      invariant forall k :: 0 <= k < start || filled <= k < lines.Length ==> lines[k] == original[k]
    {
      var idx := offset + (i - 32) * charHeight;
      BlockOrder(header, i, 127);
      assert idx == filled;
      UntouchedBlock(lines[..], original, header, i);
      ghost var block := lines[idx..idx + charHeight];
      assert block == Block(original, header, i);
      var res := FromLines(lines, idx, idx + charHeight, header);
      assert res.value == Glyph(Block(original, header, i), header.height);
      GlyphsBelowStep(original, header, i);
      characters := characters[i := res.value];
      filled := idx + charHeight;
      i := i + 1;
    }
    assert filled == RequiredLines(header);
    GlyphsBelowAll(original, header);
  }

  /** The block of glyph `code` is as it was while no later block has been read. */
  lemma UntouchedBlock(current: seq<string>, original: seq<string>, h: RawHeader, code: nat)
    requires 32 <= code <= 126 && RequiredLines(h) <= |original| == |current|
    requires forall k :: BlockStart(h, code) <= k < |current| ==> current[k] == original[k]
    ensures BlockStart(h, code) + h.height <= |current|
    ensures current[BlockStart(h, code)..BlockStart(h, code) + h.height] == Block(original, h, code)
  {
    BlockOrder(h, code, 127);
  }

  /** The glyphs of codes 32 up to `i - 1`. */
  function GlyphsBelow(lines: seq<string>, h: RawHeader, i: nat): map<nat, FIGcharacter>
    requires BlocksFit(lines, h) && i <= 127
  {
    map code: nat | 32 <= code < i :: Glyph(Block(lines, h, code), h.height)
  }

  lemma GlyphsBelowAll(lines: seq<string>, h: RawHeader)
    requires BlocksFit(lines, h)
    ensures GlyphsBelow(lines, h, 127) == Glyphs(lines, h)
  {
  }

  lemma GlyphsBelowStep(lines: seq<string>, h: RawHeader, i: nat)
    requires BlocksFit(lines, h) && 32 <= i <= 126
    ensures GlyphsBelow(lines, h, i + 1) == GlyphsBelow(lines, h, i)[i := Glyph(Block(lines, h, i), h.height)]
  {
  }

  // ---------------------------------------------------------------------------
  // Rendering

  datatype FontConvertError = MissingCharacter(c: char)

  /** Every glyph has row `y`. */
  predicate HasRow(glyphs: seq<FIGcharacter>, y: nat)
  {
    forall g :: 0 <= g < |glyphs| ==> y < |glyphs[g].charLines|
  }

  /** Row `y` of the first `g` glyphs side by side (full width). */
  function FullRow(glyphs: seq<FIGcharacter>, g: nat, y: nat): string
    requires g <= |glyphs| && HasRow(glyphs, y)
  {
    if g == 0 then "" else FullRow(glyphs, g - 1, y) + glyphs[g - 1].charLines[y]
  }

  /** `join_line` can join row `y` of every glyph onto its left neighbour in the smushing layout. */
  predicate SmushJoinable(glyphs: seq<FIGcharacter>, y: nat)
  {
    && HasRow(glyphs, y)
    && forall g :: 1 <= g < |glyphs| ==> JoinDefined(glyphs[g], y, S.Smushing, Some(glyphs[g - 1]))
  }

  /**
   * Row `y` of the first `g` glyphs in the smushing layout: the first glyph
   * as is, each later one joined onto its left neighbour.
   */
  function SmushRow(glyphs: seq<FIGcharacter>, g: nat, y: nat): string
    requires 1 <= g <= |glyphs| && SmushJoinable(glyphs, y)
  {
    if g == 1 then JoinLine(glyphs[0], y, S.Smushing, None)
    else SmushRow(glyphs, g - 1, y) + JoinLine(glyphs[g - 1], y, S.Smushing, Some(glyphs[g - 2]))
  }

  /** Row `y` of a line of glyphs can be rendered with `spacing`. */
  predicate RowRenderable(glyphs: seq<FIGcharacter>, y: nat, spacing: S.Spacing)
  {
    && (spacing == S.FullWidth || spacing == S.Smushing)
    && HasRow(glyphs, y)
    && (spacing == S.Smushing ==> glyphs != [] && SmushJoinable(glyphs, y))
  }

  /** Output row `y` of a line of glyphs. */
  function Row(glyphs: seq<FIGcharacter>, y: nat, spacing: S.Spacing): string
    requires RowRenderable(glyphs, y, spacing)
  {
    if spacing == S.FullWidth then FullRow(glyphs, |glyphs|, y) else SmushRow(glyphs, |glyphs|, y)
  }

  /** Rows 0 to `n - 1` of a line of glyphs can be rendered. */
  predicate LineRenderable(glyphs: seq<FIGcharacter>, n: nat, spacing: S.Spacing)
  {
    forall y :: 0 <= y < n ==> RowRenderable(glyphs, y, spacing)
  }

  /** The first `n` output rows of one line of text. */
  function LineRows(glyphs: seq<FIGcharacter>, n: nat, spacing: S.Spacing): (rows: seq<string>)
    requires LineRenderable(glyphs, n, spacing)
    ensures |rows| == n
  {
    if n == 0 then [] else LineRows(glyphs, n - 1, spacing) + [Row(glyphs, n - 1, spacing)]
  }

  /**
   * What `convert` needs of the glyphs of the text to run without
   * panicking: a spacing it implements, `height` rows in every glyph, and
   * in the smushing layout a non-empty line whose neighbouring rows
   * `join_line` can join.
   */
  predicate Renderable(glyphLines: seq<seq<FIGcharacter>>, height: nat, spacing: S.Spacing)
  {
    && (spacing == S.FullWidth || spacing == S.Smushing)
    && forall i :: 0 <= i < |glyphLines| ==> LineRenderable(glyphLines[i], height, spacing)
  }

  /** The output rows of the first `n` lines of text: `height` rows per line, in order. */
  function OutputRows(glyphLines: seq<seq<FIGcharacter>>, n: nat, height: nat, spacing: S.Spacing): seq<string>
    requires n <= |glyphLines| && Renderable(glyphLines, height, spacing)
  {
    if n == 0 then [] else OutputRows(glyphLines, n - 1, height, spacing) + LineRows(glyphLines[n - 1], height, spacing)
  }

  /** `convert` does not panic on `content`. */
  predicate Convertible(font: FIGfont, content: string, spacing: S.Spacing)
  {
    var resolved := Resolve(font.characters, Lines(content));
    resolved.Success? ==> Renderable(resolved.value, font.header.height, spacing)
  }

  /**
   * What `convert` returns: the first character of the text, in reading
   * order, that the font has no glyph for; otherwise every output row
   * followed by a newline.
   */
  function Converted(font: FIGfont, content: string, spacing: S.Spacing): (r: Result<string, FontConvertError>)
    requires Convertible(font, content, spacing)
  {
    match Resolve(font.characters, Lines(content))
    case Failure(c) => Failure(MissingCharacter(c))
    case Success(glyphLines) => Success(Terminated(OutputRows(glyphLines, |glyphLines|, font.header.height, spacing)))
  }

  // ---------------------------------------------------------------------------
  // What rendering promises

  /** Text without lines renders as the empty string in either layout. */
  lemma ConvertedEmpty(font: FIGfont, spacing: S.Spacing)
    requires spacing == S.FullWidth || spacing == S.Smushing
    ensures Convertible(font, "", spacing)
    ensures Converted(font, "", spacing) == Success("")
  {
    assert Lines("") == [];
  }

  /** A loaded font renders any text full width without panicking: every glyph has `height` rows. */
  lemma LoadedConvertible(s: string, content: string)
    requires Loadable(s) && Load(s).Success?
    ensures Convertible(Load(s).value, content, S.FullWidth)
  {
    var font := Load(s).value;
    var lines := Lines(content);
    var resolved: Result<seq<seq<FIGcharacter>>, char> := Resolve(font.characters, lines);
    if resolved.Success? {
      forall i, g | 0 <= i < |resolved.value| && 0 <= g < |resolved.value[i]|
        ensures font.header.height == |resolved.value[i][g].charLines|
      {
        assert resolved.value[i] == ResolveLine(font.characters, lines[i]).value;
        assert resolved.value[i][g] == font.characters[Code(lines[i][g])];
      }
    }
  }

  /**
   * Rendering fails exactly when some character of the text has no glyph,
   * and then names the first such character in reading order.
   */
  lemma ConvertedFailure(font: FIGfont, content: string, spacing: S.Spacing)
    requires Convertible(font, content, spacing)
    ensures Converted(font, content, spacing).Failure? <==> exists i, j :: MissingAt(font.characters, Lines(content), i, j)
    ensures Converted(font, content, spacing).Failure? ==>
      FirstMissing(font.characters, Lines(content), Converted(font, content, spacing).error.c)
  {
    var r := Resolve(font.characters, Lines(content));
    ResolveFailsExactly(font.characters, Lines(content));
    if r.Failure? {
      ResolveFirstMissing(font.characters, Lines(content));
    }
  }

  /** `s` is `t` with some of its characters turned into spaces. */
  predicate SpacedOut(s: string, t: string)
  {
    |s| == |t| && forall k :: 0 <= k < |s| ==> s[k] == t[k] || s[k] == ' '
  }

  /** Row by row, `a` is `b` with some characters turned into spaces. */
  predicate AllSpacedOut(a: seq<string>, b: seq<string>)
  {
    |a| == |b| && forall i :: 0 <= i < |a| ==> SpacedOut(a[i], b[i])
  }

  lemma SpacedOutAppend(s1: string, t1: string, s2: string, t2: string)
    requires SpacedOut(s1, t1) && SpacedOut(s2, t2)
    ensures SpacedOut(s1 + s2, t1 + t2)
  {
    forall k | |s1| <= k < |s1| + |s2|
      ensures (s1 + s2)[k] == (t1 + t2)[k] || (s1 + s2)[k] == ' '
    {
      assert (s1 + s2)[k] == s2[k - |s1|] && (t1 + t2)[k] == t2[k - |s1|];
    }
  }

  lemma AllSpacedOutAppend(a1: seq<string>, b1: seq<string>, a2: seq<string>, b2: seq<string>)
    requires AllSpacedOut(a1, b1) && AllSpacedOut(a2, b2)
    ensures AllSpacedOut(a1 + a2, b1 + b2)
  {
    forall i | |a1| <= i < |a1| + |a2|
      ensures SpacedOut((a1 + a2)[i], (b1 + b2)[i])
    {
      assert (a1 + a2)[i] == a2[i - |a1|] && (b1 + b2)[i] == b2[i - |a1|];
    }
  }

  /** A smushed row is the full-width row with some characters turned into spaces. */
  lemma {:induction false} SmushRowSpacedOut(glyphs: seq<FIGcharacter>, g: nat, y: nat)
    requires 1 <= g <= |glyphs| && SmushJoinable(glyphs, y)
    ensures SpacedOut(SmushRow(glyphs, g, y), FullRow(glyphs, g, y))
  {
    var row := glyphs[g - 1].charLines[y];
    if g == 1 {
      assert SmushRow(glyphs, g, y) == row;
      assert FullRow(glyphs, g, y) == "" + row;
    } else {
      SmushRowSpacedOut(glyphs, g - 1, y);
      var joined := JoinLine(glyphs[g - 1], y, S.Smushing, Some(glyphs[g - 2]));
      assert SpacedOut(joined, row);
      SpacedOutAppend(SmushRow(glyphs, g - 1, y), FullRow(glyphs, g - 1, y), joined, row);
    }
  }

  /** The rows of one line of text in the two layouts, compared row by row. */
  lemma {:induction false} LineRowsSpacedOut(glyphs: seq<FIGcharacter>, n: nat)
    requires LineRenderable(glyphs, n, S.Smushing)
    ensures LineRenderable(glyphs, n, S.FullWidth)
    ensures AllSpacedOut(LineRows(glyphs, n, S.Smushing), LineRows(glyphs, n, S.FullWidth))
  {
    if n > 0 {
      LineRowsSpacedOut(glyphs, n - 1);
      var last := n - 1;
      assert RowRenderable(glyphs, last, S.Smushing);
      SmushRowSpacedOut(glyphs, |glyphs|, last);
      AllSpacedOutAppend(LineRows(glyphs, n - 1, S.Smushing), LineRows(glyphs, n - 1, S.FullWidth),
                         [Row(glyphs, last, S.Smushing)], [Row(glyphs, last, S.FullWidth)]);
    }
  }

  /** The output rows of the first `n` lines of text in the two layouts, compared row by row. */
  lemma {:induction false} OutputRowsSpacedOut(glyphLines: seq<seq<FIGcharacter>>, n: nat, height: nat)
    requires n <= |glyphLines| && Renderable(glyphLines, height, S.Smushing)
    ensures Renderable(glyphLines, height, S.FullWidth)
    ensures AllSpacedOut(OutputRows(glyphLines, n, height, S.Smushing), OutputRows(glyphLines, n, height, S.FullWidth))
  {
    forall i | 0 <= i < |glyphLines|
      ensures LineRenderable(glyphLines[i], height, S.FullWidth)
    {
      LineRowsSpacedOut(glyphLines[i], height);
    }
    if n > 0 {
      OutputRowsSpacedOut(glyphLines, n - 1, height);
      LineRowsSpacedOut(glyphLines[n - 1], height);
      AllSpacedOutAppend(OutputRows(glyphLines, n - 1, height, S.Smushing), OutputRows(glyphLines, n - 1, height, S.FullWidth),
                         LineRows(glyphLines[n - 1], height, S.Smushing), LineRows(glyphLines[n - 1], height, S.FullWidth));
    }
  }

  lemma {:induction false} TerminatedSpacedOut(a: seq<string>, b: seq<string>)
    requires AllSpacedOut(a, b)
    ensures SpacedOut(Terminated(a), Terminated(b))
    decreases |a|
  {
    if a != [] {
      var n := |a| - 1;
      assert AllSpacedOut(a[..n], b[..n]) by {
        assert forall i :: 0 <= i < n ==> a[..n][i] == a[i] && b[..n][i] == b[i];
      }
      TerminatedSpacedOut(a[..n], b[..n]);
      assert SpacedOut(a[n], b[n]);
      SpacedOutAppend(Terminated(a[..n]), Terminated(b[..n]), a[n], b[n]);
      SpacedOutAppend(Terminated(a[..n]) + a[n], Terminated(b[..n]) + b[n], "\n", "\n");
    }
  }

  /**
   * Smushing never moves anything: text that renders in the smushing layout
   * renders full width too, fails with the same missing character, or gives
   * an output of the same length that differs only where smushing turned a
   * character into a space.
   */
  lemma SmushingOnlyBlanks(font: FIGfont, content: string)
    requires Convertible(font, content, S.Smushing)
    ensures Convertible(font, content, S.FullWidth)
    ensures Converted(font, content, S.Smushing).Failure? ==>
      Converted(font, content, S.Smushing) == Converted(font, content, S.FullWidth)
    ensures Converted(font, content, S.Smushing).Success? ==>
      && Converted(font, content, S.FullWidth).Success?
      && SpacedOut(Converted(font, content, S.Smushing).value, Converted(font, content, S.FullWidth).value)
  {
    var resolved := Resolve(font.characters, Lines(content));
    if resolved.Success? {
      var glyphLines := resolved.value;
      var height := font.header.height;
      OutputRowsSpacedOut(glyphLines, |glyphLines|, height);
      TerminatedSpacedOut(OutputRows(glyphLines, |glyphLines|, height, S.Smushing),
                          OutputRows(glyphLines, |glyphLines|, height, S.FullWidth));
    }
  }

  /** No stored row of `c` holds a newline. */
  predicate RowsWithoutNewline(c: FIGcharacter)
  {
    forall y :: 0 <= y < |c.charLines| ==> '\n' !in c.charLines[y]
  }

  /** No glyph of the font holds a newline. */
  predicate GlyphsWithoutNewline(characters: map<nat, FIGcharacter>)
  {
    forall code :: code in characters ==> RowsWithoutNewline(characters[code])
  }

  /** The glyphs of a loaded font come from lines of the font file, so they hold no newline. */
  lemma LoadedGlyphsWithoutNewline(s: string)
    requires Loadable(s) && Load(s).Success?
    ensures GlyphsWithoutNewline(Load(s).value.characters)
  {
    var lines := Lines(s);
    var h := Load(s).value.header;
    forall code, y | code in Load(s).value.characters && 0 <= y < |Load(s).value.characters[code].charLines|
      ensures '\n' !in Load(s).value.characters[code].charLines[y]
    {
      GlyphRow(lines, h, code, y);
    }
  }

  lemma {:induction false} FullRowWithoutNewline(glyphs: seq<FIGcharacter>, g: nat, y: nat)
    requires g <= |glyphs| && HasRow(glyphs, y)
    requires forall k :: 0 <= k < |glyphs| ==> RowsWithoutNewline(glyphs[k])
    ensures '\n' !in FullRow(glyphs, g, y)
  {
    if g > 0 {
      FullRowWithoutNewline(glyphs, g - 1, y);
      assert RowsWithoutNewline(glyphs[g - 1]);
    }
  }

  /** Every output row of one line of text is free of newlines. */
  lemma LineRowsWithoutNewline(glyphs: seq<FIGcharacter>, n: nat, spacing: S.Spacing)
    requires LineRenderable(glyphs, n, spacing)
    requires forall k :: 0 <= k < |glyphs| ==> RowsWithoutNewline(glyphs[k])
    ensures forall y :: 0 <= y < n ==> '\n' !in LineRows(glyphs, n, spacing)[y]
  {
    forall y | 0 <= y < n
      ensures '\n' !in LineRows(glyphs, n, spacing)[y]
    {
      LineRowsAt(glyphs, n, spacing, y);
      assert RowRenderable(glyphs, y, spacing);
      FullRowWithoutNewline(glyphs, |glyphs|, y);
      if spacing == S.Smushing {
        SmushRowSpacedOut(glyphs, |glyphs|, y);
      }
    }
  }

  lemma {:induction false} LineRowsAt(glyphs: seq<FIGcharacter>, n: nat, spacing: S.Spacing, y: nat)
    requires LineRenderable(glyphs, n, spacing) && y < n
    ensures LineRows(glyphs, n, spacing)[y] == Row(glyphs, y, spacing)
  {
    if y < n - 1 {
      LineRowsAt(glyphs, n - 1, spacing, y);
    }
  }

  /** `height` newline-free rows per line of text. */
  lemma {:induction false} OutputRowsShape(glyphLines: seq<seq<FIGcharacter>>, n: nat, height: nat, spacing: S.Spacing)
    requires n <= |glyphLines| && Renderable(glyphLines, height, spacing)
    requires forall i, k :: 0 <= i < |glyphLines| && 0 <= k < |glyphLines[i]| ==> RowsWithoutNewline(glyphLines[i][k])
    ensures |OutputRows(glyphLines, n, height, spacing)| == n * height
    ensures forall r :: 0 <= r < |OutputRows(glyphLines, n, height, spacing)| ==> '\n' !in OutputRows(glyphLines, n, height, spacing)[r]
  {
    if n > 0 {
      OutputRowsShape(glyphLines, n - 1, height, spacing);
      LineRowsWithoutNewline(glyphLines[n - 1], height, spacing);
      var prefix := OutputRows(glyphLines, n - 1, height, spacing);
      var line := LineRows(glyphLines[n - 1], height, spacing);
      assert (n - 1) * height + height == n * height;
      forall r | 0 <= r < |prefix + line|
        ensures '\n' !in (prefix + line)[r]
      {
        if r >= |prefix| {
          assert (prefix + line)[r] == line[r - |prefix|];
        }
      }
    }
  }

  /**
   * With glyphs free of newlines (as every loaded font's are), the output
   * holds exactly `height` lines per line of text, each ended by a newline.
   */
  lemma ConvertedLineCount(font: FIGfont, content: string, spacing: S.Spacing)
    requires Convertible(font, content, spacing) && Converted(font, content, spacing).Success?
    requires GlyphsWithoutNewline(font.characters)
    ensures Count(Converted(font, content, spacing).value, '\n') == |Lines(content)| * font.header.height
  {
    var lines := Lines(content);
    var glyphLines := Resolve(font.characters, lines).value;
    var height := font.header.height;
    forall i, k | 0 <= i < |glyphLines| && 0 <= k < |glyphLines[i]|
      ensures RowsWithoutNewline(glyphLines[i][k])
    {
      assert glyphLines[i] == ResolveLine(font.characters, lines[i]).value;
      assert glyphLines[i][k] == font.characters[Code(lines[i][k])];
    }
    OutputRowsShape(glyphLines, |glyphLines|, height, spacing);
    TerminatedNewlines(OutputRows(glyphLines, |glyphLines|, height, spacing));
  }

  /**
   * `FIGfont::convert`: looks up the glyph of every character of every line
   * of `content`, then writes `height` rows per line in the layout the
   * settings' spacing selects.
   */
  method Convert(font: FIGfont, content: string, settings: S.Settings) returns (r: Result<string, FontConvertError>)
    requires Convertible(font, content, settings.spacing)
    ensures r == Converted(font, content, settings.spacing)
  {
    var charLines := LookUp(font.characters, Lines(content));
    if charLines.Failure? {
      return Failure(MissingCharacter(charLines.error));
    }
    var output := Render(charLines.value, font.header.height, settings.spacing);
    return Success(output);
  }

  /** Writing row `y` and a newline after rows 0 to `y - 1` of a line writes rows 0 to `y`. */
  lemma LineRowsStep(glyphs: seq<FIGcharacter>, y: nat, spacing: S.Spacing, start: string, previous: string, next: string)
    requires LineRenderable(glyphs, y + 1, spacing)
    requires previous == start + Terminated(LineRows(glyphs, y, spacing))
    requires next == previous + Row(glyphs, y, spacing) + "\n"
    ensures next == start + Terminated(LineRows(glyphs, y + 1, spacing))
  {
    var rows := LineRows(glyphs, y + 1, spacing);
    assert rows[..y] == LineRows(glyphs, y, spacing);
  }

  /** Writing the rows of line `n` after those of lines 0 to `n - 1` writes those of lines 0 to `n`. */
  lemma OutputRowsStep(glyphLines: seq<seq<FIGcharacter>>, n: nat, height: nat, spacing: S.Spacing, previous: string, next: string)
    requires n < |glyphLines| && Renderable(glyphLines, height, spacing)
    requires previous == Terminated(OutputRows(glyphLines, n, height, spacing))
    requires next == previous + Terminated(LineRows(glyphLines[n], height, spacing))
    ensures next == Terminated(OutputRows(glyphLines, n + 1, height, spacing))
  {
    TerminatedAppend(OutputRows(glyphLines, n, height, spacing), LineRows(glyphLines[n], height, spacing));
  }

  /** Writes every output row of the resolved text, each followed by a newline. */
  method Render(charLines: seq<seq<FIGcharacter>>, height: nat, spacing: S.Spacing) returns (output: string)
    requires Renderable(charLines, height, spacing)
    ensures output == Terminated(OutputRows(charLines, |charLines|, height, spacing))
  {
    output := "";
    var n := 0;
    while n < |charLines|
      invariant 0 <= n <= |charLines|
      invariant output == Terminated(OutputRows(charLines, n, height, spacing))
    {
      ghost var previous := output;
      output := RenderLine(output, charLines[n], height, spacing);
      OutputRowsStep(charLines, n, height, spacing, previous, output);
      n := n + 1;
    }
  }

  /** Writes the `height` rows of one line of text, each followed by a newline. */
  method RenderLine(output: string, charLine: seq<FIGcharacter>, height: nat, spacing: S.Spacing) returns (o: string)
    requires LineRenderable(charLine, height, spacing)
    ensures o == output + Terminated(LineRows(charLine, height, spacing))
  {
    o := output;
    var y := 0;
    while y < height
      invariant 0 <= y <= height
      invariant o == output + Terminated(LineRows(charLine, y, spacing))
    {
      ghost var previous := o;
      assert RowRenderable(charLine, y, spacing);
      if spacing == S.FullWidth {
        o := AppendFullRow(o, charLine, y);
      } else {
        o := AppendSmushRow(o, charLine, y);
      }
      o := o + "\n";
      LineRowsStep(charLine, y, spacing, output, previous, o);
      y := y + 1;
    }
  }

  /** Appends row `y` of each glyph in turn (full width). */
  method AppendFullRow(output: string, glyphs: seq<FIGcharacter>, y: nat) returns (o: string)
    requires HasRow(glyphs, y)
    ensures o == output + FullRow(glyphs, |glyphs|, y)
  {
    o := output;
    var g := 0;
    while g < |glyphs|
      invariant 0 <= g <= |glyphs|
      invariant o == output + FullRow(glyphs, g, y)
    {
      o := o + glyphs[g].charLines[y];
      g := g + 1;
    }
  }

  /** Joins row `y` of the first glyph, then of each glyph onto its left neighbour (smushing). */
  method AppendSmushRow(output: string, glyphs: seq<FIGcharacter>, y: nat) returns (o: string)
    requires glyphs != [] && SmushJoinable(glyphs, y)
    ensures o == output + SmushRow(glyphs, |glyphs|, y)
  {
    o := output + JoinLine(glyphs[0], y, S.Smushing, None);
    var g := 1;
    while g < |glyphs|
      invariant 1 <= g <= |glyphs|
      invariant o == output + SmushRow(glyphs, g, y)
    {
      o := o + JoinLine(glyphs[g], y, S.Smushing, Some(glyphs[g - 1]));
      g := g + 1;
    }
  }
}
