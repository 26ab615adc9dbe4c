# FIGUrust font engine in Dafny

This project models the core of FIGUrust, a Rust take on FIGlet, the program that draws
text in large letters built from ordinary characters. The model covers:

- **Header.** The font header line (`flf2a$ 5 4 13 15 10 0 22415 96`) is split on single
  spaces and read positionally. There is a signature plus a hardblank, five required
  numeric fields and three optional ones. Every error the parser reports is modelled:
  a wrong segment count, an invalid signature, a missing segment, and a segment that
  does not parse. Integer parsing follows Rust's `u16` and `i8` `from_str`, including
  the overflow kinds.
- **Current loader** (`figurust::figlet`). `FIGfont::from_str` splits the font text into
  lines and parses the header. It joins the comment lines. `read_required_characters`
  then cuts the 95 required glyphs (codes 32 to 126) out of the line list. It does so
  with `FIGcharacter::from_lines`, which strips each row's `@` or `@@` terminator and
  empties the lines it has read (`std::mem::take`). That part is modelled imperatively,
  on an `array<string>` that the methods change in place.
- **Rendering** (`FIGfont::convert`). Every character of the text is looked up, and the
  first missing one is reported. The glyphs are then laid out row by row, either full
  width or with the crate's simple smushing through `FIGcharacter::join_line`.
- **Legacy loader** (`figurust::font`). This is the older loader and renderer. It keeps
  each glyph's code, replaces hardblanks with spaces, reads the lines without changing
  them, and renders full width only.
- **Magic number.** `to_magic_number` packs four characters big-endian into a `u32`.
  `FONT_FILE_MAGIC_NUMBER` is the packing of "FRF0".
- **Settings validators.** Both command-line front ends, figlet-compat and the
  prototype binary, turn groups of mutually exclusive flags into settings and reject
  any group with two flags set.

Each loop of the source is a method proved against a specification function: `Load`,
`Glyphs`, `Glyph`, `Resolve` and `Converted`. The lemmas then state what the source
promises about those functions:

- the header round-trips through its own text;
- loading fails exactly in the documented cases;
- rendering fails exactly when a character has no glyph, and then names the first such
  character;
- the output has one line per font row per text line;
- smushing only ever turns characters into spaces;
- the legacy output never contains a hardblank;
- the flag groups resolve as a reference definition says.

Modules, one per source file plus shared helpers:

- `Wrappers`: `Option` and `Result`.
- `Ints`: the integer widths.
- `Text`: Rust's `split`, `lines`, `join`, `replace` and integer `parse`.
- `Header`
- `FontFormat`: the font-file layout shared by both loaders.
- `FigletChars`
- `FigletFont`
- `LegacyChars`
- `LegacyFont`
- `Magic`
- `EngineSettings`: the enums of the engine settings.
- `FlagGroups`
- `CompatSettings`
- `AppSettings`

## Model

| member | source | states |
|---|---|---|
| Text.Split | src/font/header.rs:40 | `split(' ')` yields at least one segment, and no segment holds the separator |
| Text.SplitCount | src/font/header.rs:40-43 | the number of segments is one more than the number of separators, which is what the segment-count check counts |
| Text.SplitJoin | src/font/header.rs:40 | joining the segments with the separator gives back the original text |
| Text.SplitAround | src/font/header.rs:40 | splitting `a + sep + b` splits `a` and `b` separately |
| Text.Join | figurust/src/figlet/font.rs:43 | `join("\n")` puts one separator between neighbouring parts; `SplitJoin` and `Header.JoinSplit` prove it is the inverse of `split` in both directions |
| Text.Lines | figurust/src/figlet/font.rs:40 | `lines()` yields no line holding a newline, and yields nothing exactly for the empty text |
| Text.LinesOfPlainText | figurust/src/figlet/font.rs:40 | on text with no carriage return and no final newline, `lines()` is the split on newlines |
| Text.StripCarriageReturn | figurust/src/figlet/font.rs:40 | the line comes back unchanged, or it is the result followed by one `'\r'` |
| Text.LinesOfText | figurust/src/figlet/font.rs:40 | on any text, `lines()` gives one line per newline-ended token with one trailing `'\r'` removed, plus the text after the last newline when it is not empty |
| Text.SplitWithCrLf | figurust/src/figlet/font.rs:40 | writing each newline as `"\r\n"` adds a `'\r'` to the end of every token but the last of `split('\n')` |
| Text.LinesWithCrLf | figurust/src/figlet/font.rs:40 | text without carriage returns has the same `lines()` with Windows line endings as with Unix ones |
| Text.ReplaceChar | figurust/src/font/chars.rs:39 | `replace` keeps the length, changes exactly the matching characters, and leaves none of them behind |
| Text.CountAppend | figurust/src/figlet/font.rs:120 | counting a character is additive over concatenation |
| Text.ParseInt | src/font/header.rs:97-101 | the parse fails with `Empty` exactly on the empty string, and any value it returns lies in the target type's range |
| Text.Accumulate | src/font/header.rs:100 | the digit loop of `parse` never returns a value outside the type and never fails with `Empty`; `AccumulateDigits` and `AccumulateRejects` pin down its outcome |
| Text.AccumulateAppend | src/font/header.rs:100 | running the digit loop over `a + b` is running it over `a`, then over `b` from where it stopped, and a failure in `a` is final |
| Text.AccumulateDigits | src/font/header.rs:100 | over digits only, the loop yields the signed decimal value when it is in range, and otherwise the overflow in the sign's direction |
| Text.AccumulateRejects | src/font/header.rs:100 | any non-digit among the characters makes the loop fail |
| Text.ParseIntNumeral | src/font/header.rs:100 | the parse succeeds exactly on an optional sign followed by in-range decimal digits, and the result is their value |
| Text.ParseFormatInt | src/font/header.rs:116 | every in-range integer, written in decimal, parses back to itself |
| Header.Get | src/font/header.rs:97-99 | `segments.get(idx)` is present exactly for an index in range, and is that segment |
| Header.Nth | src/font/header.rs:80-83 | `chars().nth(n)` is present exactly for `n` below the length |
| Header.ReadSignature | src/font/header.rs:74-86 | succeeds exactly when the segment minus its last character starts with `flf2`; signature plus hardblank is the segment; otherwise fails with that signature |
| Header.ExtractRequiredSegment | src/font/header.rs:88-102 | a missing index gives `MissingSegment`; otherwise the value is the segment's parse, or `InvalidSegment` with the parse error |
| Header.ExtractOptionalSegment | src/font/header.rs:104-120 | absent exactly when the index is out of range; otherwise the segment's parse or `InvalidSegment` |
| Header.FromStr | src/font/header.rs:39-70 | `WrongNumberOfSegments(count)` exactly for fewer than six segments; `MissingHardblank` and `MissingSegment` never occur; a bad signature is reported as such |
| Header.FromSegments | src/font/header.rs:46-69 | from six segments on, the count and missing-segment errors never occur and a bad signature is reported first |
| Header.FirstBadField | src/font/header.rs:48-56 | finds the first of fields 1 to 8 that is present but does not parse, and otherwise shows all fields parse |
| Header.HeaderOutcome | src/font/header.rs:39-70 | with a valid signature, the first unparsable field decides the `InvalidSegment` error; otherwise the header holds exactly the parsed value of each present segment, and nothing for each absent optional one |
| Header.HeaderAccepts | src/font/header.rs:39-70 | a line is accepted exactly when it has six segments or more, a valid signature and parsable fields |
| Header.ExtraSegmentsIgnored | src/font/header.rs:40-56 | segments after the ninth do not change the outcome |
| Header.FirstNineDecide | src/font/header.rs:46-56 | two segment lists that agree on their first nine entries parse alike |
| Header.JoinSplit | src/font/header.rs:40 | splitting tokens joined with a separator they do not contain gives the tokens back |
| Header.SplitFormat | src/font/header.rs:40 | a header written out as text splits into its own tokens |
| Header.TokenAt | src/font/header.rs:48-56 | token `j` of a written header exists exactly when field `j` is present, and is its decimal numeral |
| Header.TokenParses | src/font/header.rs:48-56 | each token of a written header parses back to its field's value |
| Header.FieldInRange | src/font/header.rs:12-20 | every field lies in the range of its Rust type |
| Header.FormatRoundTrip | src/font/header.rs:37-70 | every header a line can express (signature starting with `flf2` and free of spaces, hardblank not a space, optional fields present only in order) parses back from its own text |
| Header.SmallFontTokens | src/tests/small.rs:1-12 | the `small` font's header values are written as the tokens of its header line |
| Header.SmallFontHeader | src/tests.rs:5-30 | the header line of the `small` font parses to the values the crate's test expects |
| Magic.ToMagicNumber | src/utils.rs:6-11 | `to_magic_number` packs four characters by shifting each code into its byte, the first at bit 24, and or-ing them; `MagicNumberAsSum`, `UnpackMagicNumber` and `MagicNumberInjective` state what that gives |
| Magic.Unpack | src/utils.rs:6-11 | unpacking a word gives four one-byte characters |
| Magic.MagicNumberAsSum | src/utils.rs:6-11 | for one-byte characters the shifts and ors are the base-256 number `c0 c1 c2 c3` |
| Magic.UnpackMagicNumber | src/utils.rs:6-11 | for one-byte characters, unpacking the magic number gives back the four characters |
| Magic.MagicNumberInjective | src/utils.rs:6-11 | distinct one-byte quadruples have distinct magic numbers |
| Magic.WideCharactersCollide | src/utils.rs:6-11 | beyond one byte the shifts lose bits: `Ā` and NUL in the first place pack alike |
| Magic.FontFileMagicNumberValue | src/utils.rs:4 | `FONT_FILE_MAGIC_NUMBER` is 0x46524630 |
| FontFormat.TerminatorLength | figurust/src/figlet/chars.rs:93-99 | a row loses one terminator character, or two for the last row of a glyph taller than one |
| FontFormat.StrippedRow | figurust/src/figlet/chars.rs:93-104 | the stored row is the font line minus its terminator length, as a prefix of the line |
| FontFormat.LineWidthStrips | figurust/src/figlet/chars.rs:93-99 | the `line_width` computed by the source lies within the line and cuts off exactly the stripped row |
| FontFormat.MaxLength | figurust/src/figlet/chars.rs:101-103 | the running maximum bounds every row, and is 0 with no rows |
| FontFormat.MaxLengthAttained | figurust/src/figlet/chars.rs:101-103 | the maximum is the length of some row |
| FontFormat.MaxLengthAppend | figurust/src/figlet/chars.rs:101-103 | one more row raises the maximum only if it is longer |
| FontFormat.MaxLengthOfLengths | figurust/src/font/chars.rs:35-39 | rows of equal lengths have equal maxima |
| FontFormat.BlockOrder | figurust/src/figlet/font.rs:64-71 | glyph `i` starts at `comment_lines + 1 + (i - 32) * height`; consecutive blocks are adjacent and never overlap |
| FontFormat.Block | figurust/src/figlet/font.rs:69-71 | the lines read for glyph `i` are `height` lines |
| FontFormat.ResolveLine | figurust/src/figlet/font.rs:103-109 | a text line's lookup succeeds exactly when each character has a glyph, gives the glyph of each character, and otherwise fails with a missing character of the line |
| FontFormat.Resolve | figurust/src/figlet/font.rs:101-111 | the text's lookup succeeds exactly when every line's does, and otherwise fails with the error of some line |
| FontFormat.ResolveLineFound | figurust/src/figlet/font.rs:103-109 | when each character has a glyph, the lookup yields exactly those glyphs |
| FontFormat.ResolveFound | figurust/src/figlet/font.rs:101-111 | when every line resolves, the lookup yields the lines' glyph lists |
| FontFormat.ResolveFailsExactly | figurust/src/figlet/font.rs:101-111 | the lookup fails exactly when some character of some line has no glyph |
| FontFormat.ResolveFirstMissing | figurust/src/figlet/font.rs:101-111 | a failing lookup names the first character, in reading order, that has no glyph |
| FontFormat.MissingCharacterFound | figurust/src/figlet/font.rs:104-106 | the first missing character in reading order is the one reported |
| FontFormat.LookUp | figurust/src/figlet/font.rs:97-111 | the lookup loops compute `Resolve` |
| FontFormat.TerminatedAppend | figurust/src/figlet/font.rs:115-121 | writing rows each followed by a newline distributes over concatenation |
| FontFormat.TerminatedNewlines | figurust/src/figlet/font.rs:120 | rows without newlines, each followed by one, give one newline per row |
| FigletChars.Glyph | figurust/src/figlet/chars.rs:88-108 | a glyph has one row per line, each row the stripped line with hardblanks kept, and its width bounds every row |
| FigletChars.StrippedRowsAt | figurust/src/figlet/chars.rs:104-105 | the rows collected so far are the stripped lines, in order |
| FigletChars.GlyphWidthAttained | figurust/src/figlet/chars.rs:101-103 | the width of a glyph with rows is the length of one of its rows |
| FigletChars.StrippedRowsStep | figurust/src/figlet/chars.rs:101-105 | one loop step adds the next stripped row and updates the running width |
| FigletChars.FromLines | figurust/src/figlet/chars.rs:88-108 | builds the glyph of the original lines of the slice, leaves every line of the slice empty, and leaves the other lines alone |
| FigletChars.Take | figurust/src/figlet/chars.rs:104 | `take` leaves the empty string in place of the line and changes nothing else |
| FigletChars.JoinLine | figurust/src/figlet/chars.rs:43-86 | appends the row itself, or in the smushing case, when a space meets the seam, the row with its first character turned into a space; the length is that of the row |
| FigletFont.Glyphs | figurust/src/figlet/font.rs:59-76 | the glyph map has exactly the codes 32 to 126, each glyph `height` rows tall |
| FigletFont.Load | figurust/src/figlet/font.rs:33-55 | `EmptyString` exactly for the empty text; `MissingHeader` never; a header error passes through; on success, the parsed header and the 95 glyphs of `height` rows |
| FigletFont.LoadParsed | figurust/src/figlet/font.rs:36-53 | once the header parses, the font is that header, the comment lines joined with newlines, and the glyphs of the lines |
| FigletFont.LoadedGlyphs | figurust/src/figlet/font.rs:42-53 | a loaded font's glyphs are read from the text's own lines |
| FigletFont.GlyphRow | figurust/src/figlet/font.rs:68-72 | row `y` of glyph `c` is the font line at its place minus its terminator, and no wider than the glyph |
| FigletFont.FromStr | figurust/src/figlet/font.rs:33-55 | loading computes `Load` |
| FigletFont.ReadRequiredCharacters | figurust/src/figlet/font.rs:59-76 | the map built is `Glyphs` of the original lines; exactly the glyph lines are left empty and all other lines are unchanged |
| FigletFont.UntouchedBlock | figurust/src/figlet/font.rs:68-71 | a block not yet read still holds its original lines |
| FigletFont.GlyphsBelowStep | figurust/src/figlet/font.rs:68-73 | each iteration inserts the next code's glyph |
| FigletFont.GlyphsBelowAll | figurust/src/figlet/font.rs:68-73 | after code 126 the map is complete |
| FigletFont.LineRows | figurust/src/figlet/font.rs:116-137 | a text line renders as `height` output rows |
| FigletFont.ConvertedEmpty | figurust/src/figlet/font.rs:92-144 | an empty text renders as the empty string |
| FigletFont.LoadedConvertible | figurust/src/figlet/font.rs:113-123 | a loaded font renders any text full width without panicking, because every glyph has `height` rows |
| FigletFont.ConvertedFailure | figurust/src/figlet/font.rs:101-111 | conversion fails exactly when a character has no glyph, and reports the first such character in reading order |
| FigletFont.SpacedOutAppend | figurust/src/figlet/chars.rs:69-75 | turning characters into spaces is compatible with concatenation |
| FigletFont.SmushRowSpacedOut | figurust/src/figlet/font.rs:127-134 | a smushed row is the full-width row with some characters turned into spaces |
| FigletFont.LineRowsSpacedOut | figurust/src/figlet/font.rs:124-138 | every smushed row of a text line is its full-width row with some characters turned into spaces |
| FigletFont.OutputRowsSpacedOut | figurust/src/figlet/font.rs:113-139 | the same holds for every output row of the text |
| FigletFont.TerminatedSpacedOut | figurust/src/figlet/font.rs:120-136 | and for the rows written out with their newlines |
| FigletFont.SmushingOnlyBlanks | figurust/src/figlet/font.rs:113-139 | text that renders smushed renders full width too: with the same error, or with an output of the same length that differs only where smushing put a space |
| FigletFont.LoadedGlyphsWithoutNewline | figurust/src/figlet/font.rs:40-47 | no row of a loaded glyph holds a newline |
| FigletFont.FullRowWithoutNewline | figurust/src/figlet/font.rs:117-119 | a full-width row of newline-free glyphs holds no newline |
| FigletFont.LineRowsWithoutNewline | figurust/src/figlet/font.rs:116-137 | the rows of a text line hold no newline |
| FigletFont.LineRowsAt | figurust/src/figlet/font.rs:116-137 | output row `y` of a text line is the layout's row `y` |
| FigletFont.OutputRowsShape | figurust/src/figlet/font.rs:113-139 | the text renders as `lines * height` rows, none holding a newline |
| FigletFont.ConvertedLineCount | figurust/src/figlet/font.rs:92-144 | the output holds exactly `height` newlines per text line |
| FigletFont.Convert | figurust/src/figlet/font.rs:92-144 | conversion computes `Converted` for the chosen spacing |
| FigletFont.LineRowsStep | figurust/src/figlet/font.rs:116-136 | one row more of the row loop appends that row and a newline |
| FigletFont.OutputRowsStep | figurust/src/figlet/font.rs:115-137 | one text line more appends its rows |
| FigletFont.Render | figurust/src/figlet/font.rs:113-139 | the layout loops write every output row followed by a newline |
| FigletFont.RenderLine | figurust/src/figlet/font.rs:116-137 | the row loop writes the rows of one text line |
| FigletFont.AppendFullRow | figurust/src/figlet/font.rs:117-119 | the full-width loop appends row `y` of each glyph, in order |
| FigletFont.AppendSmushRow | figurust/src/figlet/font.rs:127-134 | the smushing loop appends the first glyph's row, then each glyph's row joined onto its predecessor |
| FigletFont.FullRow | figurust/src/figlet/font.rs:117-119 | row `y` of the glyphs side by side, in order; `AppendFullRow` is the loop proved equal to it, and `FullRowWithoutNewline` and `LineRowsAt` are about it |
| FigletFont.SmushRow | figurust/src/figlet/font.rs:127-134 | the first glyph's row, then each glyph's row joined onto its left neighbour; `AppendSmushRow` is the loop proved equal to it, and `SmushRowSpacedOut` relates it to `FullRow` |
| FigletFont.Row | figurust/src/figlet/font.rs:113-139 | output row `y` of a text line in the chosen layout; `LineRowsAt` and `LineRowsSpacedOut` are about it |
| FigletFont.OutputRows | figurust/src/figlet/font.rs:113-139 | the rows of each text line in turn; `OutputRowsShape` gives their number and `OutputRowsSpacedOut` compares the layouts |
| FigletFont.Converted | figurust/src/figlet/font.rs:92-144 | the missing character, or every output row followed by a newline; `Convert` computes it, and `ConvertedFailure`, `ConvertedLineCount`, `ConvertedEmpty` and `SmushingOnlyBlanks` state its properties |
| LegacyChars.StoredRow | figurust/src/font/chars.rs:27-39 | a stored row is as long as the stripped line and holds no hardblank, unless the hardblank is a space |
| LegacyChars.StoredRowAvoids | figurust/src/font/chars.rs:39 | a stored row holds no character other than a space that its line lacks |
| LegacyChars.Glyph | figurust/src/font/chars.rs:19-46 | the glyph keeps its code and has one stored row per line; its width bounds every row; with a non-space hardblank no row holds it |
| LegacyChars.GlyphWidth | figurust/src/font/chars.rs:35-39 | the width, measured before replacement, is the longest stored row |
| LegacyChars.FromLines | figurust/src/font/chars.rs:19-46 | the loop builds `Glyph` of the lines |
| LegacyFont.Glyphs | figurust/src/font.rs:61-79 | the map has exactly the codes 32 to 126; each glyph carries its own code and `height` rows |
| LegacyFont.GlyphsBelowStep | figurust/src/font.rs:70-76 | each iteration inserts the next code's glyph |
| LegacyFont.GlyphsBelowAll | figurust/src/font.rs:70-76 | after code 126 the map is complete |
| LegacyFont.Load | figurust/src/font.rs:36-57 | `EmptyString` exactly for the empty text; `MissingHeader` never; a header error passes through; on success, the parsed header and 95 glyphs keyed by their own code |
| LegacyFont.LoadParsed | figurust/src/font.rs:38-56 | once the header parses, the font is that header, the joined comment lines, and the glyphs of the lines |
| LegacyFont.LoadedWithoutHardblank | figurust/src/font/chars.rs:39 | a loaded glyph holds no hardblank, unless the hardblank is a space |
| LegacyFont.LoadedWithoutNewline | figurust/src/font.rs:43 | a loaded glyph holds no newline |
| LegacyFont.FromStr | figurust/src/font.rs:36-57 | loading computes `Load` |
| LegacyFont.ReadRequiredCharacters | figurust/src/font.rs:61-79 | the loop builds `Glyphs` of the lines |
| LegacyFont.LineRows | figurust/src/font.rs:113-118 | a text line renders as `height` rows |
| LegacyFont.Convert | figurust/src/font.rs:95-122 | conversion computes `Converted` |
| LegacyFont.Render | figurust/src/font.rs:112-119 | the loops write every output row followed by a newline |
| LegacyFont.RenderLine | figurust/src/font.rs:113-118 | the row loop writes the rows of one text line |
| LegacyFont.AppendFullRow | figurust/src/font.rs:114-116 | appends row `y` of each glyph, in order |
| LegacyFont.FullRow | figurust/src/font.rs:114-116 | row `y` of the glyphs side by side, in order; `AppendFullRow` is the loop proved equal to it, and `FullRowAvoids` and `LineRowsAt` are about it |
| LegacyFont.OutputRows | figurust/src/font.rs:112-119 | the rows of each text line in turn; `OutputRowsCount` gives their number and `OutputRowsAvoid` their characters |
| LegacyFont.Converted | figurust/src/font.rs:95-122 | the missing character, or every output row followed by a newline; `Convert` computes it, and `ConvertedFailure`, `ConvertedLineCount`, `ConvertedAvoids` and `ConvertedEmpty` state its properties |
| LegacyFont.LineRowsStep | figurust/src/font.rs:113-118 | one row more appends that row and a newline |
| LegacyFont.OutputRowsStep | figurust/src/font.rs:112-119 | one text line more appends its rows |
| LegacyFont.LoadedConvertible | figurust/src/font.rs:95-122 | a loaded font converts any text without panicking |
| LegacyFont.ConvertedEmpty | figurust/src/font.rs:95-122 | an empty text renders as the empty string |
| LegacyFont.OutputRowsCount | figurust/src/font.rs:112-119 | the text renders as `lines * height` rows |
| LegacyFont.FullRowAvoids | figurust/src/font.rs:114-116 | a row built from glyph rows lacking a character lacks it too |
| LegacyFont.TerminatedAvoids | figurust/src/font.rs:117 | adding newlines introduces no other character |
| LegacyFont.OutputRowsAvoid | figurust/src/font.rs:112-119 | no output row holds a character that no glyph row holds |
| LegacyFont.LineRowsAt | figurust/src/font.rs:113-118 | output row `y` of a text line is row `y` of each glyph, in order |
| LegacyFont.ResolvedAvoid | figurust/src/font.rs:100-110 | the glyphs looked up are glyphs of the font |
| LegacyFont.ConvertedAvoids | figurust/src/font.rs:95-122 | the output holds no character, other than a newline, that no glyph holds |
| LegacyFont.ConvertedLineCount | figurust/src/font.rs:112-121 | the output holds exactly `height` newlines per text line |
| LegacyFont.ConvertedFailure | figurust/src/font.rs:100-110 | conversion fails exactly when a character has no glyph, and reports the first such character in reading order |
| LegacyFont.LoadedOutputWithoutHardblank | figurust/src/font.rs:95-122 | text rendered with a loaded font never shows its hardblank, unless the hardblank is a space or a newline |
| FlagGroups.CountTrue | src/settings.rs:79-87 | the count of set flags is zero exactly when no flag is set |
| FlagGroups.ChosenIsTheSetFlag | src/settings.rs:92-133 | with at most one flag set, the group takes the value of the set flag, or the default when none is set, whatever the order of the tests |
| FlagGroups.Exclusive2 | src/settings.rs:144-151 | a two-flag group fails when both are set, and otherwise takes the set flag's value or the default |
| FlagGroups.Exclusive3 | src/settings.rs:177-187 | a three-flag group fails when two or more are set, and otherwise takes the set flag's value or the default |
| FlagGroups.Exclusive4 | src/settings.rs:92-133 | a four-flag group fails when two or more are set, and otherwise takes the set flag's value or the default |
| CompatSettings.JustificationFrom | figlet-compat/src/settings.rs:17-26 | codes 0 to 2 map to the variant with that discriminant, and every other code maps to `Auto` (-1) |
| CompatSettings.RightToLeftFrom | figlet-compat/src/settings.rs:36-44 | codes 0 and 1 map to the variant with that discriminant, and every other code maps to `Detect` (-1) |
| CompatSettings.RightToLeftRoundTrip | figlet-compat/src/settings.rs:28-44 | every variant converts back from its own discriminant |
| CompatSettings.ParagraphModeFrom | figlet-compat/src/settings.rs:53-61 | `Paragraph` exactly for 1; codes 0 and 1 map to the variant with that discriminant |
| CompatSettings.AssertNoneTrue | figlet-compat/src/settings.rs:86-94 | succeeds exactly when no flag is set, and otherwise reports the group by name |
| CompatSettings.JustifyGroup | figlet-compat/src/settings.rs:99-140 | the justify chain is the exclusive choice of its four flags, defaulting to `Auto` |
| CompatSettings.WidthGroup | figlet-compat/src/settings.rs:142-151 | the terminal width needs a terminal and excludes an explicit width; otherwise the given width or 80 |
| CompatSettings.ModeGroup | figlet-compat/src/settings.rs:153-160 | the mode pair is an exclusive choice, defaulting to `Normal` |
| CompatSettings.SpacingGroup | figlet-compat/src/settings.rs:162-184 | the spacing chain is an exclusive choice of its four flags, defaulting to `Smushing` |
| CompatSettings.DirectionGroup | figlet-compat/src/settings.rs:186-196 | the direction chain is an exclusive choice of its three flags, defaulting to `Auto` |
| CompatSettings.TryFromMatchesReference | figlet-compat/src/settings.rs:96-211 | the conversion reports the first group in error, in source order, and otherwise builds the settings each group's set flag names |
| CompatSettings.ResolveJustify | figlet-compat/src/settings.rs:99-140 | the justify chain as written, test by test; `JustifyGroup` proves it is the exclusive choice of its four flags |
| CompatSettings.ResolveWidth | figlet-compat/src/settings.rs:142-151 | the width tests as written; `WidthGroup` states when each error occurs and which width results |
| CompatSettings.ResolveMode | figlet-compat/src/settings.rs:153-160 | the mode tests as written; `ModeGroup` proves it is the exclusive choice of its two flags |
| CompatSettings.ResolveSpacing | figlet-compat/src/settings.rs:162-184 | the spacing chain as written; `SpacingGroup` proves it is the exclusive choice of its four flags |
| CompatSettings.ResolveDirection | figlet-compat/src/settings.rs:186-196 | the direction chain as written; `DirectionGroup` proves it is the exclusive choice of its three flags |
| CompatSettings.TryFrom | figlet-compat/src/settings.rs:96-211 | the conversion as written, group after group with early return; `TryFromMatchesReference` proves it equal to `Expected` |
| CompatSettings.Expected | figlet-compat/src/settings.rs:96-211 | the reference outcome: the first group in error, in source order, and otherwise each group's value from its set flag or its default |
| AppSettings.ConflictMessage | src/settings.rs:86 | the error text for group `name`, "cannot set multiple {name} options"; `ConflictMessageInjective` shows it tells the groups apart |
| AppSettings.ConflictMessageInjective | src/settings.rs:86 | different groups have different conflict messages |
| AppSettings.AssertNoneTrue | src/settings.rs:79-87 | succeeds exactly when no flag is set, and otherwise reports "cannot set multiple {name} options" |
| AppSettings.JustifyGroup | src/settings.rs:92-133 | the justify chain is the exclusive choice of its four flags, defaulting to `Auto` |
| AppSettings.WidthGroup | src/settings.rs:135-142 | the terminal width excludes an explicit width; otherwise the given width, or a fixed 80 |
| AppSettings.ModeGroup | src/settings.rs:144-151 | the mode pair is an exclusive choice, defaulting to `Normal` |
| AppSettings.SpacingGroup | src/settings.rs:153-175 | the spacing chain is an exclusive choice of its four flags, defaulting to `Smushing` |
| AppSettings.DirectionGroup | src/settings.rs:177-187 | the direction chain is an exclusive choice of its three flags, defaulting to `Auto` |
| AppSettings.TryFromMatchesReference | src/settings.rs:89-201 | the conversion reports the first group in error, in source order, and otherwise builds the settings each group's set flag names |
| AppSettings.ResolveJustify | src/settings.rs:92-133 | the justify chain as written, test by test; `JustifyGroup` proves it is the exclusive choice of its four flags |
| AppSettings.ResolveWidth | src/settings.rs:135-142 | the width tests as written; `WidthGroup` states when each error occurs and which width results |
| AppSettings.ResolveMode | src/settings.rs:144-151 | the mode tests as written; `ModeGroup` proves it is the exclusive choice of its two flags |
| AppSettings.ResolveSpacing | src/settings.rs:153-175 | the spacing chain as written; `SpacingGroup` proves it is the exclusive choice of its four flags |
| AppSettings.ResolveDirection | src/settings.rs:177-187 | the direction chain as written; `DirectionGroup` proves it is the exclusive choice of its three flags |
| AppSettings.TryFrom | src/settings.rs:89-201 | the conversion as written, group after group with early return; `TryFromMatchesReference` proves it equal to `Expected` |
| AppSettings.Expected | src/settings.rs:89-201 | the reference outcome: the first group in error, in source order, and otherwise each group's value from its set flag or its default |

## Left out

- Reading font files from disk is left out. This covers `from_file` and the `IoError`
  variant in both loaders, because they are file I/O.
- `Settings::width` in src/settings.rs is left out. It queries the terminal and panics
  when there is none.
- In figlet-compat, the terminal query is a parameter, `terminalColumns` (`None` when
  there is no terminal).
- Text is treated as characters, with `len()` equal to the number of characters. This
  holds for ASCII font files and ASCII text. For multi-byte UTF-8, Rust's byte-indexed
  `len()`, slicing and `nth(len - 1)` differ from the model. This is also the only way
  `MissingHardblank` could occur, so the model never produces it.
- The `ParseIntError` carried by `InvalidSegment` is kept as its kind only (`Empty`,
  `InvalidDigit`, `PosOverflow`, `NegOverflow`), not as the library's opaque value.
- Header.FromStr, FigletFont.Load, LegacyFont.Load, FigletFont.Convert,
  LegacyFont.Convert, FigletChars.JoinLine: panics in the source become preconditions
  that rule them out.
  - An empty first header segment makes `segment.len() - 1` underflow.
  - `comment_lines + 1` can overflow `u16`.
  - A comment or glyph block can run past the end of the lines.
  - A glyph row can be shorter than its terminator.
  - The last row of a smushed glyph can be missing.
  - `first().unwrap()` fails on an empty text line when smushing.
  - An unimplemented spacing can be chosen.

  The model states when each call is safe (`Loadable`, `Convertible`, `JoinDefined`) and
  says nothing about the panicking inputs.
- FigletChars.JoinLine returns the text that `join_line` appends to its `&mut String`,
  rather than mutating a string.
- The `Justification`, `RightToLeft` and `ParagraphMode` conversions of figlet-compat are
  modelled. The `FigletSettings` record that would hold them is never built by the
  source and is left out.
- The hierarchy constants `TOP_CMP` … `PARENLESS_HEIRARCHY` in
  figurust/src/figlet/chars.rs are declared but never used, so they are not modelled.
- FigletFont.Convert reads only `settings.spacing` and takes the whole settings record.
  The rendering functions take the spacing alone.
- The legacy `figurust::font` loader declares its own `header` module.
  figurust/src/font/header.rs is not part of this model; the legacy loader is modelled
  with the same header parser as src/font/header.rs.
- The current `figurust::figlet` loader also reads its header with a module of its own,
  figurust/src/figlet/header.rs (declared at figurust/src/figlet/mod.rs:3 and 7).
  That file is not part of this model either. The model of that loader reuses the
  src/font/header.rs parser, so header errors it reports follow that parser.
- The signature prefix `FONT_FILE_SIGNATURE` used by src/font/header.rs is not defined in
  src/utils.rs. The model uses the crate's `FIGLET_FONT_SIGNATURE`, "flf2"
  (figurust/src/lib.rs:10).
- `print_info` in src/utils.rs is left out. It writes the settings and constants to
  standard output.
- The command-line parsing that produces `Args`, and the binaries' `main`, are left out.
  `Args` is a record of the fields the validators read.
- The `src/font.rs` prototype loader and `src/font/chars.rs` are not part of this model.
- The loops of `convert` are split into small methods so that each can be proved on its
  own: `LookUp`, `Render`, `RenderLine`, `AppendFullRow`, `AppendSmushRow`. They still run
  the source's loops in the source's order. `FigletChars.Take` is separate: it models the
  `std::mem::take` call in `from_lines` (figurust/src/figlet/chars.rs:104).
