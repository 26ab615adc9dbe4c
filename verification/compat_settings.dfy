/**
 * The figlet-compatible front end's settings validation
 * (figlet-compat/src/settings.rs): the decoders of figlet's numeric option
 * variables and the conversion of parsed arguments into engine settings.
 */
module CompatSettings {
  import opened Wrappers
  import opened Ints
  import opened FlagGroups
  import S = EngineSettings

  /** figlet's `justification` variable. */
  datatype Justification = Auto | Left | Center | Right

  /** The explicit discriminants the enum declares. */
  function JustificationCode(j: Justification): int
  {
    match j
    case Auto => -1
    case Left => 0
    case Center => 1
    case Right => 2
  }

  /** `From<u8>`: the variant whose discriminant is `val`, or `Auto` for any other value. */
  function JustificationFrom(val: uint8): (j: Justification)
    ensures JustificationCode(j) == if val <= 2 then val else -1
  {
    match val
    case 0 => Justification.Left
    case 1 => Center
    case 2 => Justification.Right
    case _ => Auto
  }

  /** figlet's `right2left` variable. */
  datatype RightToLeft = Detect | Left | Right

  function RightToLeftCode(r: RightToLeft): int
  {
    match r
    case Detect => -1
    case Left => 0
    case Right => 1
  }

  /** `From<i8>`: the variant whose discriminant is `val`, or `Detect` for any other value. */
  function RightToLeftFrom(val: int8): (r: RightToLeft)
    ensures RightToLeftCode(r) == if 0 <= val <= 1 then val else -1
  {
    match val
    case 0 => RightToLeft.Left
    case 1 => RightToLeft.Right
    case _ => Detect
  }

  /** Every variant survives a trip through its discriminant. */
  lemma RightToLeftRoundTrip(r: RightToLeft)
    ensures RightToLeftFrom(RightToLeftCode(r) as int8) == r
  {
    var back := RightToLeftFrom(RightToLeftCode(r) as int8);
    assert RightToLeftCode(back) == RightToLeftCode(r);
  }

  /** figlet's `paragraph` variable. */
  datatype ParagraphMode = Normal | Paragraph

  function ParagraphModeCode(p: ParagraphMode): int
  {
    match p
    case Normal => 0
    case Paragraph => 1
  }

  /** `From<u8>`: 1 is `Paragraph`; every other value, 0 included, is `Normal`. */
  function ParagraphModeFrom(val: uint8): (p: ParagraphMode)
    ensures p == Paragraph <==> val == 1
    ensures val <= 1 ==> ParagraphModeCode(p) == val
  {
    match val
    case 0 => Normal
    case 1 => Paragraph
    case _ => Normal
  }

  datatype SettingsError = ConflictingOptions(name: string) | NoTerminalSize

  /** The command-line arguments the conversion reads. */
  datatype Args = Args(
    font: string,
    fontDirectory: string,
    justifyCenter: bool,
    justifyRight: bool,
    justifyLeft: bool,
    justifyDetect: bool,
    useTerminalWidth: bool,
    width: Option<nat>,
    paragraphMode: bool,
    normalMode: bool,
    smushing: bool,
    forceSmushing: bool,
    kerning: bool,
    fullWidth: bool,
    overlap: bool,
    layoutMode: Option<uint8>,
    infoCode: int8,
    leftToRight: bool,
    rightToLeft: bool,
    autoDirection: bool)

  /** `assert_none_true`: success exactly when no value is set. */
  function AssertNoneTrue(name: string, vals: seq<bool>): (r: Result<(), SettingsError>)
    ensures r.Success? <==> CountTrue(vals) == 0
    ensures r.Failure? ==> r.error == ConflictingOptions(name)
  {
    if vals == [] then Success(())
    else if vals[0] then Failure(ConflictingOptions(name))
    else AssertNoneTrue(name, vals[1..])
  }

  /** The justify flags in the order the conversion tests them. */
  function JustifyFlags(a: Args): seq<bool>
  {
    [a.justifyDetect, a.justifyCenter, a.justifyRight, a.justifyLeft]
  }

  const JustifyValues: seq<S.Justify> := [S.Justify.Auto, S.Justify.Center, S.Justify.Right, S.Justify.Left]

  function ResolveJustify(a: Args): Result<S.Justify, SettingsError>
  {
    if a.justifyDetect then
      var _ :- AssertNoneTrue("justify", [a.justifyLeft, a.justifyRight, a.justifyCenter]);
      Success(S.Justify.Auto)
    else if a.justifyCenter then
      var _ :- AssertNoneTrue("justify", [a.justifyLeft, a.justifyRight, a.justifyDetect]);
      Success(S.Justify.Center)
    else if a.justifyRight then
      var _ :- AssertNoneTrue("justify", [a.justifyLeft, a.justifyCenter, a.justifyDetect]);
      Success(S.Justify.Right)
    else if a.justifyLeft then
      var _ :- AssertNoneTrue("justify", [a.justifyRight, a.justifyCenter, a.justifyDetect]);
      Success(S.Justify.Left)
    else
      Success(S.DefaultJustify)
  }

  /** The justify group conflicts iff two or more of its flags are set, and otherwise picks the set one. */
  lemma JustifyGroup(a: Args)
    ensures ResolveJustify(a) == Exclusive(JustifyFlags(a), JustifyValues, S.DefaultJustify, ConflictingOptions("justify"))
  {
    Exclusive4(a.justifyDetect, a.justifyCenter, a.justifyRight, a.justifyLeft,
      S.Justify.Auto, S.Justify.Center, S.Justify.Right, S.Justify.Left, S.DefaultJustify, ConflictingOptions("justify"));
    Count3(a.justifyLeft, a.justifyRight, a.justifyCenter);
    Count3(a.justifyLeft, a.justifyRight, a.justifyDetect);
    Count3(a.justifyLeft, a.justifyCenter, a.justifyDetect);
    Count3(a.justifyRight, a.justifyCenter, a.justifyDetect);
  }

  /**
   * The width: the terminal's columns when asked for (no terminal is an
   * error, checked before the conflict with an explicit width), the explicit
   * width when given, and 80 otherwise.
   */
  function ResolveWidth(a: Args, terminalColumns: Option<uint16>): Result<nat, SettingsError>
  {
    if a.useTerminalWidth then
      var columns :- if terminalColumns.Some? then Success(terminalColumns.value as nat) else Failure(NoTerminalSize);
      var _ :- AssertNoneTrue("width", [a.width.Some?]);
      Success(columns)
    else if a.width.Some? then
      var _ :- AssertNoneTrue("width", [a.useTerminalWidth]);
      Success(a.width.value)
    else
      Success(80)
  }

  lemma WidthGroup(a: Args, terminalColumns: Option<uint16>)
    ensures a.useTerminalWidth && terminalColumns.None? ==> ResolveWidth(a, terminalColumns) == Failure(NoTerminalSize)
    ensures a.useTerminalWidth && terminalColumns.Some? && a.width.Some?
      ==> ResolveWidth(a, terminalColumns) == Failure(ConflictingOptions("width"))
    ensures a.useTerminalWidth && terminalColumns.Some? && a.width.None?
      ==> ResolveWidth(a, terminalColumns) == Success(terminalColumns.value as nat)
    ensures !a.useTerminalWidth && a.width.Some? ==> ResolveWidth(a, terminalColumns) == Success(a.width.value)
    ensures !a.useTerminalWidth && a.width.None? ==> ResolveWidth(a, terminalColumns) == Success(80)
  {
  }

  function ModeFlags(a: Args): seq<bool>
  {
    [a.paragraphMode, a.normalMode]
  }

  const ModeValues: seq<S.Mode> := [S.Paragraph, S.Normal]

  function ResolveMode(a: Args): Result<S.Mode, SettingsError>
  {
    if a.paragraphMode then
      var _ :- AssertNoneTrue("mode", [a.normalMode]);
      Success(S.Paragraph)
    else if a.normalMode then
      var _ :- AssertNoneTrue("mode", [a.paragraphMode]);
      Success(S.Normal)
    else
      Success(S.DefaultMode)
  }

  lemma ModeGroup(a: Args)
    ensures ResolveMode(a) == Exclusive(ModeFlags(a), ModeValues, S.DefaultMode, ConflictingOptions("mode"))
  {
    Exclusive2(a.paragraphMode, a.normalMode, S.Paragraph, S.Normal, S.DefaultMode, ConflictingOptions("mode"));
    assert [a.normalMode][1..] == [] && [a.paragraphMode][1..] == [];
  }

  function SpacingFlags(a: Args): seq<bool>
  {
    [a.smushing, a.forceSmushing, a.kerning, a.fullWidth]
  }

  const SpacingValues: seq<S.Spacing> := [S.Smushing, S.ForceSmushing, S.Kerning, S.FullWidth]

  function ResolveSpacing(a: Args): Result<S.Spacing, SettingsError>
  {
    if a.smushing then
      var _ :- AssertNoneTrue("spacing", [a.forceSmushing, a.kerning, a.fullWidth]);
      Success(S.Smushing)
    else if a.forceSmushing then
      var _ :- AssertNoneTrue("spacing", [a.smushing, a.kerning, a.fullWidth]);
      Success(S.ForceSmushing)
    else if a.kerning then
      var _ :- AssertNoneTrue("spacing", [a.smushing, a.forceSmushing, a.fullWidth]);
      Success(S.Kerning)
    else if a.fullWidth then
      var _ :- AssertNoneTrue("spacing", [a.smushing, a.forceSmushing, a.kerning]);
      Success(S.FullWidth)
    else
      Success(S.DefaultSpacing)
  }

  lemma SpacingGroup(a: Args)
    ensures ResolveSpacing(a) == Exclusive(SpacingFlags(a), SpacingValues, S.DefaultSpacing, ConflictingOptions("spacing"))
  {
    Exclusive4(a.smushing, a.forceSmushing, a.kerning, a.fullWidth,
      S.Smushing, S.ForceSmushing, S.Kerning, S.FullWidth, S.DefaultSpacing, ConflictingOptions("spacing"));
    Count3(a.forceSmushing, a.kerning, a.fullWidth);
    Count3(a.smushing, a.kerning, a.fullWidth);
    Count3(a.smushing, a.forceSmushing, a.fullWidth);
    Count3(a.smushing, a.forceSmushing, a.kerning);
  }

  function DirectionFlags(a: Args): seq<bool>
  {
    [a.autoDirection, a.leftToRight, a.rightToLeft]
  }

  const DirectionValues: seq<S.Direction> := [S.Direction.Auto, S.LeftToRight, S.RightToLeft]

  function ResolveDirection(a: Args): Result<S.Direction, SettingsError>
  {
    if a.autoDirection then
      var _ :- AssertNoneTrue("direction", [a.leftToRight, a.rightToLeft]);
      Success(S.Direction.Auto)
    else if a.leftToRight then
      var _ :- AssertNoneTrue("direction", [a.autoDirection, a.rightToLeft]);
      Success(S.LeftToRight)
    else if a.rightToLeft then
      var _ :- AssertNoneTrue("direction", [a.autoDirection, a.leftToRight]);
      Success(S.RightToLeft)
    else
      Success(S.DefaultDirection)
  }

  lemma DirectionGroup(a: Args)
    ensures ResolveDirection(a) == Exclusive(DirectionFlags(a), DirectionValues, S.DefaultDirection, ConflictingOptions("direction"))
  {
    Exclusive3(a.autoDirection, a.leftToRight, a.rightToLeft,
      S.Direction.Auto, S.LeftToRight, S.RightToLeft, S.DefaultDirection, ConflictingOptions("direction"));
    Count2(a.leftToRight, a.rightToLeft);
    Count2(a.autoDirection, a.rightToLeft);
    Count2(a.autoDirection, a.leftToRight);
  }

  /** `TryFrom<Args> for Settings`; `terminalColumns` is what the terminal query reports. */
  function TryFrom(a: Args, terminalColumns: Option<uint16>): Result<S.Settings, SettingsError>
  {
    var justify :- ResolveJustify(a);
    var width :- ResolveWidth(a, terminalColumns);
    var mode :- ResolveMode(a);
    var spacing :- ResolveSpacing(a);
    var direction :- ResolveDirection(a);
    Success(S.Settings(a.font, a.fontDirectory, justify, width, mode, spacing,
                       a.overlap, a.layoutMode, a.infoCode, direction))
  }

  /**
   * Reference outcome of the conversion: the first group, in the order
   * justify, width, mode, spacing, direction, that is in error decides the
   * error; otherwise every group takes the value its set flag names.
   */
  function Expected(a: Args, terminalColumns: Option<uint16>): Result<S.Settings, SettingsError>
  {
    if CountTrue(JustifyFlags(a)) >= 2 then Failure(ConflictingOptions("justify"))
    else if a.useTerminalWidth && terminalColumns.None? then Failure(NoTerminalSize)
    else if a.useTerminalWidth && a.width.Some? then Failure(ConflictingOptions("width"))
    else if CountTrue(ModeFlags(a)) >= 2 then Failure(ConflictingOptions("mode"))
    else if CountTrue(SpacingFlags(a)) >= 2 then Failure(ConflictingOptions("spacing"))
    else if CountTrue(DirectionFlags(a)) >= 2 then Failure(ConflictingOptions("direction"))
    else
      var width := if a.useTerminalWidth then terminalColumns.value as nat else if a.width.Some? then a.width.value else 80;
      Success(S.Settings(
        a.font, a.fontDirectory,
        Chosen(JustifyFlags(a), JustifyValues, S.DefaultJustify),
        width,
        Chosen(ModeFlags(a), ModeValues, S.DefaultMode),
        Chosen(SpacingFlags(a), SpacingValues, S.DefaultSpacing),
        a.overlap, a.layoutMode, a.infoCode,
        Chosen(DirectionFlags(a), DirectionValues, S.DefaultDirection)))
  }

  /** The conversion reports the first failing group and otherwise builds the reference settings. */
  lemma TryFromMatchesReference(a: Args, terminalColumns: Option<uint16>)
    ensures TryFrom(a, terminalColumns) == Expected(a, terminalColumns)
  {
    JustifyGroup(a);
    WidthGroup(a, terminalColumns);
    ModeGroup(a);
    SpacingGroup(a);
    DirectionGroup(a);
  }
}
