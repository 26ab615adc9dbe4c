/**
 * The command-line front end's settings validation (src/settings.rs): the
 * conversion of parsed arguments into settings, with errors as messages.
 * The option enums are the engine's (same variants, same defaults).
 */
module AppSettings {
  import opened Wrappers
  import opened Ints
  import opened FlagGroups
  import S = EngineSettings

  /** The output width: the terminal's, looked up when rendering, or a fixed column count. */
  datatype Width = Terminal | Fixed(columns: nat)

  const DefaultWidth: Width := Fixed(80)

  datatype Settings = Settings(
    font: string,
    fontDirectory: string,
    justify: S.Justify,
    width: Width,
    mode: S.Mode,
    spacing: S.Spacing,
    layoutMode: Option<uint8>,
    infoCode: int8,
    direction: S.Direction)

  /** The command-line arguments the conversion reads. */
  datatype Args = Args(
    font: string,
    fontDirectory: string,
    justifyCenter: bool,
    justifyRight: bool,
    justifyLeft: bool,
    justifyDetect: bool,
    useTerminalWidth: bool,
    width: Option<nat>,
    paragraphMode: bool,
    normalMode: bool,
    smushing: bool,
    forceSmushing: bool,
    kerning: bool,
    fullWidth: bool,
    layoutMode: Option<uint8>,
    infoCode: int8,
    leftToRight: bool,
    rightToLeft: bool,
    autoDirection: bool)

  /** The message reported when two options of group `name` are set. */
  function ConflictMessage(name: string): string
  {
    "cannot set multiple " + name + " options"
  }

  /** Different groups give different messages. */
  lemma ConflictMessageInjective(n1: string, n2: string)
    requires ConflictMessage(n1) == ConflictMessage(n2)
    ensures n1 == n2
  {
    var p, q := "cannot set multiple ", " options";
    assert ConflictMessage(n1)[|p|..|p| + |n1|] == n1;
    assert ConflictMessage(n2)[|p|..|p| + |n2|] == n2;
    assert |n1| == |n2|;
  }

  /** `assert_none_true`: success exactly when no value is set. */
  function AssertNoneTrue(name: string, vals: seq<bool>): (r: Result<(), string>)
    ensures r.Success? <==> CountTrue(vals) == 0
    ensures r.Failure? ==> r.error == ConflictMessage(name)
  {
    if vals == [] then Success(())
    else if vals[0] then Failure(ConflictMessage(name))
    else AssertNoneTrue(name, vals[1..])
  }

  /** The justify flags in the order the conversion tests them. */
  function JustifyFlags(a: Args): seq<bool>
  {
    [a.justifyDetect, a.justifyCenter, a.justifyRight, a.justifyLeft]
  }

  const JustifyValues: seq<S.Justify> := [S.Justify.Auto, S.Justify.Center, S.Justify.Right, S.Justify.Left]

  function ResolveJustify(a: Args): Result<S.Justify, string>
  {
    if a.justifyDetect then
      var _ :- AssertNoneTrue("justify", [a.justifyLeft, a.justifyRight, a.justifyCenter]);
      Success(S.Justify.Auto)
    else if a.justifyCenter then
      var _ :- AssertNoneTrue("justify", [a.justifyLeft, a.justifyRight, a.justifyDetect]);
      Success(S.Justify.Center)
    else if a.justifyRight then
      var _ :- AssertNoneTrue("justify", [a.justifyLeft, a.justifyCenter, a.justifyDetect]);
      Success(S.Justify.Right)
    else if a.justifyLeft then
      var _ :- AssertNoneTrue("justify", [a.justifyRight, a.justifyCenter, a.justifyDetect]);
      Success(S.Justify.Left)
    else
      Success(S.DefaultJustify)
  }

  /** The justify group conflicts iff two or more of its flags are set, and otherwise picks the set one. */
  lemma JustifyGroup(a: Args)
    ensures ResolveJustify(a) == Exclusive(JustifyFlags(a), JustifyValues, S.DefaultJustify, ConflictMessage("justify"))
  {
    Exclusive4(a.justifyDetect, a.justifyCenter, a.justifyRight, a.justifyLeft,
      S.Justify.Auto, S.Justify.Center, S.Justify.Right, S.Justify.Left, S.DefaultJustify, ConflictMessage("justify"));
    Count3(a.justifyLeft, a.justifyRight, a.justifyCenter);
    Count3(a.justifyLeft, a.justifyRight, a.justifyDetect);
    Count3(a.justifyLeft, a.justifyCenter, a.justifyDetect);
    Count3(a.justifyRight, a.justifyCenter, a.justifyDetect);
  }

  /** The width: the terminal when asked for (an error with an explicit width too), else the explicit width, else 80. */
  function ResolveWidth(a: Args): Result<Width, string>
  {
    if a.useTerminalWidth then
      var _ :- AssertNoneTrue("width", [a.width.Some?]);
      Success(Terminal)
    else if a.width.Some? then
      var _ :- AssertNoneTrue("width", [a.useTerminalWidth]);
      Success(Fixed(a.width.value))
    else
      Success(DefaultWidth)
  }

  lemma WidthGroup(a: Args)
    ensures a.useTerminalWidth && a.width.Some? ==> ResolveWidth(a) == Failure(ConflictMessage("width"))
    ensures a.useTerminalWidth && a.width.None? ==> ResolveWidth(a) == Success(Terminal)
    ensures !a.useTerminalWidth && a.width.Some? ==> ResolveWidth(a) == Success(Fixed(a.width.value))
    ensures !a.useTerminalWidth && a.width.None? ==> ResolveWidth(a) == Success(Fixed(80))
  {
  }

  function ModeFlags(a: Args): seq<bool>
  {
    [a.paragraphMode, a.normalMode]
  }

  const ModeValues: seq<S.Mode> := [S.Paragraph, S.Normal]

  function ResolveMode(a: Args): Result<S.Mode, string>
  {
    if a.paragraphMode then
      var _ :- AssertNoneTrue("mode", [a.normalMode]);
      Success(S.Paragraph)
    else if a.normalMode then
      var _ :- AssertNoneTrue("mode", [a.paragraphMode]);
      Success(S.Normal)
    else
      Success(S.DefaultMode)
  }

  lemma ModeGroup(a: Args)
    ensures ResolveMode(a) == Exclusive(ModeFlags(a), ModeValues, S.DefaultMode, ConflictMessage("mode"))
  {
    Exclusive2(a.paragraphMode, a.normalMode, S.Paragraph, S.Normal, S.DefaultMode, ConflictMessage("mode"));
    assert [a.normalMode][1..] == [] && [a.paragraphMode][1..] == [];
  }

  function SpacingFlags(a: Args): seq<bool>
  {
    [a.smushing, a.forceSmushing, a.kerning, a.fullWidth]
  }

  const SpacingValues: seq<S.Spacing> := [S.Smushing, S.ForceSmushing, S.Kerning, S.FullWidth]

  function ResolveSpacing(a: Args): Result<S.Spacing, string>
  {
    if a.smushing then
      var _ :- AssertNoneTrue("spacing", [a.forceSmushing, a.kerning, a.fullWidth]);
      Success(S.Smushing)
    else if a.forceSmushing then
      var _ :- AssertNoneTrue("spacing", [a.smushing, a.kerning, a.fullWidth]);
      Success(S.ForceSmushing)
    else if a.kerning then
      var _ :- AssertNoneTrue("spacing", [a.smushing, a.forceSmushing, a.fullWidth]);
      Success(S.Kerning)
    else if a.fullWidth then
      var _ :- AssertNoneTrue("spacing", [a.smushing, a.forceSmushing, a.kerning]);
      Success(S.FullWidth)
    else
      Success(S.DefaultSpacing)
  }

  lemma SpacingGroup(a: Args)
    ensures ResolveSpacing(a) == Exclusive(SpacingFlags(a), SpacingValues, S.DefaultSpacing, ConflictMessage("spacing"))
  {
    Exclusive4(a.smushing, a.forceSmushing, a.kerning, a.fullWidth,
      S.Smushing, S.ForceSmushing, S.Kerning, S.FullWidth, S.DefaultSpacing, ConflictMessage("spacing"));
    Count3(a.forceSmushing, a.kerning, a.fullWidth);
    Count3(a.smushing, a.kerning, a.fullWidth);
    Count3(a.smushing, a.forceSmushing, a.fullWidth);
    Count3(a.smushing, a.forceSmushing, a.kerning);
  }

  function DirectionFlags(a: Args): seq<bool>
  {
    [a.autoDirection, a.leftToRight, a.rightToLeft]
  }

  const DirectionValues: seq<S.Direction> := [S.Direction.Auto, S.LeftToRight, S.RightToLeft]

  function ResolveDirection(a: Args): Result<S.Direction, string>
  {
    if a.autoDirection then
      var _ :- AssertNoneTrue("direction", [a.leftToRight, a.rightToLeft]);
      Success(S.Direction.Auto)
    else if a.leftToRight then
      var _ :- AssertNoneTrue("direction", [a.autoDirection, a.rightToLeft]);
      Success(S.LeftToRight)
    else if a.rightToLeft then
      var _ :- AssertNoneTrue("direction", [a.autoDirection, a.leftToRight]);
      Success(S.RightToLeft)
    else
      Success(S.DefaultDirection)
  }

  lemma DirectionGroup(a: Args)
    ensures ResolveDirection(a) == Exclusive(DirectionFlags(a), DirectionValues, S.DefaultDirection, ConflictMessage("direction"))
  {
    Exclusive3(a.autoDirection, a.leftToRight, a.rightToLeft,
      S.Direction.Auto, S.LeftToRight, S.RightToLeft, S.DefaultDirection, ConflictMessage("direction"));
    Count2(a.leftToRight, a.rightToLeft);
    Count2(a.autoDirection, a.rightToLeft);
    Count2(a.autoDirection, a.leftToRight);
  }

  /** `TryFrom<Args> for Settings`. */
  function TryFrom(a: Args): Result<Settings, string>
  {
    var justify :- ResolveJustify(a);
    var width :- ResolveWidth(a);
    var mode :- ResolveMode(a);
    var spacing :- ResolveSpacing(a);
    var direction :- ResolveDirection(a);
    Success(Settings(a.font, a.fontDirectory, justify, width, mode, spacing, a.layoutMode, a.infoCode, direction))
  }

  /**
   * Reference outcome of the conversion: the first group, in the order
   * justify, width, mode, spacing, direction, with two options set decides
   * the message; otherwise every group takes the value its set flag names.
   */
  function Expected(a: Args): Result<Settings, string>
  {
    if CountTrue(JustifyFlags(a)) >= 2 then Failure(ConflictMessage("justify"))
    else if a.useTerminalWidth && a.width.Some? then Failure(ConflictMessage("width"))
    else if CountTrue(ModeFlags(a)) >= 2 then Failure(ConflictMessage("mode"))
    else if CountTrue(SpacingFlags(a)) >= 2 then Failure(ConflictMessage("spacing"))
    else if CountTrue(DirectionFlags(a)) >= 2 then Failure(ConflictMessage("direction"))
    else
      var width := if a.useTerminalWidth then Terminal else if a.width.Some? then Fixed(a.width.value) else Fixed(80);
      Success(Settings(
        a.font, a.fontDirectory,
        Chosen(JustifyFlags(a), JustifyValues, S.DefaultJustify),
        width,
        Chosen(ModeFlags(a), ModeValues, S.DefaultMode),
        Chosen(SpacingFlags(a), SpacingValues, S.DefaultSpacing),
        a.layoutMode, a.infoCode,
        Chosen(DirectionFlags(a), DirectionValues, S.DefaultDirection)))
  }

  /** The conversion reports the first conflicting group and otherwise builds the reference settings. */
  lemma TryFromMatchesReference(a: Args)
    ensures TryFrom(a) == Expected(a)
  {
    JustifyGroup(a);
    WidthGroup(a);
    ModeGroup(a);
    SpacingGroup(a);
    DirectionGroup(a);
  }
}
