/**
 * The engine's rendering settings (figurust/src/settings.rs): the option
 * enums with their defaults and the settings record a front end builds.
 */
module EngineSettings {
  import opened Wrappers
  import opened Ints

  datatype Justify = Left | Center | Right | Auto
  datatype Mode = Paragraph | Normal
  datatype Spacing = Smushing | ForceSmushing | Kerning | FullWidth
  datatype Direction = LeftToRight | RightToLeft | Auto

  /** The `#[default]` variants. */
  const DefaultJustify: Justify := Justify.Auto
  const DefaultMode: Mode := Normal
  const DefaultSpacing: Spacing := Smushing
  const DefaultDirection: Direction := Direction.Auto

  /** `Settings`; a path is kept as its text. */
  datatype Settings = Settings(
    font: string,
    fontDirectory: string,
    justify: Justify,
    width: nat,
    mode: Mode,
    spacing: Spacing,
    overlap: bool,
    layoutMode: Option<uint8>,
    infoCode: int8,
    direction: Direction)
}
