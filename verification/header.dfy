/**
 * The font header line: `<signature><hardblank> <height> <baseline>
 * <max_length> <old_layout> <comment_lines> [<direction> <full_layout>
 * <codetag_count>]`, split on single spaces and read positionally.
 */
module Header {
  import opened Wrappers
  import opened Ints
  import opened Text

  /** Every signature starts with this (the crate's `FIGLET_FONT_SIGNATURE`). */
  const FontFileSignature: string := "flf2"

  datatype RawHeader = RawHeader(
    signature: string,
    hardblank: char,
    height: uint16,
    baseline: uint16,
    maxLength: uint16,
    oldLayout: int8,
    commentLines: uint16,
    direction: Option<uint16>,
    fullLayout: Option<uint16>,
    codetagCount: Option<uint16>)

  datatype HeaderParseError =
    | WrongNumberOfSegments(count: nat)
    | InvalidSignature(signature: string)
    | MissingHardblank
    | MissingSegment(index: nat, name: string)
    | InvalidSegment(index: nat, name: string, cause: IntErrorKind)

  /** Rust `slice.get(idx)`. */
  function Get(segments: seq<string>, idx: nat): (r: Option<string>)
    ensures r.Some? <==> idx < |segments|
    ensures r.Some? ==> r.value == segments[idx]
  {
    if idx < |segments| then Some(segments[idx]) else None
  }

  /** Rust `s.chars().nth(n)`. */
  function Nth(s: string, n: nat): (r: Option<char>)
    ensures r.Some? <==> n < |s|
  {
    if n < |s| then Some(s[n]) else None
  }

  /**
   * The first segment is the signature followed by the hardblank. The
   * signature is checked before the hardblank is read; `len() - 1`
   * underflows on an empty segment, hence the precondition.
   */
  function ReadSignature(segment: string): (r: Result<(string, char), HeaderParseError>)
    requires segment != ""
    ensures r.Success? <==> StartsWith(segment[..|segment| - 1], FontFileSignature)
    ensures r.Success? ==> r.value.0 + [r.value.1] == segment
    ensures r.Failure? ==> r.error == InvalidSignature(segment[..|segment| - 1])
  {
    var signature := segment[..|segment| - 1];
    if !StartsWith(signature, FontFileSignature) then
      Failure(InvalidSignature(signature))
    else
      match Nth(segment, |segment| - 1)
      case None => Failure(MissingHardblank)
      case Some(hardblank) =>
        assert signature + [hardblank] == segment;
        Success((signature, hardblank))
  }

  /** A mandatory numeric segment: missing, unparsable, or its value. */
  function ExtractRequiredSegment(segments: seq<string>, idx: nat, name: string, t: IntType): (r: Result<int, HeaderParseError>)
    ensures r.Success? <==> idx < |segments| && ParseInt(segments[idx], t).Success?
    ensures r.Success? ==> r.value == ParseInt(segments[idx], t).value && t.Min() <= r.value <= t.Max()
    ensures idx >= |segments| ==> r == Failure(MissingSegment(idx, name))
    ensures idx < |segments| && r.Failure? ==> r == Failure(InvalidSegment(idx, name, ParseInt(segments[idx], t).error))
  {
    match Get(segments, idx)
    case None => Failure(MissingSegment(idx, name))
    case Some(segment) =>
      match ParseInt(segment, t)
      case Success(v) => Success(v)
      case Failure(e) => Failure(InvalidSegment(idx, name, e))
  }

  /** An optional numeric segment: absent is `None`, present must parse. */
  function ExtractOptionalSegment(segments: seq<string>, idx: nat, name: string, t: IntType): (r: Result<Option<int>, HeaderParseError>)
    ensures idx >= |segments| <==> r == Success(None)
    ensures r.Success? && r.value.Some? ==>
      idx < |segments| && ParseInt(segments[idx], t) == Success(r.value.value)
    ensures r.Failure? ==>
      && idx < |segments| && ParseInt(segments[idx], t).Failure?
      && r == Failure(InvalidSegment(idx, name, ParseInt(segments[idx], t).error))
  {
    match Get(segments, idx)
    case None => Success(None)
    case Some(segment) =>
      match ParseInt(segment, t)
      case Success(v) => Success(Some(v))
      case Failure(e) => Failure(InvalidSegment(idx, name, e))
  }

  function Narrow(o: Option<int>): Option<uint16>
    requires o.Some? ==> 0 <= o.value <= 0xFFFF
  {
    match o
    case None => None
    case Some(v) => Some(v)
  }

  /** The precondition of `FromStr`: with six or more segments the first is not empty. */
  predicate SignatureSegmentNonEmpty(s: string)
  {
    |Split(s, ' ')| >= 6 ==> Split(s, ' ')[0] != ""
  }

  /** `RawHeader::from_str`. */
  function FromStr(s: string): (r: Result<RawHeader, HeaderParseError>)
    requires SignatureSegmentNonEmpty(s)
    ensures |Split(s, ' ')| < 6 <==> r == Failure(WrongNumberOfSegments(Count(s, ' ') + 1))
    ensures r != Failure(MissingHardblank)
    ensures !(r.Failure? && r.error.MissingSegment?)
    ensures |Split(s, ' ')| >= 6 && !StartsWith(Split(s, ' ')[0][..|Split(s, ' ')[0]| - 1], FontFileSignature) ==>
      r == Failure(InvalidSignature(Split(s, ' ')[0][..|Split(s, ' ')[0]| - 1]))
  {
    var segments := Split(s, ' ');
    SplitCount(s, ' ');
    if |segments| < 6 then
      Failure(WrongNumberOfSegments(|segments|))
    else
      FromSegments(segments)
  }

  /** `RawHeader::from_str` past the segment count: the signature, then the numeric segments in order. */
  function FromSegments(segments: seq<string>): (r: Result<RawHeader, HeaderParseError>)
    requires |segments| >= 6 && segments[0] != ""
    ensures r != Failure(MissingHardblank)
    ensures !(r.Failure? && r.error.WrongNumberOfSegments?)
    ensures !(r.Failure? && r.error.MissingSegment?)
    ensures !StartsWith(segments[0][..|segments[0]| - 1], FontFileSignature) ==>
      r == Failure(InvalidSignature(segments[0][..|segments[0]| - 1]))
  {
    var signature :- ReadSignature(segments[0]);
    var height :- ExtractRequiredSegment(segments, 1, "height", U16);
    var baseline :- ExtractRequiredSegment(segments, 2, "baseline", U16);
    var maxLength :- ExtractRequiredSegment(segments, 3, "max_length", U16);
    var oldLayout :- ExtractRequiredSegment(segments, 4, "old_layout", I8);
    var commentLines :- ExtractRequiredSegment(segments, 5, "comment_lines", U16);
    var direction :- ExtractOptionalSegment(segments, 6, "direction", U16);
    var fullLayout :- ExtractOptionalSegment(segments, 7, "full_layout", U16);
    var codetagCount :- ExtractOptionalSegment(segments, 8, "codetag_count", U16);
    Success(RawHeader(
      signature.0, signature.1,
      height, baseline, maxLength, oldLayout, commentLines,
      Narrow(direction), Narrow(fullLayout), Narrow(codetagCount)))
  }

  // ---------------------------------------------------------------------------
  // A positional reference for the numeric segments 1 to 8

  function FieldName(idx: nat): string
    requires 1 <= idx <= 8
  {
    ["height", "baseline", "max_length", "old_layout", "comment_lines",
     "direction", "full_layout", "codetag_count"][idx - 1]
  }

  function FieldType(idx: nat): IntType
  {
    if idx == 4 then I8 else U16
  }

  /** Numeric field `idx` of a header, `None` for an absent optional one. */
  function Field(h: RawHeader, idx: nat): Option<int>
    requires 1 <= idx <= 8
  {
    match idx
    case 1 => Some(h.height as int)
    case 2 => Some(h.baseline as int)
    case 3 => Some(h.maxLength as int)
    case 4 => Some(h.oldLayout as int)
    case 5 => Some(h.commentLines as int)
    case 6 => if h.direction.Some? then Some(h.direction.value as int) else None
    case 7 => if h.fullLayout.Some? then Some(h.fullLayout.value as int) else None
    case _ => if h.codetagCount.Some? then Some(h.codetagCount.value as int) else None
  }

  /** Segment `idx` is absent or parses as its field's type. */
  predicate FieldParses(segments: seq<string>, idx: nat)
  {
    idx < |segments| ==> ParseInt(segments[idx], FieldType(idx)).Success?
  }

  /** Field `j` of `h` is what segment `j` parses to, or absent when there is no segment `j`. */
  predicate FieldFromSegment(h: RawHeader, segs: seq<string>, j: nat)
    requires 1 <= j <= 8
  {
    if j < |segs| then Field(h, j).Some? && ParseInt(segs[j], FieldType(j)) == Success(Field(h, j).value)
    else Field(h, j).None?
  }

  /** The first of segments `from..8` that is present and does not parse. */
  function FirstBadField(segments: seq<string>, from: nat): (r: Option<nat>)
    requires 1 <= from <= 9
    ensures r.Some? ==> from <= r.value <= 8 && !FieldParses(segments, r.value)
    ensures r.Some? ==> forall j :: from <= j < r.value ==> FieldParses(segments, j)
    ensures r.None? ==> forall j :: from <= j <= 8 ==> FieldParses(segments, j)
    decreases 9 - from
  {
    if from == 9 then None
    else if !FieldParses(segments, from) then Some(from)
    else FirstBadField(segments, from + 1)
  }

  /** Past the signature check, one flat chain of field checks. */
  lemma FromSegmentsSteps(segs: seq<string>)
    requires |segs| >= 6 && segs[0] != ""
    requires StartsWith(segs[0][..|segs[0]| - 1], FontFileSignature)
    ensures
      var e1 := ExtractRequiredSegment(segs, 1, "height", U16);
      var e2 := ExtractRequiredSegment(segs, 2, "baseline", U16);
      var e3 := ExtractRequiredSegment(segs, 3, "max_length", U16);
      var e4 := ExtractRequiredSegment(segs, 4, "old_layout", I8);
      var e5 := ExtractRequiredSegment(segs, 5, "comment_lines", U16);
      var e6 := ExtractOptionalSegment(segs, 6, "direction", U16);
      var e7 := ExtractOptionalSegment(segs, 7, "full_layout", U16);
      var e8 := ExtractOptionalSegment(segs, 8, "codetag_count", U16);
      FromSegments(segs) ==
        if e1.Failure? then Failure(e1.error)
        else if e2.Failure? then Failure(e2.error)
        else if e3.Failure? then Failure(e3.error)
        else if e4.Failure? then Failure(e4.error)
        else if e5.Failure? then Failure(e5.error)
        else if e6.Failure? then Failure(e6.error)
        else if e7.Failure? then Failure(e7.error)
        else if e8.Failure? then Failure(e8.error)
        else Success(RawHeader(segs[0][..|segs[0]| - 1], segs[0][|segs[0]| - 1],
          e1.value, e2.value, e3.value, e4.value, e5.value,
          Narrow(e6.value), Narrow(e7.value), Narrow(e8.value)))
  {
  }

  /** The first numeric segment that does not parse is the error reported. */
  lemma SegmentsRejectFirstBadField(segs: seq<string>)
    requires |segs| >= 6 && segs[0] != ""
    requires StartsWith(segs[0][..|segs[0]| - 1], FontFileSignature)
    requires FirstBadField(segs, 1).Some?
    ensures var j := FirstBadField(segs, 1).value;
      FromSegments(segs) == Failure(InvalidSegment(j, FieldName(j), ParseInt(segs[j], FieldType(j)).error))
  {
    var j := FirstBadField(segs, 1).value;
    FromSegmentsSteps(segs);
    assert forall i :: 1 <= i < j ==> FieldParses(segs, i);
    assert !FieldParses(segs, j);
  }

  /** When every numeric segment parses, each field holds its segment's value. */
  lemma SegmentsFieldValues(segs: seq<string>)
    requires |segs| >= 6 && segs[0] != ""
    requires StartsWith(segs[0][..|segs[0]| - 1], FontFileSignature)
    requires FirstBadField(segs, 1).None?
    ensures
      && FromSegments(segs).Success?
      && FromSegments(segs).value.signature + [FromSegments(segs).value.hardblank] == segs[0]
      && forall j :: 1 <= j <= 8 ==> FieldFromSegment(FromSegments(segs).value, segs, j)
  {
    assert forall i :: 1 <= i <= 8 ==> FieldParses(segs, i);
    FromSegmentsSteps(segs);
    assert segs[0][..|segs[0]| - 1] + [segs[0][|segs[0]| - 1]] == segs[0];
  }

  /**
   * Once the count and the signature are right, the outcome is decided by the
   * numeric segments in index order: the first one that does not parse is
   * reported, and otherwise each field holds its segment's value, with the
   * optional ones `None` exactly when absent. Segments after index 8 are
   * never looked at.
   */
  lemma HeaderOutcome(s: string)
    requires SignatureSegmentNonEmpty(s)
    requires var segs := Split(s, ' ');
      |segs| >= 6 && StartsWith(segs[0][..|segs[0]| - 1], FontFileSignature)
    ensures var segs := Split(s, ' ');
      match FirstBadField(segs, 1)
      case Some(j) =>
        FromStr(s) == Failure(InvalidSegment(j, FieldName(j), ParseInt(segs[j], FieldType(j)).error))
      case None =>
        && FromStr(s).Success?
        && FromStr(s).value.signature + [FromStr(s).value.hardblank] == segs[0]
        && forall j :: 1 <= j <= 8 ==> FieldFromSegment(FromStr(s).value, segs, j)
  {
    var segs := Split(s, ' ');
    assert FromStr(s) == FromSegments(segs);
    if FirstBadField(segs, 1).Some? {
      SegmentsRejectFirstBadField(segs);
    } else {
      SegmentsFieldValues(segs);
    }
  }

  /** The header accepts a line exactly when every check passes. */
  lemma HeaderAccepts(s: string)
    requires SignatureSegmentNonEmpty(s)
    ensures var segs := Split(s, ' ');
      FromStr(s).Success? <==>
        && |segs| >= 6
        && StartsWith(segs[0][..|segs[0]| - 1], FontFileSignature)
        && FirstBadField(segs, 1).None?
  {
    var segs := Split(s, ' ');
    if |segs| >= 6 && StartsWith(segs[0][..|segs[0]| - 1], FontFileSignature) {
      HeaderOutcome(s);
    }
  }

  /** Text after the ninth segment does not change the outcome. */
  lemma ExtraSegmentsIgnored(s: string, extra: string)
    requires SignatureSegmentNonEmpty(s)
    requires |Split(s, ' ')| >= 9
    ensures SignatureSegmentNonEmpty(s + " " + extra)
    ensures FromStr(s + " " + extra) == FromStr(s)
  {
    var t := s + " " + extra;
    SplitAround(s, extra, ' ');
    assert t == s + [' '] + extra;
    var a, b := Split(s, ' '), Split(t, ' ');
    assert b == a + Split(extra, ' ');
    assert forall j :: 0 <= j < |a| ==> b[j] == a[j];
    assert FromStr(s) == FromSegments(a) && FromStr(t) == FromSegments(b);
    FirstNineDecide(a, b);
  }

  /** Only the first nine segments are read. */
  lemma FirstNineDecide(a: seq<string>, b: seq<string>)
    requires 9 <= |a| && 9 <= |b| && a[0] != ""
    requires forall j :: 0 <= j < 9 ==> a[j] == b[j]
    ensures FromSegments(a) == FromSegments(b)
  {
    if StartsWith(a[0][..|a[0]| - 1], FontFileSignature) {
      FromSegmentsSteps(a);
      FromSegmentsSteps(b);
      assert ExtractRequiredSegment(b, 1, "height", U16) == ExtractRequiredSegment(a, 1, "height", U16);
      assert ExtractRequiredSegment(b, 2, "baseline", U16) == ExtractRequiredSegment(a, 2, "baseline", U16);
      assert ExtractRequiredSegment(b, 3, "max_length", U16) == ExtractRequiredSegment(a, 3, "max_length", U16);
      assert ExtractRequiredSegment(b, 4, "old_layout", I8) == ExtractRequiredSegment(a, 4, "old_layout", I8);
      assert ExtractRequiredSegment(b, 5, "comment_lines", U16) == ExtractRequiredSegment(a, 5, "comment_lines", U16);
      assert ExtractOptionalSegment(b, 6, "direction", U16) == ExtractOptionalSegment(a, 6, "direction", U16);
      assert ExtractOptionalSegment(b, 7, "full_layout", U16) == ExtractOptionalSegment(a, 7, "full_layout", U16);
      assert ExtractOptionalSegment(b, 8, "codetag_count", U16) == ExtractOptionalSegment(a, 8, "codetag_count", U16);
    }
  }

  // ---------------------------------------------------------------------------
  // Writing a header line, the inverse of parsing

  /** The headers a header line can express. */
  predicate Expressible(h: RawHeader)
  {
    && StartsWith(h.signature, FontFileSignature)
    && ' ' !in h.signature
    && h.hardblank != ' '
    && (h.direction.None? ==> h.fullLayout.None?)
    && (h.fullLayout.None? ==> h.codetagCount.None?)
  }

  function OptionalToken(o: Option<uint16>): seq<string>
  {
    if o.Some? then [FormatInt(o.value)] else []
  }

  /** The space-separated tokens of the header line for `h`. */
  function Tokens(h: RawHeader): seq<string>
  {
    [h.signature + [h.hardblank],
     FormatInt(h.height), FormatInt(h.baseline), FormatInt(h.maxLength),
     FormatInt(h.oldLayout), FormatInt(h.commentLines)]
    + OptionalToken(h.direction) + OptionalToken(h.fullLayout) + OptionalToken(h.codetagCount)
  }

  /** The header line for `h`. */
  function Format(h: RawHeader): string
  {
    Join(Tokens(h), ' ')
  }

  lemma NumeralHasNoSpace(n: int)
    ensures ' ' !in FormatInt(n)
  {
  }

  /** Splitting the joined tokens gives the tokens back when none holds the separator. */
  lemma {:induction false} JoinSplit(tokens: seq<string>, sep: char)
    requires |tokens| >= 1
    requires forall k :: 0 <= k < |tokens| ==> sep !in tokens[k]
    ensures Split(Join(tokens, sep), sep) == tokens
  {
    if |tokens| == 1 {
      SplitWithoutSeparator(tokens[0], sep);
    } else {
      JoinSplit(tokens[1..], sep);
      SplitWithoutSeparator(tokens[0], sep);
      SplitAround(tokens[0], Join(tokens[1..], sep), sep);
      assert tokens == [tokens[0]] + tokens[1..];
    }
  }

  /** The header line splits back into its tokens. */
  lemma SplitFormat(h: RawHeader)
    requires Expressible(h)
    ensures Split(Format(h), ' ') == Tokens(h)
  {
    var tokens := Tokens(h);
    forall k | 0 <= k < |tokens|
      ensures ' ' !in tokens[k]
    {
      if k == 0 {
        assert tokens[0] == h.signature + [h.hardblank];
      } else {
        var n: int :| tokens[k] == FormatInt(n);
        NumeralHasNoSpace(n);
      }
    }
    JoinSplit(tokens, ' ');
  }

  /** Token `j` of the header line parses back to field `j`; only present optional fields have a token. */
  lemma TokenParses(h: RawHeader, j: nat)
    requires Expressible(h)
    requires 1 <= j <= 8
    ensures j < |Tokens(h)| <==> Field(h, j).Some?
    ensures j < |Tokens(h)| ==> ParseInt(Tokens(h)[j], FieldType(j)) == Success(Field(h, j).value)
  {
    TokenAt(h, j);
    if j < |Tokens(h)| {
      FieldInRange(h, j);
      ParseFormatInt(Field(h, j).value, FieldType(j));
    }
  }

  /** Every field lies in the range of its type. */
  lemma FieldInRange(h: RawHeader, j: nat)
    requires 1 <= j <= 8 && Field(h, j).Some?
    ensures FieldType(j).Min() <= Field(h, j).value <= FieldType(j).Max()
  {
    if j == 4 {
      assert Field(h, j).value == h.oldLayout as int;
    } else {
      assert FieldType(j) == U16;
    }
  }

  /** Token `j` of the header line is the numeral of field `j`. */
  lemma TokenAt(h: RawHeader, j: nat)
    requires Expressible(h)
    requires 1 <= j <= 8
    ensures j < |Tokens(h)| <==> Field(h, j).Some?
    ensures j < |Tokens(h)| ==> Tokens(h)[j] == FormatInt(Field(h, j).value)
  {
    var o6, o7, o8 := OptionalToken(h.direction), OptionalToken(h.fullLayout), OptionalToken(h.codetagCount);
    var base := [h.signature + [h.hardblank],
      FormatInt(h.height), FormatInt(h.baseline), FormatInt(h.maxLength),
      FormatInt(h.oldLayout), FormatInt(h.commentLines)];
    assert Tokens(h) == base + (o6 + o7 + o8);
    if j <= 5 {
      assert Tokens(h)[j] == base[j];
      assert base[j] == FormatInt(Field(h, j).value) by {
        if j == 1 { assert base[1] == FormatInt(h.height); }
        else if j == 2 { assert base[2] == FormatInt(h.baseline); }
        else if j == 3 { assert base[3] == FormatInt(h.maxLength); }
        else if j == 4 { assert base[4] == FormatInt(h.oldLayout); }
        else { assert base[5] == FormatInt(h.commentLines); }
      }
    } else {
      OptionalTokenAt(h, j, o6 + o7 + o8);
    }
  }

  /** The optional tokens follow the six required ones, present exactly while their fields are. */
  lemma OptionalTokenAt(h: RawHeader, j: nat, optional: seq<string>)
    requires Expressible(h)
    requires 6 <= j <= 8
    requires optional == OptionalToken(h.direction) + OptionalToken(h.fullLayout) + OptionalToken(h.codetagCount)
    ensures j - 6 < |optional| <==> Field(h, j).Some?
    ensures j - 6 < |optional| ==> optional[j - 6] == FormatInt(Field(h, j).value)
  {
    var o6, o7, o8 := OptionalToken(h.direction), OptionalToken(h.fullLayout), OptionalToken(h.codetagCount);
    if j == 6 {
      if h.direction.Some? {
        assert optional[0] == o6[0];
      }
    } else if j == 7 {
      if h.fullLayout.Some? {
        assert optional[1] == o7[0];
      }
    } else {
      if h.codetagCount.Some? {
        assert optional[2] == o8[0];
      }
    }
  }

  /** Every expressible header survives a write and a parse unchanged. */
  lemma FormatRoundTrip(h: RawHeader)
    requires Expressible(h)
    ensures SignatureSegmentNonEmpty(Format(h))
    ensures FromStr(Format(h)) == Success(h)
  {
    var tokens := Tokens(h);
    var s := Format(h);
    SplitFormat(h);
    assert tokens[0][..|tokens[0]| - 1] == h.signature;
    assert h.signature[..|FontFileSignature|] == FontFileSignature;
    forall j | 1 <= j <= 8
      ensures FieldParses(tokens, j)
      ensures FieldFromSegment(h, tokens, j)
    {
      TokenParses(h, j);
    }
    assert FirstBadField(tokens, 1).None?;
    SegmentsFieldValues(tokens);
    assert FromStr(s) == FromSegments(tokens);
    var r := FromStr(s).value;
    assert r.signature == h.signature && r.hardblank == h.hardblank;
    assert forall j :: 1 <= j <= 8 ==> FieldFromSegment(r, tokens, j);
    assert Field(r, 1) == Field(h, 1) && Field(r, 2) == Field(h, 2) && Field(r, 3) == Field(h, 3);
    assert Field(r, 4) == Field(h, 4) && Field(r, 5) == Field(h, 5);
    assert Field(r, 6) == Field(h, 6) && Field(r, 7) == Field(h, 7) && Field(r, 8) == Field(h, 8);
  }

  /** The numerals of the bundled `small` font's header line. */
  lemma SmallFontNumerals()
    ensures FormatInt(5) == "5" && FormatInt(4) == "4" && FormatInt(0) == "0"
    ensures FormatInt(13) == "13" && FormatInt(15) == "15" && FormatInt(10) == "10"
    ensures FormatInt(22415) == "22415" && FormatInt(96) == "96"
  {
    assert Decimal(22) == "22";
    assert Decimal(224) == "224";
    assert Decimal(2241) == "2241";
  }

  /** The tokens of the bundled `small` font's header. */
  lemma SmallFontTokens(h: RawHeader)
    requires h == RawHeader("flf2a", '$', 5, 4, 13, 15, 10, Some(0), Some(22415), Some(96))
    ensures Tokens(h) == ["flf2a$", "5", "4", "13", "15", "10", "0", "22415", "96"]
  {
    SmallFontNumerals();
    var t := Tokens(h);
    assert |t| == 9;
    assert t[0] == "flf2a$" && t[1] == "5" && t[2] == "4" && t[3] == "13" && t[4] == "15";
    assert t[5] == "10" && t[6] == "0" && t[7] == "22415" && t[8] == "96";
  }

  /** The header line of the bundled `small` font, `flf2a$ 5 4 13 15 10 0 22415 96`. */
  lemma SmallFontHeader(h: RawHeader)
    requires h == RawHeader("flf2a", '$', 5, 4, 13, 15, 10, Some(0), Some(22415), Some(96))
    ensures SignatureSegmentNonEmpty(Join(["flf2a$", "5", "4", "13", "15", "10", "0", "22415", "96"], ' '))
    ensures FromStr(Join(["flf2a$", "5", "4", "13", "15", "10", "0", "22415", "96"], ' ')) == Success(h)
  {
    SmallFontTokens(h);
    FormatRoundTrip(h);
  }
}
