/**
 * What both glyph loaders and both renderers share: the layout of the
 * required glyphs in a font file (one block of `height` lines per code
 * 32 to 126 after the header and comment lines), the `@`/`@@` terminator
 * rule, the running maximum row width, the lookup of the characters of the
 * text to render, and output rows each followed by a newline.
 */
module FontFormat {
  import opened Wrappers
  import opened Text
  import opened Header

  // ---------------------------------------------------------------------------
  // Glyph rows

  /**
   * How many terminator characters row `x` of a `count`-row block carries:
   * two on the last row when the font is not one row tall, one otherwise.
   */
  function TerminatorLength(x: nat, count: nat, height: int): (t: nat)
    ensures t == 1 || t == 2
  {
    if x == count - 1 && height != 1 then 2 else 1
  }

  /** Every row is at least as long as its terminator. */
  predicate RowsFit(rows: seq<string>, height: int)
  {
    forall x :: 0 <= x < |rows| ==> TerminatorLength(x, |rows|, height) <= |rows[x]|
  }

  /** Row `x` without its terminator. */
  function StrippedRow(rows: seq<string>, x: nat, height: int): (r: string)
    requires RowsFit(rows, height) && x < |rows|
    ensures |r| + TerminatorLength(x, |rows|, height) == |rows[x]|
    ensures forall k :: 0 <= k < |r| ==> r[k] == rows[x][k]
  {
    rows[x][..|rows[x]| - TerminatorLength(x, |rows|, height)]
  }

  /** The width both loaders compute for row `x` is the length of the row without its terminator. */
  lemma LineWidthStrips(rows: seq<string>, x: nat, height: int, lineWidth: int)
    requires RowsFit(rows, height) && x < |rows|
    requires lineWidth == if x == |rows| - 1 && height != 1 then |rows[x]| - 2 else |rows[x]| - 1
    ensures 0 <= lineWidth <= |rows[x]|
    ensures rows[x][..lineWidth] == StrippedRow(rows, x, height)
  {
    assert lineWidth == |rows[x]| - TerminatorLength(x, |rows|, height);
  }

  /** The running maximum of the row lengths, starting from 0. */
  function MaxLength(rows: seq<string>): (m: nat)
    ensures forall i :: 0 <= i < |rows| ==> |rows[i]| <= m
    ensures rows == [] ==> m == 0
  {
    if rows == [] then 0
    else
      var m := MaxLength(rows[..|rows| - 1]);
      var last := |rows[|rows| - 1]|;
      assert forall i :: 0 <= i < |rows| - 1 ==> rows[i] == rows[..|rows| - 1][i];
      if last > m then last else m
  }

  /** The maximum is the length of one of the rows. */
  lemma {:induction false} MaxLengthAttained(rows: seq<string>)
    requires rows != []
    ensures exists i :: 0 <= i < |rows| && |rows[i]| == MaxLength(rows)
  {
    var init := rows[..|rows| - 1];
    if init == [] {
      assert |rows[0]| == MaxLength(rows);
    } else {
      MaxLengthAttained(init);
      var i :| 0 <= i < |init| && |init[i]| == MaxLength(init);
      assert rows[i] == init[i];
    }
  }

  /** One more row raises the running maximum to its length if it is longer. */
  lemma MaxLengthAppend(rows: seq<string>, row: string)
    ensures MaxLength(rows + [row]) == if |row| > MaxLength(rows) then |row| else MaxLength(rows)
  {
    assert (rows + [row])[..|rows|] == rows;
  }

  /** The running maximum depends only on the row lengths. */
  lemma {:induction false} MaxLengthOfLengths(a: seq<string>, b: seq<string>)
    requires |a| == |b| && forall i :: 0 <= i < |a| ==> |a[i]| == |b[i]|
    ensures MaxLength(a) == MaxLength(b)
  {
    if a != [] {
      var n := |a| - 1;
      MaxLengthOfLengths(a[..n], b[..n]);
    }
  }

  // ---------------------------------------------------------------------------
  // Glyph blocks

  /** First line of the block of glyph `code`. */
  function BlockStart(h: RawHeader, code: nat): nat
    requires 32 <= code
  {
    h.commentLines + 1 + (code - 32) * h.height
  }

  /** Consecutive blocks follow each other; later blocks start later. */
  lemma BlockOrder(h: RawHeader, code: nat, later: nat)
    requires 32 <= code < later
    ensures BlockStart(h, code + 1) == BlockStart(h, code) + h.height
    ensures BlockStart(h, code) + h.height <= BlockStart(h, later)
  {
    var a, b := code - 32, later - 32;
    assert (a + 1) * h.height == a * h.height + h.height;
    assert (a + 1) * h.height <= b * h.height by {
      MultiplyMonotone(a + 1, b, h.height);
    }
  }

  lemma MultiplyMonotone(a: nat, b: nat, c: nat)
    requires a <= b
    ensures a * c <= b * c
  {
  }

  /** Lines needed to hold the required glyphs. */
  function RequiredLines(h: RawHeader): nat
  {
    BlockStart(h, 127)
  }

  /** The `height` lines of glyph `code`. */
  function Block(lines: seq<string>, h: RawHeader, code: nat): (rows: seq<string>)
    requires 32 <= code <= 126 && RequiredLines(h) <= |lines|
    ensures |rows| == h.height
  {
    BlockOrder(h, code, 127);
    lines[BlockStart(h, code)..BlockStart(h, code) + h.height]
  }

  /** The lines hold every required glyph block, each with rows long enough for their terminators. */
  predicate BlocksFit(lines: seq<string>, h: RawHeader)
  {
    && RequiredLines(h) <= |lines|
    && forall code :: 32 <= code <= 126 ==> RowsFit(Block(lines, h, code), h.height)
  }

  /** Line `k` belongs to a required glyph block. */
  predicate InBlocks(h: RawHeader, k: int)
  {
    BlockStart(h, 32) <= k < RequiredLines(h)
  }

  /**
   * Loading `s` runs without panicking (either loader): the first header token is not
   * empty, and once the header parses, `comment_lines + 1` fits in 16 bits
   * and the comment and glyph lines are all there, every glyph row long
   * enough to hold its terminator.
   */
  predicate Loadable(s: string)
  {
    var lines := Lines(s);
    lines != [] ==>
      && SignatureSegmentNonEmpty(lines[0])
      && (Header.FromStr(lines[0]).Success? ==>
            var h := Header.FromStr(lines[0]).value;
            h.commentLines < 0xFFFF && BlocksFit(lines, h))
  }

  // ---------------------------------------------------------------------------
  // Looking up the characters to render

  /** `c as u32`. */
  function Code(c: char): nat
  {
    c as int
  }

  /** The glyphs of the characters of `line`, or the first character the font lacks. */
  function ResolveLine<G>(glyphs: map<nat, G>, line: string): (r: Result<seq<G>, char>)
    ensures r.Success? <==> forall j :: 0 <= j < |line| ==> Code(line[j]) in glyphs
    ensures r.Success? ==> |r.value| == |line|
    ensures r.Success? ==> forall j :: 0 <= j < |line| ==> r.value[j] == glyphs[Code(line[j])]
    ensures r.Failure? ==> exists j :: 0 <= j < |line| && line[j] == r.error && Code(line[j]) !in glyphs
                                      && forall k :: 0 <= k < j ==> Code(line[k]) in glyphs
  {
    if line == [] then Success([])
    else
      var init := line[..|line| - 1];
      var c := line[|line| - 1];
      assert forall j :: 0 <= j < |line| - 1 ==> line[j] == init[j];
      var prefix :- ResolveLine(glyphs, init);
      if Code(c) in glyphs then Success(prefix + [glyphs[Code(c)]]) else Failure(c)
  }

  /** The glyphs of every line, or the first missing character in reading order. */
  function Resolve<G>(glyphs: map<nat, G>, lines: seq<string>): (r: Result<seq<seq<G>>, char>)
    ensures r.Success? <==> forall i :: 0 <= i < |lines| ==> ResolveLine(glyphs, lines[i]).Success?
    ensures r.Success? ==> |r.value| == |lines|
    ensures r.Success? ==> forall i :: 0 <= i < |lines| ==> r.value[i] == ResolveLine(glyphs, lines[i]).value
    ensures r.Failure? ==> exists i :: 0 <= i < |lines| && ResolveLine(glyphs, lines[i]) == Failure(r.error)
                                      && forall k :: 0 <= k < i ==> ResolveLine(glyphs, lines[k]).Success?
  {
    if lines == [] then Success([])
    else
      var init := lines[..|lines| - 1];
      assert forall i :: 0 <= i < |lines| - 1 ==> lines[i] == init[i];
      var prefix :- Resolve(glyphs, init);
      var last :- ResolveLine(glyphs, lines[|lines| - 1]);
      Success(prefix + [last])
  }

  /** Glyphs found one by one for every character are what resolution returns. */
  lemma ResolveLineFound<G>(glyphs: map<nat, G>, line: string, found: seq<G>)
    requires |found| == |line|
    requires forall j :: 0 <= j < |line| ==> Code(line[j]) in glyphs && found[j] == glyphs[Code(line[j])]
    ensures ResolveLine(glyphs, line) == Success(found)
  {
    var r := ResolveLine(glyphs, line);
    assert r.Success?;
    assert forall j :: 0 <= j < |line| ==> r.value[j] == found[j];
    assert r.value == found;
  }

  /** Lines resolved one by one are what resolution of the whole text returns. */
  lemma ResolveFound<G>(glyphs: map<nat, G>, lines: seq<string>, found: seq<seq<G>>)
    requires |found| == |lines|
    requires forall i :: 0 <= i < |lines| ==> ResolveLine(glyphs, lines[i]) == Success(found[i])
    ensures Resolve(glyphs, lines) == Success(found)
  {
    var r := Resolve(glyphs, lines);
    assert r.Success?;
    assert forall i :: 0 <= i < |lines| ==> r.value[i] == found[i];
    assert r.value == found;
  }

  /** Character `j` of line `i` has no glyph. */
  predicate MissingAt<G>(glyphs: map<nat, G>, lines: seq<string>, i: int, j: int)
  {
    0 <= i < |lines| && 0 <= j < |lines[i]| && Code(lines[i][j]) !in glyphs
  }

  /** `c` is the first character of the text, in reading order, without a glyph. */
  ghost predicate FirstMissing<G>(glyphs: map<nat, G>, lines: seq<string>, c: char)
  {
    exists i, j ::
      && MissingAt(glyphs, lines, i, j) && lines[i][j] == c
      && (forall i', j' :: 0 <= i' < i && 0 <= j' < |lines[i']| ==> Code(lines[i'][j']) in glyphs)
      && (forall j' :: 0 <= j' < j ==> Code(lines[i][j']) in glyphs)
  }

  /** Resolution fails exactly when some character of some line has no glyph. */
  lemma ResolveFailsExactly<G>(glyphs: map<nat, G>, lines: seq<string>)
    ensures Resolve(glyphs, lines).Failure? <==> exists i, j :: MissingAt(glyphs, lines, i, j)
  {
    if Resolve(glyphs, lines).Success? {
      forall i, j | 0 <= i < |lines| && 0 <= j < |lines[i]|
        ensures Code(lines[i][j]) in glyphs
      {
        assert ResolveLine(glyphs, lines[i]).Success?;
      }
    } else {
      ResolveFirstMissing(glyphs, lines);
    }
  }

  /** A failed resolution reports the first character without a glyph, in reading order. */
  lemma ResolveFirstMissing<G>(glyphs: map<nat, G>, lines: seq<string>)
    requires Resolve(glyphs, lines).Failure?
    ensures FirstMissing(glyphs, lines, Resolve(glyphs, lines).error)
  {
    var e := Resolve(glyphs, lines).error;
    var i :| 0 <= i < |lines| && ResolveLine(glyphs, lines[i]) == Failure(e)
             && forall k :: 0 <= k < i ==> ResolveLine(glyphs, lines[k]).Success?;
    var j :| 0 <= j < |lines[i]| && lines[i][j] == e && Code(lines[i][j]) !in glyphs
             && forall k :: 0 <= k < j ==> Code(lines[i][k]) in glyphs;
    forall i', j' | 0 <= i' < i && 0 <= j' < |lines[i']|
      ensures Code(lines[i'][j']) in glyphs
    {
      assert ResolveLine(glyphs, lines[i']).Success?;
    }
    assert MissingAt(glyphs, lines, i, j);
  }

  /** The lookup loops of both `convert`s: the glyph of each character, line by line, stopping at the first one missing. */
  method LookUp<G>(glyphs: map<nat, G>, lines: seq<string>) returns (r: Result<seq<seq<G>>, char>)
    ensures r == Resolve(glyphs, lines)
  {
    var charLines: seq<seq<G>> := [];
    var i := 0;
    while i < |lines|
      invariant 0 <= i <= |lines|
      invariant |charLines| == i
      invariant forall k :: 0 <= k < i ==> ResolveLine(glyphs, lines[k]) == Success(charLines[k])
    {
      var line := lines[i];
      var chars: seq<G> := [];
      var j := 0;
      while j < |line|
        invariant 0 <= j <= |line|
        invariant |chars| == j
        invariant forall k :: 0 <= k < j ==> Code(line[k]) in glyphs && chars[k] == glyphs[Code(line[k])]
      {
        var c := line[j];
        if Code(c) !in glyphs {
          MissingCharacterFound(glyphs, lines, i, j);
          return Failure(c);
        }
        chars := chars + [glyphs[Code(c)]];
        j := j + 1;
      }
      ResolveLineFound(glyphs, line, chars);
      charLines := charLines + [chars];
      i := i + 1;
    }
    ResolveFound(glyphs, lines, charLines);
    return Success(charLines);
  }

  /** A missing character found at line `i`, column `j`, after every earlier one was present, is what resolution reports. */
  lemma MissingCharacterFound<G>(glyphs: map<nat, G>, lines: seq<string>, i: nat, j: nat)
    requires i < |lines| && j < |lines[i]|
    requires forall k :: 0 <= k < i ==> ResolveLine(glyphs, lines[k]).Success?
    requires forall k :: 0 <= k < j ==> Code(lines[i][k]) in glyphs
    requires Code(lines[i][j]) !in glyphs
    ensures Resolve(glyphs, lines) == Failure(lines[i][j])
  {
    var line := ResolveLine(glyphs, lines[i]);
    assert line.Failure?;
    var r := Resolve(glyphs, lines);
    assert r.Failure?;
    var i' :| 0 <= i' < |lines| && ResolveLine(glyphs, lines[i']) == Failure(r.error)
              && forall k :: 0 <= k < i' ==> ResolveLine(glyphs, lines[k]).Success?;
    assert i' == i;
    var j' :| 0 <= j' < |lines[i]| && lines[i][j'] == line.error && Code(lines[i][j']) !in glyphs
              && forall k :: 0 <= k < j' ==> Code(lines[i][k]) in glyphs;
    assert j' == j;
  }

  // ---------------------------------------------------------------------------
  // Output text

  /** Each row followed by a newline. */
  function Terminated(rows: seq<string>): string
  {
    if rows == [] then "" else Terminated(rows[..|rows| - 1]) + rows[|rows| - 1] + "\n"
  }

  lemma {:induction false} TerminatedAppend(a: seq<string>, b: seq<string>)
    ensures Terminated(a + b) == Terminated(a) + Terminated(b)
    decreases |b|
  {
    if b == [] {
      assert a + b == a;
    } else {
      var init := b[..|b| - 1];
      TerminatedAppend(a, init);
      assert (a + b)[..|a + b| - 1] == a + init;
      assert (a + b)[|a + b| - 1] == b[|b| - 1];
    }
  }

  /** With no newline inside a row, the output holds exactly one newline per row. */
  lemma {:induction false} TerminatedNewlines(rows: seq<string>)
    requires forall i :: 0 <= i < |rows| ==> '\n' !in rows[i]
    ensures Count(Terminated(rows), '\n') == |rows|
    decreases |rows|
  {
    if rows != [] {
      var n := |rows| - 1;
      TerminatedNewlines(rows[..n]);
      CountAbsent(rows[n], '\n');
      CountAppend(Terminated(rows[..n]), rows[n], '\n');
      CountAppend(Terminated(rows[..n]) + rows[n], "\n", '\n');
    }
  }
}
