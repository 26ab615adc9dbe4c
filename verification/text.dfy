/**
 * The pieces of Rust's `str` API the font engine relies on: `split(' ')`,
 * `lines()`, `join`, `starts_with` and integer `parse` (`u16` and `i8`).
 * Strings are ASCII, so one `char` is one byte and `|s|` is Rust's `len()`.
 */
module Text {
  import opened Wrappers

  // ---------------------------------------------------------------------------
  // split

  /** Number of occurrences of `c` in `s`. */
  function Count(s: string, c: char): nat
  {
    if s == [] then 0 else (if s[0] == c then 1 else 0) + Count(s[1..], c)
  }

  /** Occurrences in a concatenation add up. */
  lemma {:induction false} CountAppend(a: string, b: string, c: char)
    ensures Count(a + b, c) == Count(a, c) + Count(b, c)
  {
    if a == [] {
      assert a + b == b;
    } else {
      CountAppend(a[1..], b, c);
      assert (a + b)[1..] == a[1..] + b;
    }
  }

  /** A string without `c` holds no occurrence of it. */
  lemma {:induction false} CountAbsent(s: string, c: char)
    requires c !in s
    ensures Count(s, c) == 0
  {
    if s != [] {
      assert c !in s[1..] by {
        assert forall k :: 0 <= k < |s[1..]| ==> s[1..][k] == s[k + 1];
      }
      CountAbsent(s[1..], c);
    }
  }

  /** `s.replace(from, to)` for one-character pattern and replacement: every `from` becomes `to`. */
  function ReplaceChar(s: string, from: char, to: char): (r: string)
    ensures |r| == |s|
    ensures forall k :: 0 <= k < |s| ==> r[k] == if s[k] == from then to else s[k]
    ensures from != to ==> from !in r
  {
    if s == [] then [] else [if s[0] == from then to else s[0]] + ReplaceChar(s[1..], from, to)
  }

  /**
   * Rust `s.split(sep)` collected: every occurrence of `sep` ends one token,
   * so consecutive separators produce empty tokens and the empty string
   * produces one empty token.
   */
  function Split(s: string, sep: char): (r: seq<string>)
    ensures |r| >= 1
    ensures forall k :: 0 <= k < |r| ==> sep !in r[k]
  {
    if s == [] then [""]
    else
      var rest := Split(s[1..], sep);
      if s[0] == sep then [""] + rest
      else [[s[0]] + rest[0]] + rest[1..]
  }

  /** `parts.join(sep)`: the parts with one `sep` between neighbours. */
  function Join(parts: seq<string>, sep: char): string
  {
    if |parts| == 0 then ""
    else if |parts| == 1 then parts[0]
    else parts[0] + [sep] + Join(parts[1..], sep)
  }

  /** Splitting on `sep` gives one more token than there are separators. */
  lemma {:induction false} SplitCount(s: string, sep: char)
    ensures |Split(s, sep)| == Count(s, sep) + 1
  {
    if s != [] {
      SplitCount(s[1..], sep);
    }
  }

  /** Joining the tokens with the separator gives back the original string. */
  lemma {:induction false} SplitJoin(s: string, sep: char)
    ensures Join(Split(s, sep), sep) == s
  {
    if s != [] {
      var rest := Split(s[1..], sep);
      SplitJoin(s[1..], sep);
      if s[0] == sep {
        assert Split(s, sep) == [""] + rest;
        assert ([""] + rest)[1..] == rest;
      } else {
        var r := Split(s, sep);
        assert r == [[s[0]] + rest[0]] + rest[1..];
        if |rest| == 1 {
          assert Join(rest, sep) == rest[0];
        } else {
          assert r[1..] == rest[1..];
          assert Join(rest, sep) == rest[0] + [sep] + Join(rest[1..], sep);
        }
      }
    }
  }

  /** A string without the separator is a single token. */
  lemma {:induction false} SplitWithoutSeparator(s: string, sep: char)
    requires sep !in s
    ensures Split(s, sep) == [s]
  {
    if s != [] {
      assert sep !in s[1..] by {
        forall k | 0 <= k < |s[1..]| ensures s[1..][k] != sep {
          assert s[1..][k] == s[k + 1];
        }
      }
      SplitWithoutSeparator(s[1..], sep);
      assert [s[0]] + s[1..] == s;
    }
  }

  /** A separator between `a` and `b` puts their tokens side by side. */
  lemma {:induction false} SplitAround(a: string, b: string, sep: char)
    ensures Split(a + [sep] + b, sep) == Split(a, sep) + Split(b, sep)
  {
    var s := a + [sep] + b;
    if a == [] {
      assert s == [sep] + b;
      assert s[1..] == b;
    } else {
      assert s[0] == a[0];
      assert s[1..] == a[1..] + [sep] + b;
      SplitAround(a[1..], b, sep);
      var ra, rb := Split(a[1..], sep), Split(b, sep);
      var rab := Split(s[1..], sep);
      assert rab == ra + rb;
      if a[0] == sep {
        assert Split(s, sep) == [""] + rab;
        assert Split(a, sep) == [""] + ra;
      } else {
        assert rab[0] == ra[0];
        assert rab[1..] == ra[1..] + rb;
        assert Split(s, sep) == [[a[0]] + rab[0]] + rab[1..];
        assert Split(a, sep) == [[a[0]] + ra[0]] + ra[1..];
      }
    }
  }

  // ---------------------------------------------------------------------------
  // lines

  /** Removes one trailing carriage return. */
  function StripCarriageReturn(line: string): (r: string)
    ensures r == line || (line == r + ['\r'])
  {
    if |line| > 0 && line[|line| - 1] == '\r' then line[..|line| - 1] else line
  }

  /**
   * Rust `s.lines()` collected: lines end at `'\n'`; a line ended by `'\n'`
   * loses one trailing `'\r'`; the text after the last `'\n'` is a line only
   * when it is not empty.
   */
  function Lines(s: string): (r: seq<string>)
    ensures forall k :: 0 <= k < |r| ==> '\n' !in r[k]
    ensures s == "" <==> r == []
  {
    var parts := Split(s, '\n');
    var last := parts[|parts| - 1];
    SplitJoin(s, '\n');
    assert |parts| == 1 ==> Join(parts, '\n') == last;
    seq(|parts| - 1, k requires 0 <= k < |parts| - 1 => StripCarriageReturn(parts[k]))
      + (if last == "" then [] else [last])
  }

  /** Without carriage returns and without a final newline, `lines()` is `split('\n')`. */
  lemma LinesOfPlainText(s: string)
    requires '\r' !in s
    requires s != "" && s[|s| - 1] != '\n'
    ensures Lines(s) == Split(s, '\n')
  {
    var parts := Split(s, '\n');
    var n := |parts|;
    var r := Lines(s);
    LastTokenEndsText(s, '\n');
    assert parts[n - 1] != "";
    assert |r| == n;
    forall k | 0 <= k < n
      ensures r[k] == parts[k]
    {
      if k < n - 1 {
        assert r[k] == StripCarriageReturn(parts[k]);
        TokenInside(s, '\n', k);
        if |parts[k]| > 0 {
          assert parts[k][|parts[k]| - 1] in parts[k];
        }
      }
    }
  }

  /** Every character of a token occurs in the split string. */
  lemma {:induction false} TokenInside(s: string, sep: char, k: nat)
    requires k < |Split(s, sep)|
    ensures forall c :: c in Split(s, sep)[k] ==> c in s
  {
    if s != [] {
      var rest := Split(s[1..], sep);
      if s[0] == sep {
        if k > 0 {
          TokenInside(s[1..], sep, k - 1);
        }
      } else if k == 0 {
        TokenInside(s[1..], sep, 0);
      } else {
        TokenInside(s[1..], sep, k);
      }
    }
  }

  /** The last token is a suffix of the text, so a text not ending in `sep` has a non-empty last token. */
  lemma {:induction false} LastTokenEndsText(s: string, sep: char)
    requires s != [] && s[|s| - 1] != sep
    ensures var r := Split(s, sep); r[|r| - 1] != "" && r[|r| - 1][|r[|r| - 1]| - 1] == s[|s| - 1]
  {
    var rest := Split(s[1..], sep);
    if |s| > 1 {
      LastTokenEndsText(s[1..], sep);
    }
  }

  /**
   * `lines()` on any text: every newline ends a line and loses one `'\r'`
   * before it, and the text after the last newline is a line of its own
   * unless it is empty.
   */
  lemma LinesOfText(s: string)
    ensures var parts := Split(s, '\n'); var n := |parts|;
      && |Lines(s)| == (if parts[n - 1] == "" then n - 1 else n)
      && (forall k :: 0 <= k < n - 1 ==> Lines(s)[k] == StripCarriageReturn(parts[k]))
      && (parts[n - 1] != "" ==> Lines(s)[n - 1] == parts[n - 1])
  {
  }

  /** The text with every newline written as `"\r\n"`. */
  function WithCrLf(s: string): (r: string)
    ensures |r| == |s| + Count(s, '\n')
  {
    if s == [] then [] else (if s[0] == '\n' then "\r\n" else [s[0]]) + WithCrLf(s[1..])
  }

  /** Every token but the last followed by a carriage return. */
  function CarriageReturned(parts: seq<string>): (r: seq<string>)
    ensures |r| == |parts|
  {
    seq(|parts|, k requires 0 <= k < |parts| => if k < |parts| - 1 then parts[k] + "\r" else parts[k])
  }

  /** Writing newlines as `"\r\n"` puts a carriage return at the end of every token but the last. */
  lemma {:induction false} SplitWithCrLf(s: string)
    ensures Split(WithCrLf(s), '\n') == CarriageReturned(Split(s, '\n'))
  {
    if s != [] {
      var rest := Split(s[1..], '\n');
      var tail := WithCrLf(s[1..]);
      SplitWithCrLf(s[1..]);
      if s[0] == '\n' {
        assert WithCrLf(s) == "\r" + ['\n'] + tail;
        SplitAround("\r", tail, '\n');
        SplitWithoutSeparator("\r", '\n');
        CarriageReturnedEmptyFirst(rest);
      } else {
        var c := WithCrLf(s);
        assert c == [s[0]] + tail && c[1..] == tail;
        CarriageReturnedLongerFirst(s[0], rest);
      }
    }
  }

  /** An empty first token gets the carriage return alone. */
  lemma CarriageReturnedEmptyFirst(rest: seq<string>)
    requires |rest| >= 1
    ensures CarriageReturned([""] + rest) == ["\r"] + CarriageReturned(rest)
  {
    var q := [""] + rest;
    var p := CarriageReturned(rest);
    forall k | 0 <= k < |q|
      ensures CarriageReturned(q)[k] == (["\r"] + p)[k]
    {
      if k == 0 {
        assert "" + "\r" == "\r";
      } else {
        assert q[k] == rest[k - 1];
      }
    }
  }

  /** A character put in front of the first token stays in front of it. */
  lemma CarriageReturnedLongerFirst(c: char, rest: seq<string>)
    requires |rest| >= 1
    ensures var p := CarriageReturned(rest);
      CarriageReturned([[c] + rest[0]] + rest[1..]) == [[c] + p[0]] + p[1..]
  {
    var q := [[c] + rest[0]] + rest[1..];
    var p := CarriageReturned(rest);
    forall k | 0 <= k < |q|
      ensures CarriageReturned(q)[k] == ([[c] + p[0]] + p[1..])[k]
    {
      if k == 0 {
        assert [c] + rest[0] + "\r" == [c] + (rest[0] + "\r");
      } else {
        assert q[k] == rest[k];
      }
    }
  }

  /** Text with Windows line endings has the same lines as with Unix ones. */
  lemma LinesWithCrLf(s: string)
    requires '\r' !in s
    ensures Lines(WithCrLf(s)) == Lines(s)
  {
    var parts := Split(s, '\n');
    var n := |parts|;
    SplitWithCrLf(s);
    var crlf := CarriageReturned(parts);
    LinesOfText(s);
    LinesOfText(WithCrLf(s));
    forall k | 0 <= k < n - 1
      ensures StripCarriageReturn(crlf[k]) == StripCarriageReturn(parts[k])
    {
      assert crlf[k][..|crlf[k]| - 1] == parts[k];
      TokenInside(s, '\n', k);
      if |parts[k]| > 0 {
        assert parts[k][|parts[k]| - 1] in parts[k];
      }
    }
  }

  // ---------------------------------------------------------------------------
  // starts_with

  predicate StartsWith(s: string, prefix: string)
  {
    |prefix| <= |s| && s[..|prefix|] == prefix
  }

  // ---------------------------------------------------------------------------
  // integer parsing

  /** The kinds of `std::num::ParseIntError` the parser produces. */
  datatype IntErrorKind = Empty | InvalidDigit | PosOverflow | NegOverflow

  /** The integer types the header parser reads. */
  datatype IntType = U16 | I8 {

    function Min(): int
    {
      if U16? then 0 else -0x80
    }

    function Max(): int
    {
      if U16? then 0xFFFF else 0x7F
    }

    predicate Signed()
    {
      I8?
    }
  }

  predicate IsDigit(c: char)
  {
    '0' <= c <= '9'
  }

  function DigitValue(c: char): (d: nat)
    requires IsDigit(c)
    ensures d < 10
  {
    c as int - '0' as int
  }

  predicate AllDigits(s: string)
  {
    forall k :: 0 <= k < |s| ==> IsDigit(s[k])
  }

  /**
   * The digit loop of Rust's `from_str_radix` for radix 10: each digit is
   * validated, then the running value is multiplied by 10 and the digit is
   * added (or subtracted, for a negative number) with an overflow check.
   */
  function Accumulate(digits: string, acc: int, positive: bool, t: IntType): (r: Result<int, IntErrorKind>)
    requires t.Min() <= acc <= t.Max()
    ensures r.Success? ==> t.Min() <= r.value <= t.Max()
    ensures r != Failure(Empty)
    decreases |digits|
  {
    if digits == [] then Success(acc)
    else if !IsDigit(digits[0]) then Failure(InvalidDigit)
    else
      var next := Step(acc, digits[0], positive);
      if next > t.Max() then Failure(PosOverflow)
      else if next < t.Min() then Failure(NegOverflow)
      else Accumulate(digits[1..], next, positive, t)
  }

  /**
   * Rust `s.parse::<u16>()` / `s.parse::<i8>()`: an optional `+` (or `-` for a
   * signed type) followed by decimal digits whose value is in range.
   */
  function ParseInt(s: string, t: IntType): (r: Result<int, IntErrorKind>)
    ensures r.Success? ==> t.Min() <= r.value <= t.Max()
    ensures s == "" <==> r == Failure(Empty)
  {
    if s == [] then Failure(Empty)
    else if s == "+" || s == "-" then Failure(InvalidDigit)
    else if s[0] == '+' then Accumulate(s[1..], 0, true, t)
    else if s[0] == '-' && t.Signed() then Accumulate(s[1..], 0, false, t)
    else Accumulate(s, 0, true, t)
  }

  /** Decimal value of a digit string, read most significant digit first. */
  function DecimalValue(s: string): nat
    requires AllDigits(s)
  {
    if s == [] then 0 else DecimalValue(s[..|s| - 1]) * 10 + DigitValue(s[|s| - 1])
  }

  /** False when the numeral starts with `-` (recognised only for a signed type). */
  predicate NumeralPositive(s: string, t: IntType)
  {
    !(|s| > 0 && s[0] == '-' && t.Signed())
  }

  /** `v` with the sign given by `positive`. */
  function Signed(positive: bool, v: nat): int
  {
    if positive then v else 0 - v
  }

  /** The numeral without its sign character. */
  function NumeralDigits(s: string, t: IntType): string
  {
    if |s| > 0 && (s[0] == '+' || (s[0] == '-' && t.Signed())) then s[1..] else s
  }

  /** A well-formed decimal numeral of type `t`, independently of the digit loop. */
  predicate IsNumeral(s: string, t: IntType)
  {
    var ds := NumeralDigits(s, t);
    && ds != ""
    && AllDigits(ds)
    && t.Min() <= Signed(NumeralPositive(s, t), DecimalValue(ds)) <= t.Max()
  }

  /** One step of the digit loop: the running value after digit `c`. */
  function Step(acc: int, c: char, positive: bool): int
    requires IsDigit(c)
  {
    if positive then acc * 10 + DigitValue(c) else acc * 10 - DigitValue(c)
  }

  /** Running the digit loop over `a + b` is running it over `a`, then over `b`. */
  lemma {:induction false} AccumulateAppend(a: string, b: string, acc: int, positive: bool, t: IntType)
    requires t.Min() <= acc <= t.Max()
    ensures Accumulate(a + b, acc, positive, t) ==
      match Accumulate(a, acc, positive, t)
      case Success(v) => Accumulate(b, v, positive, t)
      case Failure(e) => Failure(e)
  {
    if a == [] {
      assert a + b == b;
    } else {
      assert (a + b)[0] == a[0];
      assert (a + b)[1..] == a[1..] + b;
      if IsDigit(a[0]) {
        var next := Step(acc, a[0], positive);
        if t.Min() <= next <= t.Max() {
          AccumulateAppend(a[1..], b, next, positive, t);
        }
      }
    }
  }

  /** Over digits only, the loop succeeds exactly when the signed value is in range. */
  lemma {:induction false} AccumulateDigits(ds: string, positive: bool, t: IntType)
    requires AllDigits(ds)
    ensures var v := Signed(positive, DecimalValue(ds));
      Accumulate(ds, 0, positive, t) == if t.Min() <= v <= t.Max() then Success(v)
        else Failure(if positive then PosOverflow else NegOverflow)
  {
    if ds != [] {
      var a, d := ds[..|ds| - 1], ds[|ds| - 1];
      assert ds == a + [d];
      assert AllDigits(a) by {
        forall k | 0 <= k < |a| ensures IsDigit(a[k]) {
          assert a[k] == ds[k];
        }
      }
      AccumulateDigits(a, positive, t);
      AccumulateAppend(a, [d], 0, positive, t);
      var va := DecimalValue(a);
      assert DecimalValue(ds) == va * 10 + DigitValue(d);
      var ra := Accumulate(a, 0, positive, t);
      if ra.Success? {
        assert Accumulate(ds, 0, positive, t) == Accumulate([d], ra.value, positive, t);
        assert [d][1..] == [];
      }
    }
  }

  /** A character that is not a digit makes the loop fail. */
  lemma {:induction false} AccumulateRejects(ds: string, acc: int, positive: bool, t: IntType, k: nat)
    requires t.Min() <= acc <= t.Max()
    requires k < |ds| && !IsDigit(ds[k])
    ensures Accumulate(ds, acc, positive, t).Failure?
  {
    if k > 0 && IsDigit(ds[0]) {
      var next := Step(acc, ds[0], positive);
      if t.Min() <= next <= t.Max() {
        AccumulateRejects(ds[1..], next, positive, t, k - 1);
      }
    }
  }

  /** `parse` accepts exactly the numerals of the type, with their value. */
  lemma ParseIntNumeral(s: string, t: IntType)
    ensures ParseInt(s, t).Success? <==> IsNumeral(s, t)
    ensures ParseInt(s, t).Success? ==>
      ParseInt(s, t).value == Signed(NumeralPositive(s, t), DecimalValue(NumeralDigits(s, t)))
  {
    var ds, positive := NumeralDigits(s, t), NumeralPositive(s, t);
    if s != [] && s != "+" && s != "-" {
      assert ParseInt(s, t) == Accumulate(ds, 0, positive, t);
      if AllDigits(ds) {
        AccumulateDigits(ds, positive, t);
      } else {
        var k :| 0 <= k < |ds| && !IsDigit(ds[k]);
        AccumulateRejects(ds, 0, positive, t, k);
      }
    }
  }

  // ---------------------------------------------------------------------------
  // decimal formatting, the inverse of parsing

  function DigitChar(d: nat): (c: char)
    requires d < 10
    ensures IsDigit(c) && DigitValue(c) == d
  {
    ('0' as int + d) as char
  }

  /** Decimal digits of `n`, most significant first, without leading zeros. */
  function Decimal(n: nat): (s: string)
    ensures s != "" && AllDigits(s) && DecimalValue(s) == n
  {
    if n < 10 then [DigitChar(n)]
    else
      var s := Decimal(n / 10) + [DigitChar(n % 10)];
      assert s[..|s| - 1] == Decimal(n / 10);
      s
  }

  /** The numeral Rust's `Display` writes for `n`. */
  function FormatInt(n: int): string
  {
    if n < 0 then "-" + Decimal(-n) else Decimal(n)
  }

  /** Parsing what was formatted gives the number back, for every value of the type. */
  lemma ParseFormatInt(n: int, t: IntType)
    requires t.Min() <= n <= t.Max()
    ensures ParseInt(FormatInt(n), t) == Success(n)
  {
    var s := FormatInt(n);
    ParseIntNumeral(s, t);
    if n < 0 {
      assert t.Signed();
      assert NumeralDigits(s, t) == Decimal(-n);
    } else {
      assert NumeralDigits(s, t) == Decimal(n);
    }
  }
}
