/**
 * The font-file magic number: four characters packed big-endian into a
 * 32-bit word (src/utils.rs).
 */
module Magic {
  /** `c as u32` for a Rust `char`: its Unicode scalar value as a 32-bit word. */
  function CodeWord(c: char): bv32
  {
    c as bv32
  }

  /** True when every character is at most one byte wide (U+0000 to U+00FF). */
  predicate Latin1(chars: seq<char>)
  {
    forall i :: 0 <= i < |chars| ==> chars[i] as int < 0x100
  }

  /**
   * `to_magic_number`: the first character lands in the most significant byte.
   * Shifts drop the bits pushed past bit 31, as `<<` on `u32` does.
   */
  function ToMagicNumber(chars: seq<char>): (m: bv32)
    requires |chars| == 4
  {
    (CodeWord(chars[0]) << 24) | (CodeWord(chars[1]) << 16) | (CodeWord(chars[2]) << 8) | CodeWord(chars[3])
  }

  /** A byte of a packed word read back as a character. */
  function ByteChar(b: bv32): (c: char)
    requires b < 0x100
    ensures c as int < 0x100
  {
    (b as bv8) as char
  }

  /** The four bytes of `m`, most significant first, as characters: the inverse packing. */
  function Unpack(m: bv32): (chars: seq<char>)
    ensures |chars| == 4 && Latin1(chars)
  {
    [ByteChar((m >> 24) & 0xFF), ByteChar((m >> 16) & 0xFF), ByteChar((m >> 8) & 0xFF), ByteChar(m & 0xFF)]
  }

  lemma PackBytes(x: bv32, y: bv32, z: bv32, w: bv32)
    requires x < 0x100 && y < 0x100 && z < 0x100 && w < 0x100
    ensures ((x << 24) | (y << 16) | (z << 8) | w) == x * 0x100_0000 + y * 0x1_0000 + z * 0x100 + w
    ensures (((x << 24) | (y << 16) | (z << 8) | w) >> 24) & 0xFF == x
    ensures (((x << 24) | (y << 16) | (z << 8) | w) >> 16) & 0xFF == y
    ensures (((x << 24) | (y << 16) | (z << 8) | w) >> 8) & 0xFF == z
    ensures ((x << 24) | (y << 16) | (z << 8) | w) & 0xFF == w
  {
  }

  lemma CharByte(c: char)
    requires c as int < 0x100
    ensures c as bv8 as char == c
  {
  }

  lemma CodeWordSmall(c: char)
    requires c as int < 0x100
    ensures CodeWord(c) < 0x100
  {
  }

  lemma CodeWordByte(c: char)
    requires c as int < 0x100
    ensures CodeWord(c) < 0x100 && CodeWord(c) as bv8 == c as bv8
  {
  }

  /** For one-byte characters the bytes do not overlap: the packing is a base-256 numeral. */
  lemma MagicNumberAsSum(chars: seq<char>)
    requires |chars| == 4 && Latin1(chars)
    ensures ToMagicNumber(chars) == CodeWord(chars[0]) * 0x100_0000 + CodeWord(chars[1]) * 0x1_0000
                                    + CodeWord(chars[2]) * 0x100 + CodeWord(chars[3])
  {
    var x, y, z, w := CodeWord(chars[0]), CodeWord(chars[1]), CodeWord(chars[2]), CodeWord(chars[3]);
    assert x < 0x100 && y < 0x100 && z < 0x100 && w < 0x100 by {
      CodeWordSmall(chars[0]);
      CodeWordSmall(chars[1]);
      CodeWordSmall(chars[2]);
      CodeWordSmall(chars[3]);
    }
    PackBytes(x, y, z, w);
  }

  /** Unpacking a packed Latin-1 quadruple gives back its characters. */
  lemma UnpackMagicNumber(chars: seq<char>)
    requires |chars| == 4 && Latin1(chars)
    ensures Unpack(ToMagicNumber(chars)) == chars
  {
    forall k | 0 <= k < 4
      ensures CodeWord(chars[k]) < 0x100 && ByteChar(CodeWord(chars[k])) == chars[k]
    {
      CodeWordByte(chars[k]);
      CharByte(chars[k]);
    }
    PackBytes(CodeWord(chars[0]), CodeWord(chars[1]), CodeWord(chars[2]), CodeWord(chars[3]));
  }

  /** Distinct Latin-1 quadruples pack to distinct numbers. */
  lemma MagicNumberInjective(a: seq<char>, b: seq<char>)
    requires |a| == 4 && Latin1(a)
    requires |b| == 4 && Latin1(b)
    requires ToMagicNumber(a) == ToMagicNumber(b)
    ensures a == b
  {
    UnpackMagicNumber(a);
    UnpackMagicNumber(b);
  }

  /** Beyond one byte the high bits are shifted out: two different words pack alike. */
  lemma WideCharactersCollide()
    ensures ToMagicNumber(['Ā', 'F', 'R', 'F']) == ToMagicNumber(['\0', 'F', 'R', 'F'])
  {
    assert CodeWord('Ā') == 0x100;
    assert CodeWord('\0') == 0;
  }

  /** `FONT_FILE_MAGIC_NUMBER`: the packing of "FRF0". */
  const FontFileMagicNumber: bv32 := ToMagicNumber(['F', 'R', 'F', '0'])

  lemma FontFileMagicNumberValue()
    ensures FontFileMagicNumber == 0x4652_4630
    ensures FontFileMagicNumber as int == 1179797040
  {
    assert CodeWord('F') == 0x46 && CodeWord('R') == 0x52 && CodeWord('0') == 0x30;
  }
}
