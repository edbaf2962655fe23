/**
 * The glyph table of HomeComponent and the brightness-to-index rule of getChar.
 *
 * The constructor builds `asciiChars` as the 95 one-character strings whose
 * code unit is 0, 1, ..., 94.  getChar reads entry
 * parseInt(((m / 255) * 94).toString(), 10) for a pixel whose largest channel
 * is m; this module computes that index exactly as m * 94 / 255 and proves
 * why the two agree.
 */
module Palette {

  /** Number of palette entries: `new Array(95).keys()`. */
  const Size: nat := 95

  /** Largest palette index the scaling `* 94` can produce. */
  const Top: nat := 94

  /** Largest value of a Uint8ClampedArray element. */
  const ChannelMax: nat := 255

  /** The palette as the constructor builds it: entry k has character code k. */
  function AsciiChars(): (p: seq<char>)
    ensures |p| == Size
    ensures forall k :: 0 <= k < |p| ==> p[k] as int == k
  {
    seq(Size, k requires 0 <= k < Size => k as char)
  }

  /** Every glyph of the palette sits at the index given by its own code. */
  lemma AsciiCharsIndexOf(c: char)
    requires c in AsciiChars()
    ensures (c as int) < Size && AsciiChars()[c as int] == c
  {
    var p := AsciiChars();
    var k :| 0 <= k < |p| && p[k] == c;
    assert p[k] as int == k;
  }

  /** The palette has no repeated glyph, so the glyph determines the index. */
  lemma AsciiCharsInjective(j: nat, k: nat)
    requires j < Size && k < Size
    requires AsciiChars()[j] == AsciiChars()[k]
    ensures j == k
  {
    var p := AsciiChars();
    assert p[j] as int == j && p[k] as int == k;
  }

  /**
   * The index getChar uses for a pixel whose largest channel is m:
   * floor((m / 255) * 94), a valid palette index, 0 for black, the last
   * index for a full channel.
   */
  function GlyphIndex(m: nat): (k: nat)
    requires m <= ChannelMax
    ensures k <= Top && k < Size
    ensures k * ChannelMax <= m * Top < (k + 1) * ChannelMax
    ensures m == 0 ==> k == 0
    ensures m == ChannelMax ==> k == Top
  {
    assert m * Top <= ChannelMax * Top;
    m * Top / ChannelMax
  }

  /** A brighter maximum channel never selects a darker glyph. */
  lemma GlyphIndexMonotone(a: nat, b: nat)
    requires a <= b <= ChannelMax
    ensures GlyphIndex(a) <= GlyphIndex(b)
  {
    var ka, kb := GlyphIndex(a), GlyphIndex(b);
    assert a * Top <= b * Top;
    assert ka * ChannelMax < (kb + 1) * ChannelMax;
  }

  /**
   * The exact product (m / 255) * 94 is a whole number only for m = 0 and
   * m = 255; for every other m its fractional part is at least 1/255.  So the
   * floating-point computation of getChar, whose rounding error is far below
   * 1/255, never crosses an integer and truncates to GlyphIndex(m).
   * The proof uses 19 * 94 == 7 * 255 + 1 (19 is the inverse of 94 modulo 255).
   */
  lemma ScaledLevelWhole(m: nat)
    requires m <= ChannelMax
    ensures (m * Top) % ChannelMax == 0 <==> m == 0 || m == ChannelMax
  {
    if (m * Top) % ChannelMax == 0 {
      var q := m * Top / ChannelMax;
      assert m * Top == q * ChannelMax;
      assert m * Top * 19 == q * 19 * ChannelMax;
      assert m * Top * 19 == m * 7 * ChannelMax + m;
      var d := q * 19 - m * 7;
      assert m == d * ChannelMax;
    }
    assert ChannelMax * Top == Top * ChannelMax;
  }
}
