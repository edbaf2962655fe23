/**
 * The frame-to-text transcoder of HomeComponent: getRGB, getChar and the
 * string getAsciiString builds.
 *
 * A frame is the flat RGBA byte buffer of a canvas.  Pixel i becomes one
 * `<font style="color: rgb(r,g,b)">c</font>` cell with its exact colour and a
 * glyph chosen by its largest channel, and a line break precedes every pixel
 * whose index is a multiple of the width.  The output is defined here first
 * as a sequence of tokens (row breaks and cells), built in the order of the
 * source loop, and then as the text those tokens render to.
 */
module Transcoder {
  import opened Wrappers
  import Palette
  import Decimal

  /** An element of a Uint8ClampedArray. */
  type byte = x: int | 0 <= x < 256

  /** A typed-array read: the byte, or `undefined` past the end of the buffer. */
  datatype Channel = Defined(value: byte) | Undefined

  /** The three-element array `[r, g, b]` getRGB returns. */
  datatype Rgb = Rgb(r: Channel, g: Channel, b: Channel)

  /**
   * `Math.max(r, g, b) / 255`, kept as the maximum channel m (the value is
   * m / 255); NaN when a channel is undefined.
   */
  datatype Luminance = Level(max: byte) | NaN

  /** One unit of the output: the line break, or a coloured glyph. */
  datatype Token = RowBreak | Cell(rgb: Rgb, glyph: Option<char>)

  function At(data: seq<byte>, j: nat): Channel {
    if j < |data| then Defined(data[j]) else Undefined
  }

  /** getRGB(imageData, i): the bytes at offsets 4i, 4i+1, 4i+2 (the alpha byte 4i+3 is skipped). */
  function GetRGB(data: seq<byte>, i: nat): Rgb {
    Rgb(At(data, 4 * i), At(data, 4 * i + 1), At(data, 4 * i + 2))
  }

  function Max3(a: byte, b: byte, c: byte): byte {
    if a >= b && a >= c then a else if b >= c then b else c
  }

  /** The `val` getAsciiString computes from a pixel's channels. */
  function Brightness(rgb: Rgb): Luminance {
    if rgb.r.Defined? && rgb.g.Defined? && rgb.b.Defined?
    then Level(Max3(rgb.r.value, rgb.g.value, rgb.b.value))
    else NaN
  }

  /**
   * getChar(val): the palette entry at the truncated `val * 94`, or
   * `undefined` when that is NaN or past the end of the palette.
   */
  function GetChar(chars: seq<char>, val: Luminance): Option<char> {
    match val
    case NaN => None
    case Level(m) =>
      var k := Palette.GlyphIndex(m);
      if k < |chars| then Some(chars[k]) else None
  }

  /** The cell the loop emits for pixel i. */
  function PixelCell(chars: seq<char>, data: seq<byte>, i: nat): Token {
    var rgb := GetRGB(data, i);
    Cell(rgb, GetChar(chars, Brightness(rgb)))
  }

  /**
   * Whether iteration i starts a row: `i % width === 0`.  For a zero width the
   * remainder is NaN, which equals nothing.
   */
  predicate RowStart(width: nat, i: nat) {
    width != 0 && i % width == 0
  }

  /** What iteration i of the loop appends: a row break when it starts a row, then the cell. */
  function StepTokens(chars: seq<char>, data: seq<byte>, width: nat, i: nat): seq<Token>
  {
    (if RowStart(width, i) then [RowBreak] else []) + [PixelCell(chars, data, i)]
  }

  /** The output after the first k iterations of the loop. */
  function TokenPrefix(chars: seq<char>, data: seq<byte>, width: nat, k: nat): seq<Token>
  {
    if k == 0 then [] else TokenPrefix(chars, data, width, k - 1) + StepTokens(chars, data, width, k - 1)
  }

  /** The number of iterations of getAsciiString's loop. */
  function PixelCount(width: nat, height: nat): nat {
    width * height
  }

  /** The whole frame: the loop runs for i in 0 .. width * height - 1. */
  function Transcode(chars: seq<char>, data: seq<byte>, width: nat, height: nat): seq<Token> {
    TokenPrefix(chars, data, width, PixelCount(width, height))
  }

  // ---------------------------------------------------------------------
  // Text

  const CellOpen: string := "<font style=\"color: rgb("
  const CellMid: string := ")\">"
  const CellClose: string := "</font>"
  const UndefinedText: string := "undefined"

  /** A channel as `join` writes it: its decimal text, or nothing for undefined. */
  function ChannelText(c: Channel): string {
    match c
    case Defined(v) => Decimal.Digits(v)
    case Undefined => ""
  }

  /** `rgb.join(',')`. */
  function JoinRgb(rgb: Rgb): string {
    ChannelText(rgb.r) + "," + ChannelText(rgb.g) + "," + ChannelText(rgb.b)
  }

  /** A glyph as string concatenation writes it. */
  function GlyphText(g: Option<char>): string {
    match g
    case Some(c) => [c]
    case None => UndefinedText
  }

  function TokenText(t: Token): string {
    match t
    case RowBreak => "\n"
    case Cell(rgb, g) => CellOpen + JoinRgb(rgb) + CellMid + GlyphText(g) + CellClose
  }

  function Render(ts: seq<Token>): string {
    if ts == [] then "" else TokenText(ts[0]) + Render(ts[1..])
  }

  /** Iteration i first appends a line break when it starts a row. */
  function BreakText(width: nat, i: nat): string
  {
    if RowStart(width, i) then "\n" else ""
  }

  /** The string `str` after the first k iterations of the loop. */
  function AsciiPrefix(chars: seq<char>, data: seq<byte>, width: nat, k: nat): string
  {
    if k == 0 then ""
    else AsciiPrefix(chars, data, width, k - 1) + BreakText(width, k - 1) + TokenText(PixelCell(chars, data, k - 1))
  }

  /** The string getAsciiString returns. */
  function AsciiString(chars: seq<char>, data: seq<byte>, width: nat, height: nat): string {
    AsciiPrefix(chars, data, width, PixelCount(width, height))
  }

  // ---------------------------------------------------------------------
  // Reference definitions of the output

  /** The cells of row r, left to right. */
  function RowCells(chars: seq<char>, data: seq<byte>, width: nat, r: nat): (row: seq<Token>)
    ensures |row| == width
  {
    seq(width, c requires 0 <= c < width => PixelCell(chars, data, r * width + c))
  }

  /** The first r rows, each a row break followed by the row's cells. */
  function Rows(chars: seq<char>, data: seq<byte>, width: nat, r: nat): seq<Token> {
    if r == 0 then [] else Rows(chars, data, width, r - 1) + [RowBreak] + RowCells(chars, data, width, r - 1)
  }

  /** The cells of a token sequence, in order, with the row breaks removed. */
  function Cells(ts: seq<Token>): seq<Token> {
    if ts == [] then [] else (if ts[0].Cell? then [ts[0]] else []) + Cells(ts[1..])
  }

  function BreakCount(ts: seq<Token>): nat {
    if ts == [] then 0 else (if ts[0].RowBreak? then 1 else 0) + BreakCount(ts[1..])
  }

  function CountChar(s: string, c: char): nat {
    if s == [] then 0 else (if s[0] == c then 1 else 0) + CountChar(s[1..], c)
  }
}
