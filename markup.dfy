/**
 * Reading a transcoded frame back.  The string getAsciiString builds is both
 * displayed and sent to the server as is; this module decodes such a string
 * into its row breaks and cells and proves that decoding recovers exactly the
 * tokens that were rendered, so the text carries every cell's glyph and exact
 * colour unambiguously.
 */
module Markup {
  import opened Wrappers
  import Decimal
  import opened Transcoder
  import TranscoderLemmas

  /** A parsed value and the input that follows it. */
  datatype Parsed<T> = Parsed(value: T, rest: string)

  function DropPrefix(p: string, s: string): (r: Option<string>)
    ensures r.Some? ==> s == p + r.value
  {
    if p <= s then Some(s[|p|..]) else None
  }

  /** Length of the run of decimal digits at the start of s. */
  function DigitRun(s: string): (n: nat)
    ensures n <= |s| && Decimal.AllDigits(s[..n])
    ensures n < |s| ==> !Decimal.IsDigit(s[n])
  {
    if s != [] && Decimal.IsDigit(s[0]) then 1 + DigitRun(s[1..]) else 0
  }

  /** One channel of `rgb(...)`: a run of digits, or nothing for an undefined channel. */
  function ParseChannel(s: string): (r: Option<Parsed<Channel>>)
    ensures r.Some? ==> |r.value.rest| <= |s|
  {
    var n := DigitRun(s);
    if n == 0 then Some(Parsed(Undefined, s))
    else
      var v := Decimal.Value(s[..n]);
      if v < 256 then Some(Parsed(Defined(v), s[n..])) else None
  }

  /** The glyph of a cell: one character before the closing tag, or the text `undefined`. */
  function ParseGlyph(s: string): (r: Option<Parsed<Option<char>>>)
    ensures r.Some? ==> |r.value.rest| < |s|
  {
    if |s| >= 1 && CellClose <= s[1..] then Some(Parsed(Some(s[0]), s[1..]))
    else if UndefinedText <= s then Some(Parsed(None, s[|UndefinedText|..]))
    else None
  }

  function ParseCell(s: string): (r: Option<Parsed<Token>>)
    ensures r.Some? ==> |r.value.rest| < |s|
  {
    var s1 :- DropPrefix(CellOpen, s);
    var red :- ParseChannel(s1);
    var s2 :- DropPrefix(",", red.rest);
    var green :- ParseChannel(s2);
    var s3 :- DropPrefix(",", green.rest);
    var blue :- ParseChannel(s3);
    var s4 :- DropPrefix(CellMid, blue.rest);
    var glyph :- ParseGlyph(s4);
    var s5 :- DropPrefix(CellClose, glyph.rest);
    Some(Parsed(Cell(Rgb(red.value, green.value, blue.value), glyph.value), s5))
  }

  /** Decodes a whole frame: a line break at a token boundary is a row break, anything else a cell. */
  function ParseTokens(s: string): Option<seq<Token>>
    decreases |s|
  {
    if s == [] then Some([])
    else if s[0] == '\n' then
      var ts :- ParseTokens(s[1..]);
      Some([RowBreak] + ts)
    else
      var cell :- ParseCell(s);
      var ts :- ParseTokens(cell.rest);
      Some([cell.value] + ts)
  }

  // ---------------------------------------------------------------------
  // Decoding inverts rendering

  lemma DropPrefixOf(p: string, s: string)
    ensures DropPrefix(p, p + s) == Some(s)
  {
    assert (p + s)[..|p|] == p;
    assert (p + s)[|p|..] == s;
  }

  lemma {:induction false} DigitRunOf(a: string, rest: string)
    requires Decimal.AllDigits(a)
    requires rest != [] && !Decimal.IsDigit(rest[0])
    ensures DigitRun(a + rest) == |a|
  {
    if a != [] {
      assert (a + rest)[0] == a[0];
      assert (a + rest)[1..] == a[1..] + rest;
      DigitRunOf(a[1..], rest);
    } else {
      assert a + rest == rest;
    }
  }

  lemma ParseChannelOf(ch: Channel, rest: string)
    requires rest != [] && !Decimal.IsDigit(rest[0])
    ensures ParseChannel(ChannelText(ch) + rest) == Some(Parsed(ch, rest))
  {
    var t := ChannelText(ch);
    DigitRunOf(t, rest);
    assert (t + rest)[..|t|] == t;
    assert (t + rest)[|t|..] == rest;
    if ch.Defined? {
      Decimal.ValueOfDigits(ch.value);
    } else {
      assert t + rest == rest;
    }
  }

  lemma ParseGlyphOf(g: Option<char>, rest: string)
    ensures ParseGlyph(GlyphText(g) + CellClose + rest) == Some(Parsed(g, CellClose + rest))
  {
    var s := GlyphText(g) + CellClose + rest;
    assert s == GlyphText(g) + (CellClose + rest);
    match g
    case Some(c) =>
      assert s[1..] == CellClose + rest;
    case None =>
      assert s[1] == 'n';
      assert !(CellClose <= s[1..]);
      assert s[..|UndefinedText|] == UndefinedText;
      assert s[|UndefinedText|..] == CellClose + rest;
  }

  lemma Assoc(a: string, b: string, c: string)
    ensures a + b + c == a + (b + c)
  {
  }

  lemma CellTextSplit(rgb: Rgb, g: Option<char>, rest: string)
    ensures TokenText(Cell(rgb, g)) + rest
         == CellOpen + (JoinRgb(rgb) + (CellMid + (GlyphText(g) + CellClose + rest)))
  {
    var o, j, m, t, c := CellOpen, JoinRgb(rgb), CellMid, GlyphText(g), CellClose;
    Assoc(o + j + m + t, c, rest);
    Assoc(o + j + m, t, c + rest);
    Assoc(t, c, rest);
    Assoc(o + j, m, t + c + rest);
    Assoc(o, j, m + (t + c + rest));
  }

  lemma JoinSplit(rgb: Rgb, tail: string)
    ensures JoinRgb(rgb) + tail
         == ChannelText(rgb.r) + ("," + (ChannelText(rgb.g) + ("," + (ChannelText(rgb.b) + tail))))
  {
    var r, gr, b := ChannelText(rgb.r), ChannelText(rgb.g), ChannelText(rgb.b);
    Assoc(r + "," + gr + ",", b, tail);
    Assoc(r + "," + gr, ",", b + tail);
    Assoc(r + ",", gr, "," + (b + tail));
    Assoc(r, ",", gr + ("," + (b + tail)));
  }

  lemma ParseCellOf(rgb: Rgb, g: Option<char>, rest: string)
    ensures ParseCell(TokenText(Cell(rgb, g)) + rest) == Some(Parsed(Cell(rgb, g), rest))
  {
    var r, gr, b := ChannelText(rgb.r), ChannelText(rgb.g), ChannelText(rgb.b);
    var tail := GlyphText(g) + CellClose + rest;
    var s4 := CellMid + tail;
    var s3 := b + s4;
    var s2 := gr + ("," + s3);
    var s1 := r + ("," + s2);
    CellTextSplit(rgb, g, rest);
    JoinSplit(rgb, s4);
    DropPrefixOf(CellOpen, s1);
    ParseChannelOf(rgb.r, "," + s2);
    DropPrefixOf(",", s2);
    ParseChannelOf(rgb.g, "," + s3);
    DropPrefixOf(",", s3);
    ParseChannelOf(rgb.b, s4);
    DropPrefixOf(CellMid, tail);
    ParseGlyphOf(g, rest);
    DropPrefixOf(CellClose, rest);
  }

  /** Decoding the text of any token sequence gives back that sequence. */
  lemma {:induction false} ParseRender(ts: seq<Token>)
    ensures ParseTokens(Render(ts)) == Some(ts)
  {
    if ts != [] {
      var rest := Render(ts[1..]);
      ParseRender(ts[1..]);
      match ts[0]
      case RowBreak =>
        assert Render(ts)[1..] == rest;
        assert [RowBreak] + ts[1..] == ts;
      case Cell(rgb, g) =>
        ParseCellOf(rgb, g, rest);
        assert Render(ts)[0] == '<';
        assert [ts[0]] + ts[1..] == ts;
    }
  }

  /**
   * The string getAsciiString returns decodes to exactly the transcoded
   * frame: its row breaks and its width * height cells, each with its glyph
   * and exact colour.
   */
  lemma ParseAsciiString(chars: seq<char>, data: seq<byte>, width: nat, height: nat)
    ensures ParseTokens(AsciiString(chars, data, width, height)) == Some(Transcode(chars, data, width, height))
  {
    TranscoderLemmas.AsciiStringIsRender(chars, data, width, height);
    ParseRender(Transcode(chars, data, width, height));
  }

  /** Two frames whose strings are equal have equal token sequences. */
  lemma RenderInjective(a: seq<Token>, b: seq<Token>)
    requires Render(a) == Render(b)
    ensures a == b
  {
    ParseRender(a);
    ParseRender(b);
  }
}
