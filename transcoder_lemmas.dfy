/**
 * What getAsciiString's output is: the structure of the token sequence (cell
 * count and order, exact colours, row breaks) and of the text it renders to.
 */
module TranscoderLemmas {
  import opened Wrappers
  import Palette
  import Decimal
  import opened Transcoder

  // ---------------------------------------------------------------------
  // getRGB and getChar

  /** Inside the buffer getRGB returns the three colour bytes of pixel i. */
  lemma GetRGBInBounds(data: seq<byte>, i: nat)
    requires 4 * i + 2 < |data|
    ensures GetRGB(data, i) == Rgb(Defined(data[4 * i]), Defined(data[4 * i + 1]), Defined(data[4 * i + 2]))
  {
  }

  /** getRGB never reads the alpha byte: changing it changes nothing. */
  lemma GetRGBIgnoresAlpha(data: seq<byte>, i: nat, alpha: byte)
    requires 4 * i + 3 < |data|
    ensures GetRGB(data[4 * i + 3 := alpha], i) == GetRGB(data, i)
  {
  }

  /** getRGB reads only offsets 4i, 4i+1 and 4i+2 of the buffer. */
  lemma GetRGBFrame(d1: seq<byte>, d2: seq<byte>, i: nat)
    requires forall j :: 4 * i <= j < 4 * i + 3 ==> At(d1, j) == At(d2, j)
    ensures GetRGB(d1, i) == GetRGB(d2, i)
  {
    assert At(d1, 4 * i) == At(d2, 4 * i);
    assert At(d1, 4 * i + 1) == At(d2, 4 * i + 1);
    assert At(d1, 4 * i + 2) == At(d2, 4 * i + 2);
  }

  /**
   * With the component's palette, an in-bounds pixel gets the glyph whose code
   * is GlyphIndex of its largest channel: a code in 0..94.
   */
  lemma PixelGlyph(data: seq<byte>, i: nat)
    requires 4 * i + 2 < |data|
    ensures var m := Max3(data[4 * i], data[4 * i + 1], data[4 * i + 2]);
            && PixelCell(Palette.AsciiChars(), data, i).glyph.Some?
            && PixelCell(Palette.AsciiChars(), data, i).glyph.value as int == Palette.GlyphIndex(m)
            && (PixelCell(Palette.AsciiChars(), data, i).glyph.value as int) <= Palette.Top
  {
    var m := Max3(data[4 * i], data[4 * i + 1], data[4 * i + 2]);
    assert Brightness(GetRGB(data, i)) == Level(m);
  }

  /** Max3 is the largest of the three channels. */
  lemma Max3IsMax(a: byte, b: byte, c: byte)
    ensures var m := Max3(a, b, c); m >= a && m >= b && m >= c && (m == a || m == b || m == c)
  {
  }

  /**
   * The glyph depends on the largest channel alone, not on a weighted mean:
   * pure blue selects the same glyph as white, and any order of the channels
   * selects the same glyph.
   */
  lemma GlyphUsesMaxChannel(chars: seq<char>, r: byte, g: byte, b: byte)
    ensures GetChar(chars, Brightness(Rgb(Defined(0), Defined(0), Defined(255))))
         == GetChar(chars, Brightness(Rgb(Defined(255), Defined(255), Defined(255))))
    ensures GetChar(chars, Brightness(Rgb(Defined(r), Defined(g), Defined(b))))
         == GetChar(chars, Brightness(Rgb(Defined(b), Defined(r), Defined(g))))
    ensures GetChar(chars, Brightness(Rgb(Defined(r), Defined(g), Defined(b))))
         == GetChar(chars, Brightness(Rgb(Defined(g), Defined(b), Defined(r))))
  {
  }

  /** A pixel past the end of the buffer renders NaN and so the glyph `undefined`. */
  lemma GlyphOfMissingPixel(chars: seq<char>, data: seq<byte>, i: nat)
    requires |data| <= 4 * i + 2
    ensures PixelCell(chars, data, i).glyph == None
  {
  }

  // ---------------------------------------------------------------------
  // Token structure

  lemma {:induction false} CellsAppend(a: seq<Token>, b: seq<Token>)
    ensures Cells(a + b) == Cells(a) + Cells(b)
  {
    if a != [] {
      assert (a + b)[1..] == a[1..] + b;
      CellsAppend(a[1..], b);
    } else {
      assert a + b == b;
    }
  }

  lemma {:induction false} BreakCountAppend(a: seq<Token>, b: seq<Token>)
    ensures BreakCount(a + b) == BreakCount(a) + BreakCount(b)
  {
    if a != [] {
      assert (a + b)[1..] == a[1..] + b;
      BreakCountAppend(a[1..], b);
    } else {
      assert a + b == b;
    }
  }

  /** The first k iterations emit exactly the cells of pixels 0 .. k-1, in that order. */
  lemma {:induction false} CellsOfPrefix(chars: seq<char>, data: seq<byte>, width: nat, k: nat)
    ensures |Cells(TokenPrefix(chars, data, width, k))| == k
    ensures forall i :: 0 <= i < k ==> Cells(TokenPrefix(chars, data, width, k))[i] == PixelCell(chars, data, i)
  {
    if k > 0 {
      var i := k - 1;
      CellsOfPrefix(chars, data, width, i);
      var before := TokenPrefix(chars, data, width, i);
      var step := StepTokens(chars, data, width, i);
      PrefixUnfold(chars, data, width, k);
      CellsAppend(before, step);
      StepCells(chars, data, width, i);
      assert Cells(TokenPrefix(chars, data, width, k)) == Cells(before) + [PixelCell(chars, data, i)];
    }
  }

  /** Iteration i contributes exactly one cell, that of pixel i. */
  lemma StepCells(chars: seq<char>, data: seq<byte>, width: nat, i: nat)
    ensures Cells(StepTokens(chars, data, width, i)) == [PixelCell(chars, data, i)]
  {
    var cell := PixelCell(chars, data, i);
    var head: seq<Token> := if RowStart(width, i) then [RowBreak] else [];
    CellsAppend(head, [cell]);
    assert Cells(head) == [] by {
      assert Cells([RowBreak]) == [] + Cells([]);
    }
    assert Cells([cell]) == [cell] + Cells([]);
  }

  /**
   * The output holds exactly width * height cells, cell i being pixel i with
   * its exact, unquantised colour.
   */
  lemma TranscodeCells(chars: seq<char>, data: seq<byte>, width: nat, height: nat)
    ensures |Cells(Transcode(chars, data, width, height))| == width * height
    ensures forall i :: 0 <= i < width * height ==>
              Cells(Transcode(chars, data, width, height))[i] == PixelCell(chars, data, i)
              && Cells(Transcode(chars, data, width, height))[i].rgb == GetRGB(data, i)
  {
    CellsOfPrefix(chars, data, width, PixelCount(width, height));
  }

  lemma MulAtLeast(d: int, w: int)
    requires d >= 1 && w > 0
    ensures d * w >= w
  {
  }

  /** A frame that has a pixel i has a non-zero width. */
  lemma PixelWidth(width: nat, height: nat, i: nat)
    requires i < PixelCount(width, height)
    ensures width > 0
  {
  }

  /** Pixel r * width + c lies in column c. */
  lemma RowColumn(r: nat, width: nat, c: nat)
    requires c < width
    ensures (r * width + c) % width == c
  {
    var a := r * width + c;
    var q, m := a / width, a % width;
    assert a == q * width + m;
    var d := r - q;
    assert d * width == m - c;
    if d > 0 {
      MulAtLeast(d, width);
      assert false;
    }
    if d < 0 {
      MulAtLeast(-d, width);
      assert false;
    }
  }

  lemma {:induction false} PrefixAtRow(chars: seq<char>, data: seq<byte>, width: nat, r: nat)
    requires width > 0
    ensures TokenPrefix(chars, data, width, r * width) == Rows(chars, data, width, r)
    decreases r, 0
  {
    if r > 0 {
      PrefixWithinRow(chars, data, width, r - 1, width);
      assert (r - 1) * width + width == r * width;
      assert RowCells(chars, data, width, r - 1)[..width] == RowCells(chars, data, width, r - 1);
    }
  }

  lemma {:induction false} PrefixWithinRow(chars: seq<char>, data: seq<byte>, width: nat, r: nat, c: nat)
    requires 0 < c <= width
    ensures TokenPrefix(chars, data, width, r * width + c)
         == Rows(chars, data, width, r) + [RowBreak] + RowCells(chars, data, width, r)[..c]
    decreases r, c
  {
    var row := RowCells(chars, data, width, r);
    var k := r * width + c;
    var i := k - 1;
    assert i == r * width + (c - 1);
    var cell := PixelCell(chars, data, i);
    assert row[c - 1] == cell;
    PrefixStep(chars, data, width, i, k);
    StepAtColumn(chars, data, width, r, c - 1, i);
    if c == 1 {
      PrefixAtRow(chars, data, width, r);
      assert row[..1] == [cell];
    } else {
      PrefixWithinRow(chars, data, width, r, c - 1);
      assert row[..c] == row[..c - 1] + [cell];
    }
  }

  /** Iteration i of the loop appends StepTokens(..., i) to the output. */
  lemma PrefixStep(chars: seq<char>, data: seq<byte>, width: nat, i: nat, k: nat)
    requires k == i + 1
    ensures TokenPrefix(chars, data, width, k)
         == TokenPrefix(chars, data, width, i) + StepTokens(chars, data, width, i)
  {
    PrefixUnfold(chars, data, width, i + 1);
  }

  lemma PrefixUnfold(chars: seq<char>, data: seq<byte>, width: nat, k: nat)
    requires k > 0
    ensures TokenPrefix(chars, data, width, k)
         == TokenPrefix(chars, data, width, k - 1) + StepTokens(chars, data, width, k - 1)
  {
  }

  /** The iteration for column c of row r emits a row break exactly when c == 0. */
  lemma StepAtColumn(chars: seq<char>, data: seq<byte>, width: nat, r: nat, c: nat, i: nat)
    requires c < width && i == r * width + c
    ensures StepTokens(chars, data, width, i) == (if c == 0 then [RowBreak] else []) + [PixelCell(chars, data, i)]
  {
    RowColumn(r, width, c);
  }

  /**
   * For a non-zero width the loop's output is, row after row, a row break
   * followed by that row's width cells: the break comes before every pixel
   * whose index is a multiple of the width, the first pixel included.
   */
  lemma TranscodeByRows(chars: seq<char>, data: seq<byte>, width: nat, height: nat)
    requires width > 0
    ensures Transcode(chars, data, width, height) == Rows(chars, data, width, height)
  {
    PrefixAtRow(chars, data, width, height);
    assert height * width == width * height;
  }

  lemma {:induction false} BreakCountOfRows(chars: seq<char>, data: seq<byte>, width: nat, r: nat)
    ensures BreakCount(Rows(chars, data, width, r)) == r
    ensures |Rows(chars, data, width, r)| == r * (width + 1)
  {
    if r > 0 {
      var before := Rows(chars, data, width, r - 1);
      var row := RowCells(chars, data, width, r - 1);
      assert Rows(chars, data, width, r) == before + [RowBreak] + row;
      assert forall j :: 0 <= j < |row| ==> row[j] == PixelCell(chars, data, (r - 1) * width + j);
      BreakCountOfRows(chars, data, width, r - 1);
      BreakCountAppend(before + [RowBreak], row);
      BreakCountAppend(before, [RowBreak]);
      assert BreakCount([RowBreak]) == 1 + BreakCount([]);
      NoBreaksInRow(row);
      assert (r - 1) * (width + 1) + 1 + width == r * (width + 1);
    }
  }

  lemma {:induction false} NoBreaksInRow(ts: seq<Token>)
    requires forall j :: 0 <= j < |ts| ==> ts[j].Cell?
    ensures BreakCount(ts) == 0
  {
    if ts != [] {
      NoBreaksInRow(ts[1..]);
    }
  }

  /** For a non-zero width the output has exactly `height` row breaks. */
  lemma TranscodeBreakCount(chars: seq<char>, data: seq<byte>, width: nat, height: nat)
    requires width > 0
    ensures BreakCount(Transcode(chars, data, width, height)) == height
  {
    TranscodeByRows(chars, data, width, height);
    BreakCountOfRows(chars, data, width, height);
  }

  /**
   * For a non-zero width the output is width * height cells and `height` row
   * breaks, and when it is not empty it starts with a row break.
   */
  lemma TranscodeBreaks(chars: seq<char>, data: seq<byte>, width: nat, height: nat)
    requires width > 0
    ensures |Transcode(chars, data, width, height)| == width * height + height
    ensures height > 0 ==> Transcode(chars, data, width, height)[0] == RowBreak
  {
    TranscodeByRows(chars, data, width, height);
    BreakCountOfRows(chars, data, width, height);
    assert height * (width + 1) == width * height + height;
    if height > 0 {
      FirstRowBreak(chars, data, width, height);
    }
  }

  lemma {:induction false} FirstRowBreak(chars: seq<char>, data: seq<byte>, width: nat, r: nat)
    requires r > 0
    ensures |Rows(chars, data, width, r)| > 0 && Rows(chars, data, width, r)[0] == RowBreak
  {
    if r > 1 {
      FirstRowBreak(chars, data, width, r - 1);
    }
  }

  /** An empty frame (zero width or zero height) makes neither tokens nor text. */
  lemma TranscodeEmpty(chars: seq<char>, data: seq<byte>, width: nat, height: nat)
    requires width * height == 0
    ensures Transcode(chars, data, width, height) == []
    ensures AsciiString(chars, data, width, height) == ""
  {
    assert AsciiString(chars, data, width, height) == AsciiPrefix(chars, data, width, 0);
  }

  // ---------------------------------------------------------------------
  // Text

  lemma {:induction false} RenderAppend(a: seq<Token>, b: seq<Token>)
    ensures Render(a + b) == Render(a) + Render(b)
  {
    if a != [] {
      assert (a + b)[0] == a[0] && (a + b)[1..] == a[1..] + b;
      RenderAppend(a[1..], b);
      calc {
        Render(a + b);
        TokenText(a[0]) + Render(a[1..] + b);
        TokenText(a[0]) + (Render(a[1..]) + Render(b));
        (TokenText(a[0]) + Render(a[1..])) + Render(b);
      }
    } else {
      assert a + b == b;
    }
  }

  /** The text of one loop iteration: a line break when it starts a row, then the cell markup. */
  lemma RenderStep(chars: seq<char>, data: seq<byte>, width: nat, i: nat)
    ensures Render(StepTokens(chars, data, width, i)) == BreakText(width, i) + TokenText(PixelCell(chars, data, i))
  {
    var cell := PixelCell(chars, data, i);
    if RowStart(width, i) {
      assert StepTokens(chars, data, width, i)[1..] == [cell];
    } else {
      assert StepTokens(chars, data, width, i) == [cell];
    }
    assert Render([cell]) == TokenText(cell) + Render([]);
  }

  /** The text after iteration i is the text before it followed by the text of iteration i. */
  lemma RenderPrefixStep(chars: seq<char>, data: seq<byte>, width: nat, i: nat, k: nat)
    requires k == i + 1
    ensures Render(TokenPrefix(chars, data, width, k))
         == Render(TokenPrefix(chars, data, width, i)) + BreakText(width, i) + TokenText(PixelCell(chars, data, i))
  {
    PrefixStep(chars, data, width, i, k);
    RenderStep(chars, data, width, i);
    RenderSnoc(TokenPrefix(chars, data, width, i), StepTokens(chars, data, width, i),
               BreakText(width, i), TokenText(PixelCell(chars, data, i)));
  }

  /** Appending tokens whose text is x + y appends x + y to the text. */
  lemma RenderSnoc(before: seq<Token>, step: seq<Token>, x: string, y: string)
    requires Render(step) == x + y
    ensures Render(before + step) == Render(before) + x + y
  {
    RenderAppend(before, step);
    StringAssoc(Render(before), x, y);
  }

  lemma StringAssoc(a: string, b: string, c: string)
    ensures a + b + c == a + (b + c)
  {
  }

  /** The string the loop builds is the text of the token sequence it stands for. */
  lemma {:induction false} AsciiPrefixIsRender(chars: seq<char>, data: seq<byte>, width: nat, k: nat)
    ensures AsciiPrefix(chars, data, width, k) == Render(TokenPrefix(chars, data, width, k))
    decreases k
  {
    if k > 0 {
      var i := k - 1;
      var x, y := BreakText(width, i), TokenText(PixelCell(chars, data, i));
      AsciiPrefixStep(chars, data, width, i, k);
      AsciiPrefixIsRender(chars, data, width, i);
      RenderPrefixStep(chars, data, width, i, k);
      SameSteps(AsciiPrefix(chars, data, width, k), Render(TokenPrefix(chars, data, width, k)),
                AsciiPrefix(chars, data, width, i), Render(TokenPrefix(chars, data, width, i)), x, y);
    }
  }

  /** Iteration i of the loop appends its line break and its cell markup to the string. */
  lemma AsciiPrefixStep(chars: seq<char>, data: seq<byte>, width: nat, i: nat, k: nat)
    requires k == i + 1
    ensures AsciiPrefix(chars, data, width, k)
         == AsciiPrefix(chars, data, width, i) + BreakText(width, i) + TokenText(PixelCell(chars, data, i))
  {
    AsciiPrefixUnfold(chars, data, width, i + 1);
  }

  lemma AsciiPrefixUnfold(chars: seq<char>, data: seq<byte>, width: nat, k: nat)
    requires k > 0
    ensures AsciiPrefix(chars, data, width, k)
         == AsciiPrefix(chars, data, width, k - 1) + BreakText(width, k - 1) + TokenText(PixelCell(chars, data, k - 1))
  {
  }

  /**
   * One pass of getAsciiString's loop body: `str`, equal to the text of the
   * first i iterations, gets a line break when i % width == 0 and then the
   * markup of the cell built from getRGB and getChar, which is the text of
   * the first i + 1 iterations.
   */
  lemma AsciiPrefixNext(chars: seq<char>, data: seq<byte>, width: nat, i: nat, before: string, cell: Token, after: string)
    requires width > 0
    requires before == AsciiPrefix(chars, data, width, i)
    requires cell == Cell(GetRGB(data, i), GetChar(chars, Brightness(GetRGB(data, i))))
    requires after == (if i % width == 0 then before + "\n" else before) + TokenText(cell)
    ensures after == AsciiPrefix(chars, data, width, i + 1)
  {
    AsciiPrefixUnfold(chars, data, width, i + 1);
    if i % width != 0 {
      assert before + BreakText(width, i) == before;
    }
  }

  /** Two texts built by appending the same pieces to equal texts are equal. */
  lemma SameSteps(s: string, t: string, sBefore: string, tBefore: string, x: string, y: string)
    requires s == sBefore + x + y && t == tBefore + x + y && sBefore == tBefore
    ensures s == t
  {
  }

  /** getAsciiString's result is the rendering of the transcoded frame. */
  lemma AsciiStringIsRender(chars: seq<char>, data: seq<byte>, width: nat, height: nat)
    ensures AsciiString(chars, data, width, height) == Render(Transcode(chars, data, width, height))
  {
    AsciiPrefixIsRender(chars, data, width, PixelCount(width, height));
  }

  /** Number of cells whose glyph is the character c. */
  function GlyphCount(ts: seq<Token>, c: char): nat {
    if ts == [] then 0 else (if ts[0].Cell? && ts[0].glyph == Some(c) then 1 else 0) + GlyphCount(ts[1..], c)
  }

  lemma {:induction false} CountCharAppend(s: string, t: string, c: char)
    ensures CountChar(s + t, c) == CountChar(s, c) + CountChar(t, c)
  {
    if s != [] {
      assert (s + t)[1..] == s[1..] + t;
      CountCharAppend(s[1..], t, c);
    } else {
      assert s + t == t;
    }
  }

  lemma CountSingle(c: char)
    ensures CountChar([c], c) == 1
  {
    assert CountChar([c], c) == 1 + CountChar([], c);
  }

  lemma {:induction false} CountAbsent(s: string, c: char)
    requires c !in s
    ensures CountChar(s, c) == 0
  {
    if s != [] {
      assert s[0] != c;
      CountAbsent(s[1..], c);
    }
  }

  lemma NoNewlineInChannel(ch: Channel)
    ensures '\n' !in ChannelText(ch)
  {
    if ch.Defined? {
      var s := Decimal.Digits(ch.value);
      assert forall i :: 0 <= i < |s| ==> Decimal.IsDigit(s[i]);
    }
  }

  /** The markup of a cell up to its glyph carries no line break. */
  lemma NoNewlineBeforeGlyph(rgb: Rgb)
    ensures '\n' !in CellOpen + JoinRgb(rgb) + CellMid
  {
    NoNewlineInChannel(rgb.r);
    NoNewlineInChannel(rgb.g);
    NoNewlineInChannel(rgb.b);
    assert '\n' !in CellOpen && '\n' !in CellMid && '\n' !in ",";
  }

  lemma CellMarkupNewlines(rgb: Rgb, g: Option<char>)
    ensures CountChar(TokenText(Cell(rgb, g)), '\n') == if g == Some('\n') then 1 else 0
  {
    var pre := CellOpen + JoinRgb(rgb) + CellMid;
    var glyph := GlyphText(g);
    assert TokenText(Cell(rgb, g)) == pre + glyph + CellClose;
    NoNewlineBeforeGlyph(rgb);
    CountAbsent(pre, '\n');
    assert '\n' !in CellClose;
    CountAbsent(CellClose, '\n');
    GlyphNewlines(g);
    CountCharAppend(pre + glyph, CellClose, '\n');
    CountCharAppend(pre, glyph, '\n');
  }

  /** A glyph's text holds a line break only when the glyph is the line-break character. */
  lemma GlyphNewlines(g: Option<char>)
    ensures CountChar(GlyphText(g), '\n') == if g == Some('\n') then 1 else 0
  {
    if g.None? {
      assert '\n' !in UndefinedText;
      CountAbsent(UndefinedText, '\n');
    } else {
      assert CountChar(GlyphText(g), '\n') == (if g.value == '\n' then 1 else 0) + CountChar([], '\n');
    }
  }

  /**
   * Every line break of the text is a row break, except that a glyph can
   * itself be the line-break character.
   */
  lemma {:induction false} NewlinesInRender(ts: seq<Token>)
    ensures CountChar(Render(ts), '\n') == BreakCount(ts) + GlyphCount(ts, '\n')
  {
    if ts != [] {
      NewlinesInRender(ts[1..]);
      CountCharAppend(TokenText(ts[0]), Render(ts[1..]), '\n');
      match ts[0]
      case RowBreak =>
        assert CountChar("\n", '\n') == 1 + CountChar([], '\n');
      case Cell(rgb, g) =>
        CellMarkupNewlines(rgb, g);
    }
  }

  /** Every glyph of the loop's output is undefined or an entry of the palette. */
  lemma {:induction false} GlyphsFromPalette(chars: seq<char>, data: seq<byte>, width: nat, k: nat, c: char)
    requires c !in chars
    ensures GlyphCount(TokenPrefix(chars, data, width, k), c) == 0
  {
    if k > 0 {
      GlyphsFromPalette(chars, data, width, k - 1, c);
      GlyphCountAppend(TokenPrefix(chars, data, width, k - 1), StepTokens(chars, data, width, k - 1), c);
      var cell := PixelCell(chars, data, k - 1);
      var head: seq<Token> := if RowStart(width, k - 1) then [RowBreak] else [];
      GlyphCountAppend(head, [cell], c);
      assert GlyphCount(head, c) == 0 by {
        assert GlyphCount([RowBreak], c) == 0 + GlyphCount([], c);
      }
      assert cell.glyph != Some(c);
      assert GlyphCount([cell], c) == 0 + GlyphCount([], c);
    }
  }

  lemma {:induction false} GlyphCountAppend(a: seq<Token>, b: seq<Token>, c: char)
    ensures GlyphCount(a + b, c) == GlyphCount(a, c) + GlyphCount(b, c)
  {
    if a != [] {
      assert (a + b)[1..] == a[1..] + b;
      GlyphCountAppend(a[1..], b, c);
    } else {
      assert a + b == b;
    }
  }

  /**
   * For a non-zero width the text holds one line break per row plus one per
   * cell whose glyph is the line-break character (with the component's
   * palette, the cells whose largest channel selects entry 10).
   */
  lemma AsciiStringNewlines(chars: seq<char>, data: seq<byte>, width: nat, height: nat)
    requires width > 0
    ensures CountChar(AsciiString(chars, data, width, height), '\n')
         == height + GlyphCount(Transcode(chars, data, width, height), '\n')
  {
    var ts := Transcode(chars, data, width, height);
    AsciiStringIsRender(chars, data, width, height);
    NewlinesInRender(ts);
    TranscodeBreakCount(chars, data, width, height);
  }

  /** With a palette that lacks the line-break character, the text holds exactly `height` line breaks. */
  lemma PlainPaletteNewlines(chars: seq<char>, data: seq<byte>, width: nat, height: nat)
    requires width > 0
    requires '\n' !in chars
    ensures CountChar(AsciiString(chars, data, width, height), '\n') == height
  {
    AsciiStringNewlines(chars, data, width, height);
    GlyphsFromPalette(chars, data, width, PixelCount(width, height), '\n');
  }

  /** For a non-empty frame the returned string starts with a line break. */
  lemma AsciiStringLeadingBreak(chars: seq<char>, data: seq<byte>, width: nat, height: nat)
    requires width > 0 && height > 0
    ensures |AsciiString(chars, data, width, height)| > 0
    ensures AsciiString(chars, data, width, height)[0] == '\n'
  {
    var ts := Transcode(chars, data, width, height);
    TranscodeBreaks(chars, data, width, height);
    AsciiStringIsRender(chars, data, width, height);
    assert Render(ts) == TokenText(ts[0]) + Render(ts[1..]);
  }

  // ---------------------------------------------------------------------
  // Worked frames

  /** A 2x2 frame of black, white, dark red (128, 0, 0) and pure blue, all opaque. */
  const FourPixels: seq<byte> := [0, 0, 0, 255, 255, 255, 255, 255, 128, 0, 0, 255, 0, 0, 255, 255]

  /** Their cells: the glyph codes are 0, 94, 47 and 94 (blue's largest channel is 255). */
  lemma FourPixelCells()
    ensures PixelCell(Palette.AsciiChars(), FourPixels, 0) == Cell(Rgb(Defined(0), Defined(0), Defined(0)), Some(0 as char))
    ensures PixelCell(Palette.AsciiChars(), FourPixels, 1) == Cell(Rgb(Defined(255), Defined(255), Defined(255)), Some(94 as char))
    ensures PixelCell(Palette.AsciiChars(), FourPixels, 2) == Cell(Rgb(Defined(128), Defined(0), Defined(0)), Some(47 as char))
    ensures PixelCell(Palette.AsciiChars(), FourPixels, 3) == Cell(Rgb(Defined(0), Defined(0), Defined(255)), Some(94 as char))
  {
    assert GetRGB(FourPixels, 0) == Rgb(Defined(0), Defined(0), Defined(0));
    assert GetRGB(FourPixels, 1) == Rgb(Defined(255), Defined(255), Defined(255));
    assert GetRGB(FourPixels, 2) == Rgb(Defined(128), Defined(0), Defined(0));
    assert GetRGB(FourPixels, 3) == Rgb(Defined(0), Defined(0), Defined(255));
    assert Palette.GlyphIndex(128) == 47;
  }

  /** The 2x2 frame: a row break before each row of two cells. */
  lemma TwoByTwoFrame()
    ensures Transcode(Palette.AsciiChars(), FourPixels, 2, 2)
         == [RowBreak,
             Cell(Rgb(Defined(0), Defined(0), Defined(0)), Some(0 as char)),
             Cell(Rgb(Defined(255), Defined(255), Defined(255)), Some(94 as char)),
             RowBreak,
             Cell(Rgb(Defined(128), Defined(0), Defined(0)), Some(47 as char)),
             Cell(Rgb(Defined(0), Defined(0), Defined(255)), Some(94 as char))]
  {
    var chars := Palette.AsciiChars();
    var c0 := PixelCell(chars, FourPixels, 0);
    var c1 := PixelCell(chars, FourPixels, 1);
    var c2 := PixelCell(chars, FourPixels, 2);
    var c3 := PixelCell(chars, FourPixels, 3);
    FourPixelCells();
    TranscodeByRows(chars, FourPixels, 2, 2);
    var row0 := RowCells(chars, FourPixels, 2, 0);
    var row1 := RowCells(chars, FourPixels, 2, 1);
    assert row0 == [c0, c1] by {
      assert row0[0] == c0 && row0[1] == c1;
    }
    assert row1 == [c2, c3] by {
      assert row1[0] == c2 && row1[1] == c3;
    }
    assert Rows(chars, FourPixels, 2, 1) == [] + [RowBreak] + row0;
    assert Rows(chars, FourPixels, 2, 2) == Rows(chars, FourPixels, 2, 1) + [RowBreak] + row1;
  }

  /** The one pixel of the frame in LineBreakGlyph: red 28, opaque. */
  const DarkRed: seq<byte> := [28, 0, 0, 255]

  /** Its cell: largest channel 28 selects palette entry 28 * 94 / 255 = 10, the line break. */
  lemma DarkRedCell()
    ensures PixelCell(Palette.AsciiChars(), DarkRed, 0) == Cell(Rgb(Defined(28), Defined(0), Defined(0)), Some('\n'))
  {
    assert Palette.GlyphIndex(28) == 10;
    assert Palette.AsciiChars()[10] == '\n';
    assert GetRGB(DarkRed, 0) == Rgb(Defined(28), Defined(0), Defined(0));
  }

  /** The markup of that cell: the colour written as 28,0,0 and the glyph as a bare line break. */
  lemma DarkRedMarkup()
    ensures TokenText(Cell(Rgb(Defined(28), Defined(0), Defined(0)), Some('\n')))
         == CellOpen + "28,0,0" + CellMid + "\n" + CellClose
  {
    assert Decimal.Digits(28) == "28";
    assert JoinRgb(Rgb(Defined(28), Defined(0), Defined(0))) == "28,0,0";
  }

  /**
   * Palette entry 10 is the line-break character itself: a pixel whose
   * largest channel is 28 draws a line break as its glyph, so a one-pixel
   * frame of it holds two line breaks although it has one row.
   */
  lemma LineBreakGlyph()
    ensures CountChar(AsciiString(Palette.AsciiChars(), DarkRed, 1, 1), '\n') == 2
  {
    var cell := Cell(Rgb(Defined(28), Defined(0), Defined(0)), Some('\n'));
    DarkRedText();
    CountCharAppend("\n", TokenText(cell), '\n');
    CountSingle('\n');
    CellMarkupNewlines(cell.rgb, cell.glyph);
  }

  /** The tokens of the one-pixel frame: a row break, then the cell with the line-break glyph. */
  lemma DarkRedTokens()
    ensures Transcode(Palette.AsciiChars(), DarkRed, 1, 1)
         == [RowBreak, Cell(Rgb(Defined(28), Defined(0), Defined(0)), Some('\n'))]
  {
    var chars := Palette.AsciiChars();
    var cell := Cell(Rgb(Defined(28), Defined(0), Defined(0)), Some('\n'));
    DarkRedCell();
    assert PixelCount(1, 1) == 1;
    PrefixUnfold(chars, DarkRed, 1, 1);
    var step := StepTokens(chars, DarkRed, 1, 0);
    assert step == [RowBreak] + [cell];
    assert TokenPrefix(chars, DarkRed, 1, 1) == [] + step;
  }

  /** The text of the one-pixel frame. */
  lemma DarkRedText()
    ensures AsciiString(Palette.AsciiChars(), DarkRed, 1, 1)
         == "\n" + TokenText(Cell(Rgb(Defined(28), Defined(0), Defined(0)), Some('\n')))
  {
    var chars := Palette.AsciiChars();
    DarkRedCell();
    assert PixelCount(1, 1) == 1;
    AsciiPrefixUnfold(chars, DarkRed, 1, 1);
  }
}
