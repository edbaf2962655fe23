# HomeComponent frame transcoder and stream start, in Dafny

This project models the core of the Angular client of IEvangelist.SignalR.Streaming:
the `HomeComponent` class in
`IEvangelist.SignalR.Streaming/ClientApp/src/app/home/home.component.ts`. The model covers:

- **Palette** (`palette.dfy`): the 95-entry glyph table the constructor builds, and
  the index rule of `getChar`.
- **Decimal** (`decimal.dfy`): how `rgb.join(',')` writes a channel as decimal
  text, and reading that text back.
- **Transcoder** (`transcoder.dfy`): `getRGB`, the brightness `val`, `getChar`, and
  the string `getAsciiString` builds.
  - The output is defined twice: as a sequence of tokens (a row break, or a
    cell with an exact colour and a glyph) and as the text those tokens render to.
  - `AsciiPrefix` is the string after the first k loop iterations. `AsciiString` is
    the whole result.
- **TranscoderLemmas** (`transcoder_lemmas.dfy`) proves what that output is:
  - exactly `width * height` cells, in pixel order, each with its pixel's
    unquantised colour;
  - for a non-zero width, one row break before each row and none elsewhere;
  - the string is the rendering of the tokens;
  - for a non-zero width, the string holds one line break per row plus one per
    cell whose glyph is the line-break character, and a non-empty frame's
    string starts with a line break;
  - worked frames.
- **Markup** (`markup.dfy`): a decoder for the generated markup. It is the partner of
  the renderer: decoding the string `getAsciiString` returns gives back exactly
  the tokens, so the string carries every cell unambiguously.
- **Home** (`home.dfy`): the component as a class.
  - `HomeComponent.GetAsciiString` is the source's loop, over an array, proved to
    return `AsciiString`.
  - `HomeComponent.StartStream` holds the field updates of `startStream()`:
    - the handshake happens only from the disconnected state;
    - the previous interval is cleared;
    - the subject is created once;
    - a new interval is armed;
    - `'startStream'` is sent.
  - The SignalR `HubConnection` and the host's `setInterval` / `clearInterval` are
    small classes that record what is asked of them. Whether the handshake and the
    send succeed is a parameter.
  - Three scenario methods exercise `startStream` twice, across a dropped
    connection, and with a failed handshake.

Modelling choices:

- **Integer arithmetic for `getChar`.** `getChar` computes `parseInt(((m / 255) * 94).toString(), 10)` in floating point, where `m` is the pixel's largest channel. The model uses the exact integer `m * 94 / 255`.
  - `Palette.ScaledLevelWhole` shows why the two agree: the exact product is a whole number only for `m = 0` and `m = 255`. For every other `m`, its fractional part is at least 1/255, far above the rounding error.
- **Typed-array reads past the end** give `undefined` (`Channel.Undefined`). Then:
  - `join` writes nothing for that channel;
  - `Math.max` gives NaN;
  - `getChar` gives the glyph text `undefined`.
  - No precondition ties the buffer length to `width * height`; the source has none.
- **`i % width === 0` with `width` equal to 0** is NaN in JavaScript and equals nothing. `Transcoder.RowStart` is false there. The loop never runs for a zero width, so this matters only to the specification functions, which are total.
- **`width` and `height` are `nat`.** A canvas size is a non-negative integer.

Properties of the code worth noting:

- **Pure blue gets the brightest glyph.** Its largest channel is 255, so it
  selects glyph index 94. `TranscoderLemmas.TwoByTwoFrame` proves that black,
  white, (128, 0, 0) and pure blue give glyph indices `[0, 94, 47, 94]`.
- **The palette holds control characters.** Its entries are the character codes
  0 to 94, so entry 10 is the line break.
  - Largest channels 28 and 29 both draw it.
  - `TranscoderLemmas.LineBreakGlyph` shows a one-row frame whose text holds two
    line breaks.
  - `TranscoderLemmas.AsciiStringNewlines` counts line breaks in general: one
    per row plus one per such cell.
- **The subject is created once.** `if (!this.subject)` keeps the first subject
  across reconnects. `Home.RestartAfterClose` proves that the first subject is
  announced again after the connection drops.
- **The interval is armed before the send completes.** Line 80 arms it before
  line 81 awaits `send`. `Home.HomeComponent.StartStream` keeps that order, so a
  rejected send leaves the new interval armed.
- **The glyph index needs no clamp.** The palette is indexed directly, and the
  index is proved to be at most 94 for any channel value. A NaN level reads
  `undefined`.

## Model

| member | source | states |
|---|---|---|
| Palette.AsciiChars | IEvangelist.SignalR.Streaming/ClientApp/src/app/home/home.component.ts:31-32 | the palette has 95 entries and entry k is the character with code k |
| Palette.AsciiCharsIndexOf | IEvangelist.SignalR.Streaming/ClientApp/src/app/home/home.component.ts:31-32 | every palette glyph sits at the index equal to its own code |
| Palette.AsciiCharsInjective | IEvangelist.SignalR.Streaming/ClientApp/src/app/home/home.component.ts:31-32 | no glyph repeats, so a glyph determines its index |
| Palette.GlyphIndex | IEvangelist.SignalR.Streaming/ClientApp/src/app/home/home.component.ts:112-114 | the index for largest channel m is floor(m * 94 / 255): a valid palette index, 0 for m = 0 and 94 for m = 255 |
| Palette.GlyphIndexMonotone | IEvangelist.SignalR.Streaming/ClientApp/src/app/home/home.component.ts:112-114 | a brighter largest channel never selects a lower index |
| Palette.ScaledLevelWhole | IEvangelist.SignalR.Streaming/ClientApp/src/app/home/home.component.ts:101-113 | (m / 255) * 94 is whole exactly when m is 0 or 255, so truncating the floating-point value equals the integer index |
| Decimal.Digits | IEvangelist.SignalR.Streaming/ClientApp/src/app/home/home.component.ts:102 | a channel's text in `join` is non-empty decimal digits, with a leading zero only for 0, and one digit exactly below 10 |
| Decimal.ValueOfDigits | IEvangelist.SignalR.Streaming/ClientApp/src/app/home/home.component.ts:102 | reading a channel's decimal text back gives the channel |
| Decimal.DigitsInjective | IEvangelist.SignalR.Streaming/ClientApp/src/app/home/home.component.ts:102 | two channels with the same text are equal |
| TranscoderLemmas.GetRGBInBounds | IEvangelist.SignalR.Streaming/ClientApp/src/app/home/home.component.ts:108-110 | inside the buffer getRGB returns the bytes at 4i, 4i+1 and 4i+2 |
| TranscoderLemmas.GetRGBIgnoresAlpha | IEvangelist.SignalR.Streaming/ClientApp/src/app/home/home.component.ts:108-110 | changing the alpha byte 4i+3 does not change getRGB of pixel i |
| TranscoderLemmas.GetRGBFrame | IEvangelist.SignalR.Streaming/ClientApp/src/app/home/home.component.ts:108-110 | getRGB of pixel i depends only on offsets 4i to 4i+2 |
| TranscoderLemmas.PixelGlyph | IEvangelist.SignalR.Streaming/ClientApp/src/app/home/home.component.ts:100-114 | with the component's palette an in-bounds pixel gets a glyph whose code is GlyphIndex of its largest channel, at most 94 |
| TranscoderLemmas.Max3IsMax | IEvangelist.SignalR.Streaming/ClientApp/src/app/home/home.component.ts:101 | the brightness channel is the largest of r, g and b and is one of them |
| TranscoderLemmas.GlyphUsesMaxChannel | IEvangelist.SignalR.Streaming/ClientApp/src/app/home/home.component.ts:101 | the glyph depends on the largest channel only: pure blue matches white and rotating the channels changes nothing |
| TranscoderLemmas.GlyphOfMissingPixel | IEvangelist.SignalR.Streaming/ClientApp/src/app/home/home.component.ts:108-114 | a pixel whose colour bytes run past the buffer gets the glyph `undefined` |
| TranscoderLemmas.CellsOfPrefix | IEvangelist.SignalR.Streaming/ClientApp/src/app/home/home.component.ts:98-103 | the first k iterations emit exactly k cells, cell j being pixel j |
| TranscoderLemmas.StepCells | IEvangelist.SignalR.Streaming/ClientApp/src/app/home/home.component.ts:99-102 | each iteration emits exactly one cell, that of its own pixel |
| TranscoderLemmas.TranscodeCells | IEvangelist.SignalR.Streaming/ClientApp/src/app/home/home.component.ts:96-106 | the output holds width * height cells in pixel order, each with its pixel's exact colour |
| TranscoderLemmas.StepAtColumn | IEvangelist.SignalR.Streaming/ClientApp/src/app/home/home.component.ts:99 | the iteration for column c emits a row break exactly when c is 0 |
| TranscoderLemmas.PrefixAtRow | IEvangelist.SignalR.Streaming/ClientApp/src/app/home/home.component.ts:98-103 | after r full rows the output is r times a row break followed by that row's cells |
| TranscoderLemmas.PrefixWithinRow | IEvangelist.SignalR.Streaming/ClientApp/src/app/home/home.component.ts:98-103 | part-way through row r the output is the earlier rows, a row break and the row's first c cells |
| TranscoderLemmas.TranscodeByRows | IEvangelist.SignalR.Streaming/ClientApp/src/app/home/home.component.ts:96-106 | for a non-zero width the output is, row by row, a row break followed by width cells, the first row included |
| TranscoderLemmas.BreakCountOfRows | IEvangelist.SignalR.Streaming/ClientApp/src/app/home/home.component.ts:98-103 | r rows hold r row breaks and r * (width + 1) tokens |
| TranscoderLemmas.TranscodeBreakCount | IEvangelist.SignalR.Streaming/ClientApp/src/app/home/home.component.ts:96-106 | for a non-zero width the output holds exactly height row breaks |
| TranscoderLemmas.TranscodeBreaks | IEvangelist.SignalR.Streaming/ClientApp/src/app/home/home.component.ts:96-106 | for a non-zero width the output has width * height + height tokens and, when not empty, starts with a row break |
| TranscoderLemmas.FirstRowBreak | IEvangelist.SignalR.Streaming/ClientApp/src/app/home/home.component.ts:99 | a non-empty run of rows starts with a row break |
| TranscoderLemmas.TranscodeEmpty | IEvangelist.SignalR.Streaming/ClientApp/src/app/home/home.component.ts:97-98 | a frame of zero width or zero height gives no tokens and the empty string |
| TranscoderLemmas.RenderAppend | IEvangelist.SignalR.Streaming/ClientApp/src/app/home/home.component.ts:102 | the text of two token runs one after the other is their texts concatenated |
| TranscoderLemmas.RenderStep | IEvangelist.SignalR.Streaming/ClientApp/src/app/home/home.component.ts:99-102 | the text of one iteration is its line break (when it starts a row) followed by its cell markup |
| TranscoderLemmas.RenderPrefixStep | IEvangelist.SignalR.Streaming/ClientApp/src/app/home/home.component.ts:98-103 | the text after iteration i is the text before it followed by iteration i's text |
| TranscoderLemmas.AsciiPrefixNext | IEvangelist.SignalR.Streaming/ClientApp/src/app/home/home.component.ts:99-102 | one pass of the loop body, built from getRGB, val and getChar, turns the string of i iterations into the string of i + 1 |
| TranscoderLemmas.AsciiPrefixIsRender | IEvangelist.SignalR.Streaming/ClientApp/src/app/home/home.component.ts:97-103 | after any number of iterations `str` is the rendering of the tokens emitted so far |
| TranscoderLemmas.AsciiStringIsRender | IEvangelist.SignalR.Streaming/ClientApp/src/app/home/home.component.ts:96-106 | getAsciiString's result is the rendering of the transcoded frame |
| TranscoderLemmas.NoNewlineInChannel | IEvangelist.SignalR.Streaming/ClientApp/src/app/home/home.component.ts:102 | a channel's text contains no line break |
| TranscoderLemmas.NoNewlineBeforeGlyph | IEvangelist.SignalR.Streaming/ClientApp/src/app/home/home.component.ts:102 | the cell markup before the glyph contains no line break |
| TranscoderLemmas.GlyphNewlines | IEvangelist.SignalR.Streaming/ClientApp/src/app/home/home.component.ts:102 | a glyph's text contains a line break exactly when the glyph is the line-break character |
| TranscoderLemmas.CellMarkupNewlines | IEvangelist.SignalR.Streaming/ClientApp/src/app/home/home.component.ts:102 | a cell's markup holds one line break if its glyph is the line-break character and none otherwise |
| TranscoderLemmas.NewlinesInRender | IEvangelist.SignalR.Streaming/ClientApp/src/app/home/home.component.ts:97-103 | the line breaks of the text are the row breaks plus the cells whose glyph is the line-break character |
| TranscoderLemmas.GlyphsFromPalette | IEvangelist.SignalR.Streaming/ClientApp/src/app/home/home.component.ts:100-102 | no cell carries a character that is not in the palette |
| TranscoderLemmas.AsciiStringNewlines | IEvangelist.SignalR.Streaming/ClientApp/src/app/home/home.component.ts:96-106 | for a non-zero width and any palette, the string holds height line breaks plus one for each cell whose glyph is the line-break character |
| TranscoderLemmas.PlainPaletteNewlines | IEvangelist.SignalR.Streaming/ClientApp/src/app/home/home.component.ts:96-106 | with a palette lacking the line-break character, exactly height line breaks |
| TranscoderLemmas.AsciiStringLeadingBreak | IEvangelist.SignalR.Streaming/ClientApp/src/app/home/home.component.ts:98-99 | a non-empty frame's string starts with a line break, before the first row |
| TranscoderLemmas.FourPixelCells | IEvangelist.SignalR.Streaming/ClientApp/src/app/home/home.component.ts:100-114 | black, white, (128,0,0) and pure blue get glyph codes 0, 94, 47 and 94 with their exact colours |
| TranscoderLemmas.TwoByTwoFrame | IEvangelist.SignalR.Streaming/ClientApp/src/app/home/home.component.ts:96-106 | the 2x2 frame of those pixels is a row break, two cells, a row break, two cells |
| TranscoderLemmas.DarkRedCell | IEvangelist.SignalR.Streaming/ClientApp/src/app/home/home.component.ts:31-32 | a pixel whose largest channel is 28 selects palette entry 10, the line-break character |
| TranscoderLemmas.DarkRedMarkup | IEvangelist.SignalR.Streaming/ClientApp/src/app/home/home.component.ts:102 | that pixel's markup writes its colour as 28,0,0 and its glyph as a bare line break |
| TranscoderLemmas.DarkRedTokens | IEvangelist.SignalR.Streaming/ClientApp/src/app/home/home.component.ts:96-106 | the one-pixel frame of that pixel is a row break followed by the line-break cell |
| TranscoderLemmas.DarkRedText | IEvangelist.SignalR.Streaming/ClientApp/src/app/home/home.component.ts:96-106 | its string is a line break followed by that cell's markup |
| TranscoderLemmas.LineBreakGlyph | IEvangelist.SignalR.Streaming/ClientApp/src/app/home/home.component.ts:96-114 | that one-row string holds two line breaks |
| Markup.ParseChannelOf | IEvangelist.SignalR.Streaming/ClientApp/src/app/home/home.component.ts:102 | decoding a channel's text followed by a non-digit gives back the channel, `undefined` included |
| Markup.ParseGlyphOf | IEvangelist.SignalR.Streaming/ClientApp/src/app/home/home.component.ts:102 | decoding a glyph's text before the closing tag gives back the glyph, `undefined` included |
| Markup.ParseCellOf | IEvangelist.SignalR.Streaming/ClientApp/src/app/home/home.component.ts:102 | decoding a cell's markup gives back its exact colour and glyph and the rest of the input |
| Markup.ParseRender | IEvangelist.SignalR.Streaming/ClientApp/src/app/home/home.component.ts:97-103 | decoding the text of any token sequence gives back that sequence |
| Markup.ParseAsciiString | IEvangelist.SignalR.Streaming/ClientApp/src/app/home/home.component.ts:96-106 | decoding getAsciiString's result gives back exactly the transcoded frame |
| Markup.RenderInjective | IEvangelist.SignalR.Streaming/ClientApp/src/app/home/home.component.ts:102 | two token sequences with the same text are equal |
| Home.HubConnection.constructor | IEvangelist.SignalR.Streaming/ClientApp/src/app/home/home.component.ts:25-29 | a built connection is disconnected, with no handshake and nothing sent |
| Home.HubConnection.Start | IEvangelist.SignalR.Streaming/ClientApp/src/app/home/home.component.ts:69 | start() counts one handshake and leaves the connection connected exactly when the handshake succeeds |
| Home.HubConnection.Send | IEvangelist.SignalR.Streaming/ClientApp/src/app/home/home.component.ts:81 | send appends its invocation and changes nothing else |
| Home.HubConnection.Close | IEvangelist.SignalR.Streaming/ClientApp/src/app/home/home.component.ts:68 | the transport dropping the connection makes it disconnected and changes nothing else |
| Home.IntervalTimers.constructor | IEvangelist.SignalR.Streaming/ClientApp/src/app/home/home.component.ts:72-80 | no interval is armed at first |
| Home.IntervalTimers.SetInterval | IEvangelist.SignalR.Streaming/ClientApp/src/app/home/home.component.ts:80 | setInterval arms exactly one new interval under a handle never used before |
| Home.IntervalTimers.ClearInterval | IEvangelist.SignalR.Streaming/ClientApp/src/app/home/home.component.ts:73 | clearInterval disarms that handle only, and ignores a handle that is not armed |
| Home.HomeComponent.constructor | IEvangelist.SignalR.Streaming/ClientApp/src/app/home/home.component.ts:24-33 | a new component has a fresh disconnected connection, the 95-entry palette, no interval and no subject |
| Home.HomeComponent.StartStream | IEvangelist.SignalR.Streaming/ClientApp/src/app/home/home.component.ts:67-82 | a handshake only from the disconnected state; on a failed handshake nothing else changes; otherwise the old interval is cleared, exactly one new one is armed and held in `timeout`, the subject is kept or created once, and 'startStream' is sent with it; the promise rejects exactly when the handshake or the send fails |
| Home.HomeComponent.GetAsciiString | IEvangelist.SignalR.Streaming/ClientApp/src/app/home/home.component.ts:96-106 | the loop returns AsciiString of the palette and the buffer |
| Home.StartTwice | IEvangelist.SignalR.Streaming/ClientApp/src/app/home/home.component.ts:67-82 | two calls in a row: one handshake, one armed interval, the same subject, 'startStream' sent twice |
| Home.RestartAfterClose | IEvangelist.SignalR.Streaming/ClientApp/src/app/home/home.component.ts:67-82 | after the connection drops, a second call runs the handshake again and announces the first subject again |
| Home.FailedHandshake | IEvangelist.SignalR.Streaming/ClientApp/src/app/home/home.component.ts:67-82 | a failed handshake arms nothing, sends nothing and creates no subject |

## Left out

- `ngAfterViewInit` and `getMediaStreamPromise` (lines 35-65) are left out. They look up DOM elements and ask the browser for a camera, which this model has no counterpart for.
- `tryDrawFrame` (lines 84-94) is left out: drawing to the canvas, reading the pixel buffer, `renderer.setProperty` and `subject.next`. The buffer, width and height are parameters of `GetAsciiString` instead. Two things in it go unmodelled:
  - Line 80 passes `this.tryDrawFrame` without binding `this`.
  - Line 91 sets the property `innerHtml`.
- The asynchrony of `startStream` is left out. The model's `await` points run to completion in order: the outcome of `start()` and `send()` is a boolean parameter, and the promise's settling is the `StartOutcome` result. Concurrent calls of `startStream` are not modelled.
- The 1000/30 ms cadence of the interval is left out. Timers are modelled as the set of armed handles.
- The handle type `NodeJS.Timeout` is modelled as `Home.Handle`, a positive integer, because hosts hand out positive handles. A stored handle is therefore always truthy, and `if (this.timeout)` becomes `timeout.Some?`.
- `Home.HubConnection.Send`: a rejected send still records the invocation, because the client hands it to the transport before the rejection is known.
- Floating point in `val` and `getChar` is replaced by integer arithmetic. `Palette.ScaledLevelWhole` carries the argument that the two agree; IEEE rounding itself is not modelled.
- The markup is not HTML-escaped. The model says what the code writes, so a glyph such as `<` or `&` is emitted as is. How a browser interprets the text is not modelled.
- Stopping the stream, reconnect backoff and announcing a stream once per connection are left out. The code has no counterpart for any of them.
- The SignalR `Subject` is an opaque object, and the items pushed into it are not modelled.
