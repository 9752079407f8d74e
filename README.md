# fontfor, modelled in Dafny

fontfor finds the installed fonts that contain a given character and previews its
glyph, either in the terminal or in a browser page. This project models the logic of
that program in Dafny and proves properties of the model:

- the parser for the character argument (`U+1F600`, `0x` followed by UTF-8 bytes,
  `0b`/`0o` scalar values, a decimal value, or a literal character), its seven errors
  and the description line it prints;
- the terminal glyph preview:
  - the neighbour-sampling render driver;
  - the mono, ASCII-ramp and moon-phase pixel rules;
  - the `Display` of a render result;
  - unpacking FreeType 1-bit bitmaps;
  - the cache key order;
  - the cursors that enumerate the canvas points to paint;
  - the key dispatch, layout arithmetic and event loop of the TUI;
  - the initial TUI state;
- the font catalogue:
  - grouping faces or fonts into families sorted by name, in three revisions
    (`family.rs`, `font.rs`, `font/from_fc.rs`);
  - the shortlex-ordered family and font pair of `font_info.rs`;
  - language-keyed name maps with their "en, else any" default;
  - the fontconfig property reads;
  - the font orders (lexicographic, and shortlex);
  - the conversions that may fail;
- small decision functions:
  - FreeType status codes;
  - the OpenType `cmap` subtable filter and glyph lookup;
  - the OpenType `name` table full-name pick;
- the browser preview server:
  - HTTP/1.1 response framing (status line and Content-Length, sections 3.1.2 and
    3.3.2 of RFC 7230);
  - the request-classification state machine;
  - the request handler loop;
- the random card colour of the page script.

Each Rust source file is one Dafny module, so several historical revisions of the same
idea sit side by side, each on its own terms. The modules shared between them are:

- `Wrappers`: Option and Result;
- `Utf8`: UTF-8 as in section 3 of RFC 3629, with a round trip;
- `Text`: the lexicographic `str` order, and radix formatting and parsing;
- `ByLang`: `HashMap<&str, Vec<T>>` keyed by language, with its iteration order made
  explicit;
- `FcPattern`: the fontconfig read loops;
- `Grouping` and `Sorting`: HashMap grouping and `sort_by_key`;
- `RowMajor`: the specification of the two canvas cursors.

Where the source mutates state, the model does too:

- `Family` objects are classes whose methods push faces or fonts;
- the canvas cursors are classes whose `next_x_y`/`next` move `start`, `x` and `y`;
- `U8Bits::next` advances `index`;
- the UI keeps a log of the state calls it makes and of the screen operations;
- the handler writes into a 1024-byte `array`.

Each method is proved against a function of its inputs, and the lemmas state the
properties that the source promises.

Integers are unbounded in Dafny. Where the source's width matters, it is written out:

- `u32` values are bounded to 32 bits;
- `c_int` is bounded to signed 32 bits;
- `as usize` of a negative `c_int` wraps around 2^64;
- `u16` sizes saturate.

The f64 coordinates of the canvas are always integer valued, so they are modelled as
integers with floor division.

Two readings differ from the natural specification, and the model follows the code:

- **The right-hand sample.** `CharBitmapRender::render` reads the centre pixel again
  where the right-hand neighbour would be expected
  (`src/preview/terminal/render/mod.rs:74`). The model does the same, and
  `TerminalRender.RightNeighbourUnread` proves that the right-hand pixel never
  influences a cell.
- **`UI::new` and `State::new`.** `UI::new` calls `State::new` with three arguments,
  but `state.rs` defines it with two. The model builds the state from the family list
  as `state.rs` does.

## Model

| member | source | states |
|---|---|---|
| OneChar.FromScalarValue | src/one_char.rs:62-67 | Ok exactly for Unicode scalar values (at most 0x10FFFF, not a surrogate), and then the char has that value. Otherwise the error is `InvalidUnicodeScalarValue` carrying the same value. |
| OneChar.FromScalarValueOfChar | src/one_char.rs:62-67 | Every char's own value converts back to that char. |
| OneChar.U32FromStrRadix | src/one_char.rs:72 | `u32::from_str_radix` never accepts the empty string or a lone `+`. |
| OneChar.U32FromStrRadixToBase | src/one_char.rs:72 | Any u32 written in a radix from 2 to 16 parses back to itself, in either letter case and with or without a leading `+`. |
| OneChar.FromScalarValueStrRadix | src/one_char.rs:69-74 | Any digit-string failure, including an empty string or overflow, is `InvalidDigitInRadix` with the radix used. A parsed value goes through the scalar-value check. |
| OneChar.StrRadixRoundTrip | src/one_char.rs:69-90 | For every radix from 2 to 16 (binary, octal and hex among them), writing a u32 in that radix, with or without a leading `+`, and parsing it gives the same result as converting the value directly. |
| OneChar.CollectHexBytes | src/one_char.rs:93-111 | The loop that drains the digits two at a time returns what the pairwise specification `HexBytes` gives. |
| OneChar.HexBytesOutcome | src/one_char.rs:95-111 | Checking pair by pair from the left: the bytes are produced iff the length is even and all chars are hex. `UTF8BytesStrCantAlignToBytes` iff only a dangling last digit is left after valid pairs. Every other failure is `InvalidDigitInRadix(16)`. On success there is one byte per pair. |
| OneChar.HexPair | src/one_char.rs:104-106 | Every byte has a two-digit hex spelling that the pair parser reads back as that byte. |
| OneChar.HexBytesOfHexString | src/one_char.rs:95-111 | Any byte string written as hex pairs is collected back exactly. |
| OneChar.FromUtf8Bytes | src/one_char.rs:92-125 | On Ok, the char's UTF-8 encoding is exactly the bytes collected. `UTF8BytesEmpty` iff the input is empty. Every error is one of the byte errors. |
| OneChar.FromUtf8BytesOutcome | src/one_char.rs:92-125 | For every input: a hex-pair error is passed on. For the bytes collected, the result is a char exactly when they are that char's UTF-8 encoding, in any digit case. `UTF8BytesInvalid` exactly when they are not well-formed UTF-8. `UTF8BytesEmpty` exactly when there are none. `UTF8BytesParseResultMoreThenOneChar` exactly when they decode to two or more chars. |
| OneChar.FromUtf8BytesRoundTrip | src/one_char.rs:114-124 | The hex spelling of any char's UTF-8 encoding parses back to that char. |
| OneChar.FromUtf8BytesTwoChars | src/one_char.rs:114-124 | The bytes of two chars give `UTF8BytesParseResultMoreThenOneChar`. |
| OneChar.FromStr | src/one_char.rs:131-150 | `EmptyInput` iff the input is empty. A one-char input is that char verbatim. |
| OneChar.FromStrRadix | src/one_char.rs:136-142 | After a case-insensitive `0b`, `0o` or `u+` prefix, the digits of any u32 in base 2, 8 or 16 give the scalar-value conversion of that u32. |
| OneChar.FromStrUtf8 | src/one_char.rs:143 | `0x`/`0X` followed by the hex UTF-8 bytes of any char gives that char. |
| OneChar.FromStrDecimal | src/one_char.rs:144 | Any decimal of two or more digits is parsed as a scalar value. |
| OneChar.FromStrOneDigit | src/one_char.rs:135 | "1" is the char '1', not U+0001. |
| OneChar.ScalarFieldWidth | src/one_char.rs:33-38 | The `U+` field of the description has 4 hex digits up to 0xFFFF and 6 above, and reads back as the char's value. |
| OneChar.DecimalFieldValue | src/one_char.rs:32-36 | The decimal field of the description reads back as the char's value. |
| OneChar.ByteTexts | src/one_char.rs:31 | The description prints one byte text per UTF-8 byte. |
| OneChar.ByteFieldRoundTrip | src/one_char.rs:29-31 | Each printed byte is `0x` followed by hex that reads back as that byte. Feeding the bytes back through `from_utf8_bytes` returns the same char. |
| Utf8.Width | src/one_char.rs:29-30 | A char encodes to 1 to 4 bytes, and to 1 exactly when it is ASCII. |
| Utf8.EncodeChar | src/one_char.rs:29-30 | `encode_utf8` writes exactly `Width(c)` bytes. |
| Utf8.Len | src/family.rs:31 | `str::len`, the byte length, equals the length of the encoding and lies between the char count and four times the char count. |
| Utf8.DecodeFirst | src/one_char.rs:114 | A successful decode of a leading char consumes 1 to 4 bytes of the input. |
| Utf8.EncodeCharDecodesFirst | src/one_char.rs:114 | The encoding of a char, followed by anything, decodes first to that char and its width. |
| Utf8.DecodeEncode | src/one_char.rs:114 | `String::from_utf8` of the encoding of any string gives that string back. |
| Utf8.DecodeFirstEncodes | src/one_char.rs:114 | A decoded leading char re-encodes to exactly the bytes it consumed. |
| Utf8.EncodeOfDecode | src/one_char.rs:114 | Bytes that decode re-encode to themselves, and decode to the empty string only when empty. |
| Text.CmpEqual | src/font.rs:61-65 | The lexicographic `str` comparison is Equal exactly on equal strings. |
| Text.CmpFlip | src/font.rs:61-65 | The comparison is antisymmetric. |
| Text.LeTransitive | src/font.rs:61-65 | The order is transitive, and strictly so when either step is strict. |
| Text.LeTotal | src/font.rs:61-65 | The order is total and antisymmetric. |
| Text.DigitsValueToBase | src/one_char.rs:72 | Formatting a number in a radix up to 16 and reading the digits back gives the number. |
| Text.ToBaseLeading | src/one_char.rs:33 | Formatting gives at least one digit, with a leading `0` only for zero. |
| Text.ToBaseLength | src/one_char.rs:33 | A number below radix^k takes at most k digits. |
| Text.ToBaseLengthAtLeast | src/one_char.rs:33 | A number at least radix^(k-1) takes at least k digits. |
| Text.PadLeft | src/one_char.rs:33 | A zero-padded field keeps the text as its suffix. It is padded on the left to the field width, and only with the pad character. |
| TerminalRender.FirstWidth | src/preview/terminal/render/mod.rs:54-56 | `width` is the length of the first row, and 0 when there are no rows. |
| TerminalRender.SamplesAreNeighbours | src/preview/terminal/render/mod.rs:71-76 | The centre sample is the pixel itself. Up, left and down are the true neighbours, or 0 past the first row, first column or last row. The right sample is the centre again, or 0 in the last column. |
| TerminalRender.RightNeighbourUnread | src/preview/terminal/render/mod.rs:74 | Two bitmaps that differ only in the pixel right of a cell give that cell the same samples: the right-hand pixel is never read. |
| TerminalRender.Render | src/preview/terminal/render/mod.rs:63-84 | A well-shaped bitmap of h rows and w columns renders to h rows of w cells, each equal to the pixel rule applied to that cell's samples. |
| TerminalRender.RenderDimensions | src/preview/terminal/render/mod.rs:50-56 | The result's `height` and `width` are the bitmap's row count and first-row width. |
| TerminalRender.TextLength | src/preview/terminal/render/mod.rs:37-47 | The displayed text is as long as all the rows together plus one newline per row. |
| TerminalRender.TextAppend | src/preview/terminal/render/mod.rs:37-47 | Displaying one more row appends exactly that row and a newline. |
| TerminalRender.Display | src/preview/terminal/render/mod.rs:37-47 | The loop writing rows and chars produces the text of the specification. |
| TerminalRender.NewlineIndex | src/preview/terminal/render/mod.rs:37-47 | Finds the first newline of a text, or the end when there is none. |
| TerminalRender.NewlineAfter | src/preview/terminal/render/mod.rs:37-47 | A newline written after a row without newlines is the first one found. |
| TerminalRender.LinesOfText | src/preview/terminal/render/mod.rs:37-47 | When no row holds a newline, splitting the displayed text at newlines gives the rows back. |
| Ascii.New | src/preview/terminal/render/ascii.rs:39-49 | `AsciiRender::new` builds a valid renderer whose ramp is the one of its render type. |
| Ascii.RampFacts | src/preview/terminal/render/ascii.rs:21-23 | The Level10 ramp has 10 chars from ' ' to '@'. The Level70 ramp has 70 chars from ' ' to '$'. |
| Ascii.Bucket | src/preview/terminal/render/ascii.rs:46-47 | The bucket index is below the ramp length, so the ramp is never indexed out of bounds. |
| Ascii.BucketBelow | src/preview/terminal/render/ascii.rs:55 | `gray * L / 256` is below L for every byte. |
| Ascii.GrayToChar | src/preview/terminal/render/ascii.rs:53-57 | Every output char is a char of the ramp. |
| Ascii.GrayExtremes | src/preview/terminal/render/ascii.rs:53-57 | Gray 0 gives ' ', and gray 255 gives the last char of the ramp, for both ramps. |
| Ascii.BucketOfWhite | src/preview/terminal/render/ascii.rs:55 | Gray 255 falls in the last bucket. |
| Ascii.BucketMonotone | src/preview/terminal/render/ascii.rs:55 | A lighter gray never gives a lower ramp index. |
| Ascii.IgnoresNeighbours | src/preview/terminal/render/ascii.rs:53 | The output depends on the centre gray only. |
| Ascii.RenderCells | src/preview/terminal/render/ascii.rs:53-57 | Each rendered cell is the ramp char at the bucket of that cell's pixel (with the driver at mod.rs:78). |
| Moon.TableShape | src/preview/terminal/render/moon.rs:21-22 | There are exactly 5 symbol pairs. The first and last pairs have identical members. |
| Moon.New | src/preview/terminal/render/moon.rs:30-34 | `MoonRender::new` builds a valid renderer. |
| Moon.PairIndex | src/preview/terminal/render/moon.rs:43 | `(255 - gray) * 5 / 256` is a valid pair index. |
| Moon.PairIndexFacts | src/preview/terminal/render/moon.rs:43 | Gray 255 picks the full moon (index 0). A lighter gray never picks a later pair. Every index is at most 4. |
| Moon.GrayToChar | src/preview/terminal/render/moon.rs:38-46 | Gray 0 gives `MOON_CHARS[4][0]` whatever the neighbours. Otherwise the pair's second member exactly when left < right, else its first. |
| Moon.RenderCells | src/preview/terminal/render/moon.rs:38-46 | Each rendered cell follows that rule on the cell's pixel, its left neighbour and the right sample the driver passes. |
| Mono.RenderPixel | src/preview/terminal/render/mono.rs:27-29 | A pixel is on exactly when its gray is 255, whatever the neighbours. |
| Mono.RenderCells | src/preview/terminal/render/mono.rs:27-29 | A rendered cell is on iff its pixel is 255. Every darker pixel is off. |
| FtBitmap.BitByte | src/ft/bitmap.rs:52-57 | The value at position i is 255 iff bit 7-i is set, and 0 otherwise. |
| FtBitmap.Bits | src/ft/bitmap.rs:52-57 | A byte unpacks to exactly 8 values, most significant bit first. |
| FtBitmap.U8Bits.constructor | src/ft/bitmap.rs:62-64 | `bits(v)` starts at index 0 with all 8 values pending. |
| FtBitmap.U8Bits.Next | src/ft/bitmap.rs:47-59 | Each call yields the next pending value and advances the index by one. After 8 calls it yields None and stays there. |
| FtBitmap.CollectBits | src/ft/bitmap.rs:44-64 | Draining the iterator yields exactly `Bits(v)`, then None. |
| FtBitmap.PackBits | src/ft/bitmap.rs:52-57 | Reading the 8 values back as binary digits gives the byte: no bit is lost or reordered. |
| FtBitmap.PackPrefix | src/ft/bitmap.rs:52-57 | The first k values read back as the top k bits of the byte. |
| FtBitmap.FlatBits | src/ft/bitmap.rs:82-87 | A packed row unpacks to 8 values per byte. |
| FtBitmap.FlatBitsAt | src/ft/bitmap.rs:82-87 | Unpacked value k is bit `k % 8` (from the top) of byte `k / 8`. |
| FtBitmap.MonoRow | src/ft/bitmap.rs:82-87 | A mono row is the first `width` unpacked bits (fewer when the row is short), each 0 or 255. |
| FtBitmap.Chunks | src/ft/bitmap.rs:81 | A buffer of `pitch * height` bytes splits into `height` consecutive rows of `pitch` bytes. |
| FtBitmap.NewBitmap | src/ft/bitmap.rs:66-95 | The bitmap has `height` rows. A mono row is the unpacked row trimmed to the width. A gray row is the first `width` bytes of its chunk. The metrics are stored unchanged. |
| FtBitmap.NewBitmapShape | src/ft/bitmap.rs:75-115 | `get_height` is the row count. Every row has the same length (the width, when the pitch is wide enough), so the result is rectangular. |
| FreeTypeError.GetErr | src/ft/mod.rs:47-55 | No error exactly for code 0. Otherwise the error is the code unchanged. |
| FreeTypeError.AsResult | src/ft/mod.rs:27-33 | Ok with the given value exactly for code 0, else Err with the code. |
| FreeTypeError.MapResult | src/ft/mod.rs:34-44 | Ok with the closure's value exactly for code 0, else Err with the code. |
| FreeTypeError.AsResultAgreesWithMapResult | src/ft/mod.rs:27-44 | `as_result(f())` and `map_result(f)` agree on every code. |
| FreeTypeError.MapResultIgnoresClosureOnError | src/ft/mod.rs:34-44 | On a non-zero code the closure does not matter. |
| Cache.Rank | src/preview/terminal/ui/cache.rs:30-36 | The derived order places each render type among four ranks. |
| Cache.RenderTypeOrder | src/preview/terminal/ui/cache.rs:30-36 | The variants are exactly AsciiLevel10 < AsciiLevel70 < Moon < Mono. |
| Cache.RankInjective | src/preview/terminal/ui/cache.rs:30-36 | Equal ranks mean equal render types, so the derived order is Equal only on equal types. |
| Cache.CmpKey | src/preview/terminal/ui/cache.rs:50-56 | The derived key comparison is Equal exactly on equal keys (componentwise equality). |
| Cache.CmpKeyIsLexicographic | src/preview/terminal/ui/cache.rs:50-56 | The key order is lexicographic over (index, render type, height, width), in both directions. |
| Cache.CmpKeyTransitive | src/preview/terminal/ui/cache.rs:50-56 | The key order is transitive. |
| Cache.CharRenders | src/preview/terminal/ui/cache.rs:40-48 | The char-render table has exactly the keys AsciiLevel10, AsciiLevel70 and Moon (not Mono), each with a valid renderer. |
| Cache.CharRendersEntries | src/preview/terminal/ui/cache.rs:40-48 | Each table entry renders as `AsciiRender::new` of its level, or as `MoonRender::new`. |
| Cache.NewShape | src/preview/terminal/ui/cache.rs:71-75 | The horizontal and vertical paddings are the floor halves of the canvas size minus the bitmap size. |
| Cache.SetCellsExact | src/preview/terminal/ui/cache.rs:94-126 | The cells the cursor must yield are exactly the true cells, each once, in strictly increasing row-major order. |
| Cache.GlyphCanvasShapePoints.constructor | src/preview/terminal/ui/cache.rs:90-92 | A new cursor has not started, and all true cells are pending. |
| Cache.GlyphCanvasShapePoints.NextXY | src/preview/terminal/ui/cache.rs:94-105 | The first call visits (0,0). Later calls advance x, wrapping to the next row. The result says whether y is still on the grid. On the grid, the pending cells are the visited cell (if true) followed by the rest. |
| Cache.GlyphCanvasShapePoints.Next | src/preview/terminal/ui/cache.rs:111-126 | Yields the first pending cell as the canvas point `(x + h_pad, canvas_height - y - v_pad)` and drops it. Yields None, and stays exhausted, once nothing is pending. |
| Cache.Points | src/preview/terminal/ui/cache.rs:108-126 | Draining the cursor yields one canvas point per true cell, in row-major order (the points of lines 119-122). |
| Cache.NewParagraph | src/preview/terminal/ui/cache.rs:144-147 | One line per bitmap row, each the row's chars in order. |
| CanvasRender.InkCellsExact | src/preview/terminal/ui/canvas_render.rs:72-85 | The cells to enumerate are exactly the cells that are not ' ', each once, in strictly increasing row-major order. |
| CanvasRender.PanicsExactlyWhenNotIndexable | src/preview/terminal/ui/canvas_render.rs:55-77 | The chars excluded by `Indexable` are exactly those in which some row is shorter than the columns the cursor indexes in it, that is, those on which line 77 panics. |
| CanvasRender.RenderResultPoints.constructor | src/preview/terminal/ui/canvas_render.rs:49-53 | The paddings are the floor halves of the canvas size minus the chars' width and height. The cursor has not started, and every non-blank cell is pending. |
| CanvasRender.RenderResultPoints.NextXY | src/preview/terminal/ui/canvas_render.rs:55-66 | The first call only starts at (0,0). Later calls advance x up to the first row's length, wrapping to the next row. The result says whether y is below the row count. |
| CanvasRender.RenderResultPoints.Next | src/preview/terminal/ui/canvas_render.rs:72-85 | Yields the next non-blank cell as `(x + h_pad, height - y - v_pad)` (y flipped), then None once exhausted. |
| CanvasRender.Points | src/preview/terminal/ui/canvas_render.rs:69-85 | Draining the iterator yields one flipped, padded point per non-blank cell, row-major (with `Shape::draw` at lines 93-95). |
| RowMajor.OnCellsSound | src/preview/terminal/ui/cache.rs:94-105 | Every enumerated cell lies on the grid, at or after the start, and is on. |
| RowMajor.OnCellsIncreasing | src/preview/terminal/ui/cache.rs:94-105 | The enumeration is strictly increasing in row-major order, so no cell repeats. |
| RowMajor.OnCellsComplete | src/preview/terminal/ui/cache.rs:94-105 | Every on cell at or after the start is enumerated. |
| RowMajor.AdvanceStep | src/preview/terminal/ui/canvas_render.rs:55-66 | One cursor step keeps the pending cells equal to the specification, whatever the cursor's state. |
| TerminalUi.OnEventTable | src/preview/terminal/ui/mod.rs:166-196 | An error passes through. A Tick, or any key with Alt or Control held, gives Continue with no state call. 'q' gives Exit. Up/'k', Down/'j', Left/'h' and Right/'l' call move_up, move_down, prev_render_type and next_render_type and give ReDraw. Any other key gives Continue with no call. |
| TerminalUi.ListWidthBounded | src/preview/terminal/ui/mod.rs:145-146 | The list width is `min(name_width_max, 24)`. |
| TerminalUi.InnerSizeFits | src/preview/terminal/ui/mod.rs:156-158 | The preview's inner size is the canvas size minus 2 on each axis, saturating at 0. |
| TerminalUi.PaddingCentres | src/preview/terminal/ui/mod.rs:106-107 | The top padding centres the paragraph: the remaining space below is the padding or one more. The padding is 0 when the content does not fit. |
| TerminalUi.Newlines | src/preview/terminal/ui/mod.rs:107 | The padding text is exactly n newlines. |
| TerminalUi.DrawCanvasChoice | src/preview/terminal/ui/mod.rs:79-117 | A canvas is drawn exactly for Mono with a rendered bitmap. Otherwise a paragraph is drawn: the padded rendered text, or the error message. |
| TerminalUi.RunStep | src/preview/terminal/ui/mod.rs:224-240 | An event that does not end the loop makes its state calls. It draws a frame after ReDraw only, then the loop goes on. |
| TerminalUi.RunPassesOn | src/preview/terminal/ui/mod.rs:224-240 | An event that does not end the loop leaves the final result and the first ending event unchanged, and adds only its own frame, if any. |
| TerminalUi.RunShutsDown | src/preview/terminal/ui/mod.rs:224-242 | The first event that ends the loop decides how it ends. For an event stream error or `q`, the terminal is shut down, as the last screen operation. The result is then the shutdown's error if shutdown fails (line 227), otherwise the stream's error or `Ok(())`. A failed redraw (line 232) returns its error with no shutdown. With no ending event the loop returns `Ok(())` with no shutdown. |
| TerminalUi.ShowShutsDown | src/preview/terminal/ui/mod.rs:217-243 | `show` shuts the terminal down exactly when `setup` and the first draw succeed and an event stream error or `q` ends the loop. An error returned without a shutdown is the error of `setup` (line 218), of the first draw (line 222) or of the failed redraw that ended the loop. |
| TerminalUi.RunIgnoresAfterStop | src/preview/terminal/ui/mod.rs:224-240 | The events after the first one that ends the loop, and the terminal's later answers, change nothing. |
| TerminalUi.UI.constructor | src/preview/terminal/ui/mod.rs:61 | A new UI holds `State::new` of the families and has made no calls. |
| TerminalUi.UI.OnEvent | src/preview/terminal/ui/mod.rs:166-196 | `on_event` returns the dispatch outcome and appends exactly the dispatched state calls. |
| TerminalUi.UI.DrawFrame | src/preview/terminal/ui/mod.rs:222 | A frame records one `update_rect` with the preview's inner size (lines 156-158) and one draw on the screen, and returns the terminal's answer. |
| TerminalUi.UI.Show | src/preview/terminal/ui/mod.rs:217-243 | `show` returns the result of the specification, which covers failing `setup`, draws and `shutdown`, and appends its state calls and screen operations. |
| TerminalUi.New | src/preview/terminal/ui/mod.rs:59-65 | `UI::new` is None exactly when there are no families. Otherwise it is a fresh UI over `State::new`. |
| TuiState.MaxWidth | src/preview/terminal/ui/state.rs:36-37 | The width bounds every family's `default_name_width`. |
| TuiState.MaxWidthIsMaximum | src/preview/terminal/ui/state.rs:36-37 | The width is 0 with no families, and otherwise equals some family's width: it is the maximum. |
| TuiState.DefaultNames | src/preview/terminal/ui/state.rs:38 | One name per family, in order: the family's default name. |
| TuiState.EmptyCache | src/preview/terminal/ui/state.rs:39 | The cache has one entry per family, each None. |
| TuiState.NewState | src/preview/terminal/ui/state.rs:35-41 | `State::new` keeps the families and starts at index 0, with the names, the empty cache and the maximum width as above. |
| TuiState.CurrentName | src/preview/terminal/ui/state.rs:43-45 | `current_name` returns one of the names. |
| TuiState.NewCurrentName | src/preview/terminal/ui/state.rs:40 | Straight after `new`, the current name is the first family's default name. |
| FaceFamily.Family.constructor | src/family.rs:30-32 | `Family::new` stores the name with no faces. Its `default_name_width` is the byte length of the name. |
| FaceFamily.Family.AddFace | src/family.rs:38-40 | `add_face` appends exactly one face at the end. `styles_count` grows by one. |
| FaceFamily.Family.SortFaces | src/family.rs:56 | The faces are permuted into ascending name order. |
| FaceFamily.FileNew | src/family.rs:46-49 | A face with an unseen family creates a family holding just that face. The map stays filed: keys, names and members agree with the faces so far. |
| FaceFamily.FileExisting | src/family.rs:46-49 | A face of a known family is appended to that family, and the map stays filed. |
| FaceFamily.File | src/family.rs:46-49 | `entry().or_insert_with().add_face` keeps the map filed, and other families untouched. |
| FaceFamily.FileAll | src/family.rs:46-49 | After the loop, the map groups all faces by family name. |
| FaceFamily.SortEach | src/family.rs:55-57 | Every family's faces end sorted by name and permuted, not changed. |
| FaceFamily.GroupByFamilySortByName | src/family.rs:43-59 | Families are distinct and in ascending name order. Each holds exactly the input faces of that family name, sorted by face name. The total number of styles equals the number of input faces. |
| FaceFamily.CountGroups | src/family.rs:46-49 | The family sizes add up to the number of input faces. |
| FaceFamily.FacePlaced | src/family.rs:46-49 | Every input face is in the family named by its `family` field. |
| FaceFamily.EachFacePlaced | src/family.rs:46-49 | Every input face is placed. |
| FaceFamily.FamilyFaceFromInput | src/family.rs:46-49 | Every face of a family is an input face carrying that family's name. |
| FaceFamily.NoFacesNoFamilies | src/family.rs:43-59 | There are no families exactly when there are no faces. |
| Sorting.Insert | src/family.rs:53 | Inserting into a sorted list keeps it sorted, and adds exactly that element. |
| Sorting.SortBy | src/family.rs:53 | `sort_by_key` returns its input permuted into ascending key order. |
| Sorting.StrictlySorted | src/family.rs:53 | A sorted list with distinct keys is strictly ascending. |
| Sorting.DistinctPermutation | src/family.rs:51-53 | A permutation of a list with distinct elements has distinct elements. |
| Grouping.KeysOccur | src/family.rs:46-49 | The HashMap keys are exactly the keys of the inputs. |
| Grouping.Members | src/family.rs:46-49 | A group is never longer than the input. |
| Grouping.MembersHaveKey | src/family.rs:46-49 | Every member of a group has that group's key. |
| Grouping.First | src/font/from_fc.rs:37 | The first element filed under a key has that key. |
| Grouping.FirstIsFirst | src/font/from_fc.rs:37 | The first element filed under a key is the earliest input with that key. |
| Grouping.Step | src/family.rs:46-49 | Filing one more element adds its key, appends it to its own group only, and keeps the first element of every old key. |
| Grouping.InOwnGroup | src/family.rs:46-49 | Every input is in the group of its own key. |
| Grouping.MembersFromInput | src/family.rs:46-49 | A group's members are drawn from the input. |
| Grouping.MemberOf | src/family.rs:46-49 | A member of a group has that group's key and is an input. |
| Grouping.SumSizesCount | src/family.rs:46-49 | The group sizes over distinct keys covering all inputs add up to the input count. |
| Grouping.Kept | src/font/from_fc.rs:32-33 | Skipping the failed conversions keeps at most as many elements as the input. |
| Grouping.KeptMembers | src/font/from_fc.rs:32-33 | A value is kept exactly when some input converts to it. |
| Grouping.IntoValues | src/family.rs:51 | `into_values` in iteration order yields one value per key, in that order. |
| Grouping.SortByKey | src/family.rs:51-53 | Sorting values with distinct keys is a permutation into strictly ascending key order. |
| Grouping.SortValues | src/font.rs:94-97 | `into_values` followed by a sort gives one value per key, ordered strictly by key. |
| FontFamilies.EqIffCmpEqual | src/font.rs:52-71 | Font equality and order both compare the full name: `eq` holds iff `cmp` is Equal. The order is antisymmetric and transitive. |
| FontFamilies.Family.constructor | src/font.rs:36-38 | `Family::new` has no fonts and stores the name's byte length as its width. |
| FontFamilies.Family.AddFont | src/font.rs:40-47 | `add_font` pushes exactly one font. `styles_count` grows by one. |
| FontFamilies.ConvertedAll | src/font.rs:73-79 | `try_from` never fails: every input is converted, in order. |
| FontFamilies.FileNew | src/font.rs:87-92 | A font of an unseen family creates a family holding it, and the map stays filed. |
| FontFamilies.FileExisting | src/font.rs:87-92 | A font of a known family joins that family, and the map stays filed. |
| FontFamilies.Visit | src/font.rs:87-92 | One step of the `for_each` converts a font and files it. |
| FontFamilies.FileAll | src/font.rs:87-92 | After the loop, the map groups all fonts by family name. |
| FontFamilies.SortedFromFiled | src/font.rs:94-97 | Sorting the map's values gives the sorted-families specification. |
| FontFamilies.From | src/font.rs:83-101 | `SortedFamilies::from`: families strictly ascending by name, one per family name, each holding exactly that family's fonts. |
| FontFamilies.EveryFontPlaced | src/font.rs:87-92 | Every input font is in the family of its `family` name. |
| FontFamilies.FamilyFontFromSet | src/font.rs:87-92 | Every font of a family comes from the input and carries that family's name. |
| FontMod.EqIffCmpEqual | src/font/mod.rs:96-111 | Equality and order both compare the default full names, so `eq` holds iff `cmp` is Equal. |
| FontMod.CmpIsTotalOrder | src/font/mod.rs:105-111 | The font order is antisymmetric and transitive. |
| FontMod.Family.constructor | src/font/mod.rs:72-76 | `Family::new` has no fonts, and its width is the byte length of the default name. |
| FontMod.Family.AddFont | src/font/mod.rs:78-85 | `add_font` pushes exactly one font. `styles_count` grows by one. |
| ByLang.Empty | src/font/mod.rs:50-51 | The empty map is valid. |
| ByLang.WhenMissing | src/font/mod.rs:60-62 | `when_missing` is the first value of the first entry in iteration order. |
| ByLang.GetDefault | src/font/mod.rs:41-47 | The first "en" value when stored, else `when_missing`. |
| ByLang.GetDefaultIsStored | src/font/mod.rs:41-47 | The default is the first value of some entry, and of "en" when present. |
| ByLang.HasDefaultIffNonEmpty | src/font/mod.rs:60-62 | `get_default` does not panic exactly when the map is non-empty. |
| ByLang.Push | src/fc/font_info.rs:78-80 | `entry(lang).or_insert_with(Vec::new).push(v)` appends v under lang, adds lang to the keys (last in iteration order when new), and leaves every other entry unchanged. |
| ByLang.Group | src/fc/font_info.rs:76-81 | Pairing languages and values gives a valid map. |
| ByLang.GroupKeys | src/fc/font_info.rs:76-81 | The keys are exactly the languages read. |
| ByLang.GroupEntries | src/fc/font_info.rs:76-81 | Each language maps to its own values, positionally paired and in input order. |
| ByLang.GroupHasDefault | src/fc/font_info.rs:76-81 | The grouped map has a default exactly when it received a pair. |
| ByLang.GetByLangOfGroup | src/font_info.rs:46-48 | `get_by_lang` is Some exactly for a language that was read, and is then the value paired with its first occurrence. |
| ByLang.FirstOfValuesFor | src/fc/font_info.rs:76-81 | A language's first stored value is the one paired with its first occurrence. |
| ByLang.PushTotal | src/fc/font_info.rs:78-80 | Each push stores exactly one more value. |
| ByLang.GroupTotal | src/fc/font_info.rs:76-81 | The total number of values stored equals the number of pairs. |
| FcPattern.StringRun | src/fc/font_info.rs:49-63 | The read loop takes the leading run of string values and stops at the first non-match. |
| FcPattern.IntegerRun | src/fc/font_info.rs:92-103 | The same for integer values. |
| FcPattern.ValidStrings | src/fc/font_info.rs:56-58 | Keeping the valid UTF-8 values never gives more than were read. |
| FcPattern.InvalidIsSkipped | src/fc/font_info.rs:56-58 | A value that is not UTF-8 is dropped, while the index still advances. |
| FcPattern.AllValidAreRead | src/fc/font_info.rs:56-58 | When all values decode, each is kept, decoded, in order. |
| FcPattern.ValidStringsDecoded | src/fc/font_info.rs:56-58 | Every kept string is the decoding of some value read. |
| FcPattern.StringRunStops | src/fc/font_info.rs:49-63 | Nothing after the first non-match is read. |
| FcPattern.GetStringProperty | src/fc/font_info.rs:45-65 | The loop with counter `n` returns the specification's strings. |
| FcPattern.GetIntProperty | src/fc/font_info.rs:88-105 | The integer loop returns the specification's integers. |
| FcPattern.MapValues | src/fc/font_info.rs:80 | `value_map` is applied to each value, or not at all when absent. |
| FcPattern.GetStringByLangProperty | src/fc/font_info.rs:67-86 | Err exactly when the value count differs from the language count, otherwise the grouped map. |
| FcPattern.PushPairs | src/fc/font_info.rs:76-81 | The `for_each` over the zipped pairs builds `Group` of the languages and mapped values. |
| FcPattern.ByLangHasDefault | src/fc/font_info.rs:75-82 | A successful read has a default (and is non-empty) exactly when some value was read. |
| FcPattern.Last | src/fc/font_info.rs:124-130 | `pop().ok_or(())`: Ok exactly for a non-empty list, holding its last element. |
| FcFontInfo.RemovePrefixDot | src/fc/font_info.rs:107-110 | The result is a suffix of the input that does not start with '.', and everything removed is '.'. |
| FcFontInfo.RemovePrefixDotExact | src/fc/font_info.rs:107-110 | Exactly the leading run of dots is removed. |
| FcFontInfo.RemovePrefixDotIdempotent | src/fc/font_info.rs:107-110 | Stripping twice is stripping once. |
| FcFontInfo.FamilyNames | src/fc/font_info.rs:112-116 | Family names are read by language with dot-stripping. |
| FcFontInfo.FullNames | src/fc/font_info.rs:118-122 | Full names are read by language with dot-stripping. |
| FcFontInfo.StoredNamesHaveNoPrefixDot | src/fc/font_info.rs:112-122 | No stored name starts with '.'. |
| FcFontInfo.Path | src/fc/font_info.rs:124-126 | The last file read, or Err when none was read. |
| FcFontInfo.Index | src/fc/font_info.rs:128-130 | The last index read, or Err when none was read. |
| FcFont.FamilyNames | src/fc/font.rs:83-85 | Family names are read by language without dot-stripping. |
| FcFont.FullNames | src/fc/font.rs:87-89 | Full names are read by language without dot-stripping. |
| FcFont.ByLangAsRead | src/fc/font.rs:67-81 | Err exactly on a count mismatch. Otherwise each language maps to its values in input order, unchanged. |
| FontInfoCatalogue.ShortlexIsTotalOrder | src/font_info.rs:90-100 | Shortlex is Equal only on equal strings. A shorter string (in bytes) comes first. It is antisymmetric and transitive. |
| FontInfoCatalogue.EqIffCmpEqual | src/font_info.rs:84-100 | `eq` (same default full name) holds iff the shortlex `cmp` is Equal, and the order is total. |
| FontInfoCatalogue.Family.constructor | src/font_info.rs:62-66 | `Family::new` has no fonts, and its width is the display width of the default name. |
| FontInfoCatalogue.Family.AddFont | src/font_info.rs:68-75 | `add_font` grows the heap by one font, and `styles_count` reports its size. |
| FontInfoCatalogue.TryFrom | src/font_info.rs:111-118 | The conversion returns what its specification gives on the two reads. |
| FontInfoCatalogue.TryFromOk | src/font_info.rs:111-118 | It succeeds exactly when both reads pair up and read at least one name each. A result can be ordered and filed. |
| MatcherFontInfo.AsUsize | src/font/matcher/fc/font_info.rs:176 | `as usize` keeps a non-negative index and wraps a negative one around 2^64. |
| MatcherFontInfo.TryFrom | src/font/matcher/fc/font_info.rs:170-183 | The conversion, in source order, returns what its specification gives. |
| MatcherFontInfo.AssemblePanics | src/font/matcher/fc/font_info.rs:173-174 | It panics exactly when a name read succeeds but `get_default` meets an empty map (lines 60-62). |
| MatcherFontInfo.AssembleRejected | src/font/matcher/fc/font_info.rs:172-182 | Short of a panic, it fails exactly when a read fails or a default name is empty. |
| MatcherFontInfo.PanicsWhenNoNames | src/font/matcher/fc/font_info.rs:170-183 | The panic happens exactly when a name read yields no names at all. |
| MatcherFontInfo.ConvertedFields | src/font/matcher/fc/font_info.rs:172-182 | A converted font carries the default family and full names (non-empty, no leading dot), the last path and the last index. |
| FromFc.Assemble | src/font/from_fc.rs:12-25 | Ok exactly when all four reads succeed and neither name map is empty, with the fields taken from the reads. |
| FromFc.TryFrom | src/font/from_fc.rs:12-25 | The `?` chain returns what the specification gives. |
| FromFc.TryFromOk | src/font/from_fc.rs:12-25 | It succeeds exactly when the reads pair up and there are family names, full names, a path and an index. The result has a default family name. |
| FromFc.ConvertedFonts | src/font/from_fc.rs:32-33 | A font is kept exactly when some pattern converts to it. A failed pattern is skipped. |
| FromFc.FileNew | src/font/from_fc.rs:33-39 | A font with a new key creates a family named by that font's name map, and the map stays filed. |
| FromFc.FileExisting | src/font/from_fc.rs:33-39 | A font with a known key joins that family, and the map stays filed. |
| FromFc.Visit | src/font/from_fc.rs:32-40 | One step converts a pattern, skips it on failure, and files it otherwise. |
| FromFc.From | src/font/from_fc.rs:29-48 | Families are strictly ascending by default name (line 45), one per key. Each holds exactly the fonts of its key and the name map of the first such font (line 37). |
| CMap.UnicodeSubtables | src/loader/cmap.rs:36-43 | Every failure of the loop is `BROKEN_CMAP_TABLE`. |
| CMap.Parse | src/loader/cmap.rs:32-46 | The missing and broken table errors, then the loop that keeps the Unicode subtables, give the specification's result. |
| CMap.UnicodeSubtablesSpec | src/loader/cmap.rs:38-43 | It fails exactly when some subtable is unreadable. Otherwise exactly the Unicode subtables are kept, in order. |
| CMap.GlyphIndexIsFirstHit | src/loader/cmap.rs:48-50 | None exactly when no kept subtable maps the char. Otherwise it is the glyph of the first subtable that does. |
| CMap.NonUnicodeIgnored | src/loader/cmap.rs:40-42 | Changing a non-Unicode subtable changes nothing. |
| FaceInfoLoader.ParseFullName | src/loader/face_info.rs:76-93 | The name-table errors and the selection loop give the specification's result. |
| FaceInfoLoader.ScanNamesSpec | src/loader/face_info.rs:80-92 | The full name found is from the first record that is a FULL_NAME, Unicode, en-US and decodable. Earlier records are readable misses. |
| FaceInfoLoader.NotContainedSkipsNames | src/loader/face_info.rs:51-53 | A face whose cmap lacks the char gives Ok(None), whatever its name table holds. |
| FaceInfoLoader.FoundFields | src/loader/face_info.rs:47-74 | A found face's family is its first listed family (lines 63-64). Its name is the full name, or the PostScript name when none is found (line 66). It really maps the char. |
| FaceInfoLoader.NoFamilyIsError | src/loader/face_info.rs:63-64 | A face that contains the char but lists no family gives `MissingFamilyName`. |
| BrowserServer.StatusLineReadsBack | src/preview/browser/server.rs:54-56 | The status line is `HTTP/1.1 `, the three-digit code (reading back as the code), a space, the reason and CRLF. |
| BrowserServer.ResponseLines | src/preview/browser/server.rs:58-64 | A response is the status line, the headers in order and `Connection: close`, each CRLF-terminated, then a blank line. |
| BrowserServer.ResponseHead | src/preview/browser/server.rs:58-64 | The response head's only blank line (CRLF CRLF) is at its end. |
| BrowserServer.ContentLengthReadsBack | src/preview/browser/server.rs:67 | The Content-Length value reads back as the body's byte length. |
| BrowserServer.Headers200AreLines | src/preview/browser/server.rs:66-75 | Each of the three 200 headers is one CRLF-terminated line. |
| BrowserServer.PageAnswerFraming | src/preview/browser/server.rs:66-75 | In the 200 answer, the head ends at the first blank line and the body follows unchanged. Content-Length is the body's byte length (written together at lines 162-163). |
| BrowserServer.ErrorAnswersFraming | src/preview/browser/server.rs:77-87 | The 400, 404 and 405 answers end at their one blank line. |
| BrowserServer.CompleteStays | src/preview/browser/server.rs:90-92 | Once Complete, `check_req` stays Complete. |
| BrowserServer.FromUnknown | src/preview/browser/server.rs:96-121 | From Unknown: NotHttp exactly on a parse error. WrongMethod exactly for a method other than GET. WrongPath exactly for GET with a path other than "/". Unknown while method or path is absent. Otherwise the acceptance result. |
| BrowserServer.AfterAcceptance | src/preview/browser/server.rs:115-121 | After acceptance: Complete iff the parse is complete, Part(Good) otherwise, and NotHttp on a parse error. |
| BrowserServer.Read | src/preview/browser/server.rs:135 | A read copies as many bytes as fit after the offset, and keeps the bytes before it. |
| BrowserServer.Handle | src/preview/browser/server.rs:125-183 | The handler loop, with its offset, status and buffer, gives the specification's outcome. |
| BrowserServer.FullBufferAnswers400 | src/preview/browser/server.rs:150-154 | Filling all 1024 buffer bytes answers 400 before any parse (line 128). |
| BrowserServer.AnswersAreResponses | src/preview/browser/server.rs:160-179 | Every answer is one of the four responses: 200 with the body, 405, 404, 400. |
| BrowserServer.FinalBufferDelivered | src/preview/browser/server.rs:131-158 | The buffer only grows, and always holds a prefix of the bytes the socket delivered, in order. |
| BrowserServer.ServesOnlyGetRoot | src/preview/browser/server.rs:89-183 | The page is written only when the bytes in the buffer, all received from the socket, parse as a complete head, and some prefix of them was accepted as a GET of "/". |
| BrowserServer.ZeroReadsNeverAnswer | src/preview/browser/server.rs:133-158 | As written: after a GET of "/" has been accepted but is not yet complete, no number of zero-byte reads makes the handler answer, stop or fail. |
| BrowserServer.EofEndsHandling | src/preview/browser/server.rs:133-158 | Corrected: the handler keeps reading only while the peer has not closed, and gives up on the connection only after the peer closed. Without a zero-byte read it is the handler as written. |
| BrowserServer.StopAndFailCauses | src/preview/browser/server.rs:133-148 | The handler stops only when an exit was signalled while waiting. It fails only on a read error. It is still reading at the end of the script only if neither happened. |
| CardColour.LiftedRange | src/preview/browser/statics/script.js:2 | A component in [0, 255] is lifted into [75, 255]: below 75 it gains 75, from 75 on it is kept. |
| CardColour.JsHexSingle | src/preview/browser/statics/script.js:3 | `toString(16)` has one char exactly for 0 to 15. |
| CardColour.PaddingOnlyBelowRange | src/preview/browser/statics/script.js:2-4 | The padding fires only for components in [-75, -60], never for one in [0, 255]. A non-negative lifted value reads back from the output. |
| CardColour.ColToHexTwoDigits | src/preview/browser/statics/script.js:1-5 | For 0 to 255 the output is two lower-case hex digits that read back as the lifted value. |
| CardColour.RgbToHexFormat | src/preview/browser/statics/script.js:7-9 | `#` and three two-digit fields, 7 chars, each reading back as its lifted component, in the order red, green, blue. |
| CardColour.RandomColourIsLight | src/preview/browser/statics/script.js:11-16 | Every random card colour has all three channels at least 75. |

## Left out

- Terminal I/O (`setup`, `shutdown`, `Terminal::draw`) and tui widget drawing. Their
  success or error is a parameter, the terminal's answers. A frame is recorded as the
  calls and screen operations it makes, and the canvas rect is a parameter. The `Painter` calls of `cache.rs:129-137` and the ×2/×4 canvas scaling of
  `ui/mod.rs:86-88` are not modelled.
- The bodies of `move_up`, `move_down`, `next_render_type`, `prev_render_type`,
  `render`, `update_rect`, `name_width_max` and `family_names`. They are not in
  `state.rs` and are recorded as uninterpreted calls.
- The input thread and channel of `ui/event.rs`. Events are a finite input sequence.
- `BinaryHeap` order inside a family: the heap is modelled by its contents (a multiset).
- `HashMap` iteration order is unspecified in Rust. The model carries an explicit key
  order, in which new keys come last; `when_missing` and `into_values` follow it.
- `UnicodeWidthStr::width` (`font_info.rs:64`) is a foreign call, so it is a parameter.
- httparse itself: a parse is an abstract outcome (an error, or an optional method, an
  optional path and completeness).
- The socket of the browser server:
  - reads are a finite script of events, with `Ok(0)` modelled as receiving nothing,
    as the code treats it (see Findings);
  - writes always succeed;
  - the non-blocking sleeps are left out;
  - the accept loop `run_until` (`server.rs:185-250`) and the thread join are left out.
- `static_page_server.rs`, `builder.rs`, the CLI (`args.rs`) and printing in `main.rs`
  are not part of this model.
- `Math.random` and the DOM loop of `script.js:11-23`. JavaScript numbers are modelled
  as integers.
- fontconfig, FreeType, ttf_parser and fontdb FFI:
  - a pattern is the list of values each property returns;
  - a raw face is its tables, each of which is missing, broken, or a list of records
    that may fail to read.
- Rasterization (`src/rasterizer`).
- The moon symbols are mis-encoded in the source text. The model uses the Unicode
  moon-phase emoji U+1F311 to U+1F318 as the five pairs.
- ByLang.GetDefault: requires a non-empty map, because `get_default` panics on an empty
  map. The panic itself is modelled as an outcome in `MatcherFontInfo`.
- OneChar.FromStr, OneChar.FromUtf8Bytes: the `(None, Some(_))` arm that calls
  `unreachable_unchecked` cannot occur, so it has no counterpart. The byte vector that
  `description` fills with `encode_utf8` is modelled by its contents, the UTF-8
  encoding.
- TerminalUi.UI.DrawFrame: a failed `terminal.draw` is recorded with the frame's
  `update_rect`. Whether tui called the closure before failing depends on where it
  failed (resizing before, flushing after), and tui is not part of this model.
- CanvasRender.RenderResultPoints.constructor: requires `Indexable`, every row as long
  as the first and no rows when the first is empty. On other chars the source panics
  at `canvas_render.rs:77` (`self.chars.0[self.y][self.x]` out of bounds), and the
  panic is not modelled as an outcome. `CanvasRender.PanicsExactlyWhenNotIndexable`
  states that these are exactly the excluded inputs.
- CanvasRender.Points: the same `Indexable` requirement and the same unmodelled panic.
- FtBitmap.NewBitmap: requires a non-zero pitch and, for gray bitmaps, a width within
  the pitch. The source would panic otherwise (the `chunks` and slice bounds).
- FtBitmap.NewBitmapShape: `get_width` equals the row length only when the packed
  row is wide enough (8 · pitch ≥ width). The source does not check this.

## Findings

| source | as written | input that shows it | evidently intended | confidence | as-written member | corrected member |
|---|---|---|---|---|---|---|
| src/preview/browser/server.rs:133-158 | `Ok(0)` from `stream.read` (the peer has closed) adds nothing and the loop reads again. The exit channel is consulted only on `WouldBlock` (lines 138-142). | A client sends `GET / HTTP/1.1\r\n` and closes: the status is `Part(Good)`, and every later read returns `Ok(0)`; the handler never answers, never sees the exit signal and never returns. | A zero-byte read ends the handling of that connection. | not executed | BrowserServer.ZeroReadsNeverAnswer | BrowserServer.EofEndsHandling |
