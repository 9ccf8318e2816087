# Recovery graphics back end (graphics_cn.c) in Dafny

This project models the core of the minimal UI toolkit's graphics back end,
`minui/graphics_cn.c`, used by the Android recovery on MediaTek boards. The
file holds:

- the UTF-8 decoder `utf8_mbtowc`, which is table-driven;
- the glyph lookup `getCharID`, the measure `gr_measure` and the text loop
  `gr_text`;
- the decoder `gr_init_font`, which builds the glyph bitmaps from the
  compiled-in run-length font;
- the framebuffer set-up in `get_framebuffer` and `get_memory_surface`: the
  channel table, `ALIGN` and the stride, the overscan margins and the
  double-buffering decision;
- the publishing of a frame in `gr_flip` and `set_active_framebuffer`. A
  frame is toggled, turned 180 degrees on flipped panels, copied into the
  active buffer, and the panel is pointed at that buffer;
- `gr_color`, the display-split helpers, and `gr_fb_width`/`gr_fb_height`.

The files follow the source's structure:

| file | module | what it holds |
|---|---|---|
| `bits.dfy` | `Bits` | C's `&`, `\|` and `^` on naturals, and the laws the other modules use. |
| `utf8.dfy` | `Utf8` | `utf8_mbtowc`. A declarative `Decode` is the reference. The shortest encoding `Encode` is its partner, proved in both directions. The table loop `Utf8MbToWc` is proved equal to `Decode`. |
| `font.dfy` | `Font` | `gr_init_font`. The allocation loop and the run decoder are methods over arrays, proved against the decoded run stream. Also `getCharID` and `gr_measure`. |
| `text.dfy` | `Text` | `gr_text`. The drawing is kept as a trace: one rectangle per glyph, holding the glyph whose bitmap is bound as the texture. The loop is proved against a recursive `Layout`, and the properties of the drawing are proved about `Layout`. |
| `geometry.dfy` | `Geometry` | The pixel formats and their channels, `ALIGN`, the stride, the overscan, the display split and `gr_color`. |
| `display.dfy` | `Display` | A `Framebuffer` class: the screen information, the active-buffer index, the mapped memory and the memory surface as arrays. `Flip`, `SetActiveFramebuffer`, the in-place 180-degree turn and the copy are methods proved against `Rotated` and `Copied`. |

Integers are unbounded. Where a 32-bit wrap-around matters, it is written
out: the sum inside `ALIGN`, and the pointer arithmetic of the `gr_text`
finding below.

Strings are C strings. A string is the sequence of its bytes before the NUL.
The decoder sees those bytes followed by the NUL, with `n = strlen`.

## Model

| member | source | states |
|---|---|---|
| Bits.AndLow | minui/graphics_cn.c:331 | `a & (2^w - 1)` is `a mod 2^w`: the low-bit mask behind `(gr_active_fb + 1) & 1`, `data & 0x7f`, `& 0xFF` and the `lmask` rows. |
| Bits.AndHigh | minui/graphics_cn.c:56 | For `a < 2^n`, `a & (2^n - 2^w)` clears exactly the low `w` bits, i.e. it is `a - a mod 2^w`. This is the `~(align-1)` of ALIGN and the `cmask` test of the decoder table. |
| Bits.OrShifted | minui/graphics_cn.c:362-365 | When the low part fits below the shift, `(a << w) \| c` is the sum `a * 2^w + c`. |
| Bits.XorTop | minui/graphics_cn.c:410 | Xor with the top bit `2^w` of a `(w+1)`-bit value adds `2^w` modulo `2^(w+1)`: `*s ^ 0x80` flips bit 7. |
| Utf8.SeqLen | minui/graphics_cn.c:377-385 | The length a lead byte announces is 1..6, or 7 when the byte announces no form. |
| Utf8.Fault | minui/graphics_cn.c:407-412 | The continuation scan gives no fault only when it has passed its last position or the input ended past it. A fault is 0 or minus a position no greater than the last one examined. |
| Utf8.EncodeWith | minui/graphics_cn.c:377-385 | The form with `m` continuation bytes has `m + 1` bytes. |
| Utf8.Encode | minui/graphics_cn.c:377-385 | The `k`-byte form of a value up to the row's `lmask` has exactly `k` bytes. |
| Utf8.LeadFacts | minui/graphics_cn.c:377-385 | A byte announces `k` bytes exactly when it lies in the range of the row's marker (0x00, 0xC0, 0xE0, 0xF0, 0xF8, 0xFC). |
| Utf8.LeadSplit | minui/graphics_cn.c:377-385 | A lead byte is its marker plus its payload bits. |
| Utf8.EncodeWithBytes | minui/graphics_cn.c:377-385 | The encoding starts with a lead announcing `k` bytes, followed by continuation bytes, and its payload is the encoded value. |
| Utf8.FaultNone | minui/graphics_cn.c:407-412 | Present continuation bytes make the scan find nothing. |
| Utf8.FaultAllCont | minui/graphics_cn.c:407-412 | Conversely, when the scan finds nothing, every position it covered holds a present continuation byte. |
| Utf8.FaultZero | minui/graphics_cn.c:407-408 | The scan stops with 0 exactly when the input runs out before a non-continuation byte. |
| Utf8.DecodeEncode | minui/graphics_cn.c:389-416 | Round trip: the shortest `k`-byte form of `v`, followed by anything, decodes to `(k, v)` once `n >= k`. |
| Utf8.PayloadEncodes | minui/graphics_cn.c:398-413 | The bytes read so far are the encoding of their payload, and that payload fits the form. |
| Utf8.DecodeAccepts | minui/graphics_cn.c:389-416 | Converse round trip: whatever is accepted is, byte for byte, the shortest encoding of the value returned, and that value lies in the row's range `lval..lmask`. |
| Utf8.Accepted | minui/graphics_cn.c:400-405 | A success means a lead announcing `k <= 6` bytes, no fault in the `k - 1` after it, and a value not below `lval`. |
| Utf8.Completed | minui/graphics_cn.c:400-405 | Conversely, those three conditions make a success with the decoded value. |
| Utf8.DecodeAscii | minui/graphics_cn.c:398-405 | A byte below 0x80 decodes to itself, with length 1, whatever `n` is. |
| Utf8.DecodeZero | minui/graphics_cn.c:407-408 | The return value is 0 exactly when the form is cut short by `n`. |
| Utf8.DecodeOldValue | minui/graphics_cn.c:389-416 | The old content of `*p` affects nothing except the value left in `*p` on failure. |
| Utf8.DecodeBounds | minui/graphics_cn.c:389-416 | The return value lies in -6..6, and `*p` changes only on success. A success returns the announced length, which fits in `n` unless it is one byte. |
| Utf8.DecodeOverlong | minui/graphics_cn.c:401-403 | The overlong 0xC0 0x80 is refused with -2 and `*p` is kept. |
| Utf8.DecodeBadContinuation | minui/graphics_cn.c:410-412 | 0xE4 0xB8 'A' is refused with -2 at the non-continuation byte. |
| Utf8.TableEnd | minui/graphics_cn.c:377-385 | Only the sentinel row has a zero `cmask`, so the loop runs over at most six rows. |
| Utf8.RowFacts | minui/graphics_cn.c:377-385 | For the `(t+1)`-byte form, row `t`'s `cmask`, `cval`, `lmask` and `lval` are that form's marker mask, marker, maximum and minimum. |
| Utf8.RowMatches | minui/graphics_cn.c:400 | `(c0 & cmask) == cval` holds exactly when the lead byte announces `t + 1` bytes. |
| Utf8.ContStep | minui/graphics_cn.c:410-412 | `c = (*s ^ 0x80) & 0xFF` has a bit of 0xC0 set exactly for a non-continuation byte. For a continuation byte it is the byte's six payload bits. |
| Utf8.FlipTop | minui/graphics_cn.c:410 | `(b ^ 0x80) & 0xFF` is `(b + 0x80) mod 256`. |
| Utf8.HighTwo | minui/graphics_cn.c:411 | `c & 0xC0` is nonzero exactly when `c >= 64`. |
| Utf8.RawPayload | minui/graphics_cn.c:401-413 | Masking the accumulator keeps exactly the payload bits of the form. |
| Utf8.RowDecodes | minui/graphics_cn.c:400-405 | When row `t` matches, `l & lmask` is the form's value, `lval` is its minimum, and the loop's answer is the declarative one. |
| Utf8.ShiftIn | minui/graphics_cn.c:413 | `(l << 6) \| c` appends the six bits to the accumulator. |
| Utf8.DecodeStopped | minui/graphics_cn.c:407-412 | A scan that stops at `nc` gives 0 when the input ran out, and `-nc` at a non-continuation byte. |
| Utf8.ScanOn | minui/graphics_cn.c:409-413 | A continuation byte moves the scan on by one position. |
| Utf8.Decode | minui/graphics_cn.c:389-416 | The reference meaning of `utf8_mbtowc`: the lead byte announces a length; the scan of the following bytes returns 0 when `n` runs out first and `-j` at the first non-continuation byte `j`; a lead that announces no form gives -6; an overlong value gives minus its length; otherwise the length and the value, with `*p` changed only then. |
| Utf8.Utf8MbToWc | minui/graphics_cn.c:389-416 | The table loop returns exactly `Decode`'s return value and new `*p`, on every input, including truncation, bad continuations, overlong forms and bytes that announce no form. |
| Font.EndOfRuns | minui/graphics_cn.c:614 | The run loop stops at the first zero byte of the stream. |
| Font.Run | minui/graphics_cn.c:615-626 | A run byte gives `b & 0x7f` pixels, each 0xFF when bit 7 is set and 0 otherwise. |
| Font.ExpandOnOff | minui/graphics_cn.c:625 | Every decoded pixel is 0x00 or 0xFF. |
| Font.ExpandLength | minui/graphics_cn.c:615-616 | Each run byte lengthens the stream by its count. |
| Font.CellOnOff | minui/graphics_cn.c:625 | Every byte of every glyph bitmap is 0x00 or 0xFF. |
| Font.Locate | minui/graphics_cn.c:617-624 | The glyph `bmp` and byte `pos` of stream position `d`: within the 95 ASCII glyphs by division by `ewidth*eheight`, after them by division by `cwidth*cheight` plus 95. The byte always lies inside its glyph, and the glyph is an ASCII one exactly when `d < 95*ewidth*eheight`. |
| Font.LocatePos | minui/graphics_cn.c:617-624 | Every stream position below the capacity is sent to a byte `pos` of a glyph `bmp < count`, and that glyph byte has this position. |
| Font.PosLocate | minui/graphics_cn.c:617-624 | Locating the stream position of a glyph byte gives back that byte, so no byte is written from two positions. |
| Font.PosInjective | minui/graphics_cn.c:617-625 | Distinct glyph bytes have distinct stream positions. |
| Font.RunByte | minui/graphics_cn.c:615-625 | `data & 0x7f` is the count, and `data & 0x80` is nonzero exactly for bytes from 0x80. |
| Font.NewGlyph | minui/graphics_cn.c:598-611 | A fresh bitmap of the glyph's size, all zero. |
| Font.AllocGlyphs | minui/graphics_cn.c:598-611 | Glyph `n` gets a fresh, distinct, zeroed bitmap of `ewidth*eheight` bytes for `n < 95`, otherwise of `cwidth*cheight` bytes, and the matching width and height. |
| Font.DecodeRuns | minui/graphics_cn.c:612-628 | After the run loop, every glyph byte holds the decoded pixel at its stream position, or 0 past the last run. |
| Font.WriteRun | minui/graphics_cn.c:615-626 | The inner loop writes the pixels of one run byte at the next stream positions. |
| Font.WriteNext | minui/graphics_cn.c:617-625 | One pixel is written to the byte its position locates, and no other byte changes. |
| Font.ExpandStep | minui/graphics_cn.c:614-626 | Decoding one more run byte appends its run. |
| Font.ExpandPrefix | minui/graphics_cn.c:614-626 | The pixels decoded so far are a prefix of the whole stream. |
| Font.ExpandMonotone | minui/graphics_cn.c:614-626 | Decoding a prefix of the run bytes gives a prefix of the pixels. |
| Font.GrFont.Init | minui/graphics_cn.c:583-639 | The font as built: glyph `g` has `GlyphSize` bytes, each equal to `Cell`. Widths and heights are those of the glyph's class truncated to a byte. `count`, `unicodemap` and `ascent = cheight` are taken from the source font, and the font built meets what `getCharID`, `gr_measure` and `gr_text` require of it (`ValidView`). |
| Font.FirstMatch | minui/graphics_cn.c:424-428 | The first index mapped to the code point, or `count`. No earlier index matches. |
| Font.CharId | minui/graphics_cn.c:424-429 | The glyph of a code point is the first glyph mapped to it, or glyph 0 when none is. |
| Font.GetCharId | minui/graphics_cn.c:418-430 | `getCharID(s)` is the glyph of the code point decoded from `s`. When decoding fails, it is the glyph of whatever `unicode` held before. |
| Font.GrMeasure | minui/graphics_cn.c:451-464 | `gr_measure` decodes the first character of the string and returns 0 when the decoder returns `<= 0`, else the width of the glyph `getCharID` finds for it. A nonzero result is always the width of a glyph of the font and comes from a successful decode. |
| Font.MeasureFirstOnly | minui/graphics_cn.c:451-464 | `gr_measure` of the shortest encoding of `v` followed by anything is the width of `v`'s glyph. |
| Font.MeasureEmpty | minui/graphics_cn.c:451-464 | The empty string is measured as its NUL, a one-byte character 0. |
| Font.MeasureStray | minui/graphics_cn.c:458-461 | A string that starts with a continuation byte measures 0. |
| Text.VerdictAt | minui/graphics_cn.c:496 | The table of verdicts holds, at each cursor, the decoder's result on the rest of the string. |
| Text.VerdictsFit | minui/graphics_cn.c:496-499 | No verdict claims bytes past the terminator. |
| Text.VerdictAscii | minui/graphics_cn.c:496 | At a byte below 0x80 the verdict is a one-byte character of that value. |
| Text.LayoutDraws | minui/graphics_cn.c:500-510 | At a character that decodes, the drawing is its glyph's cell at the pen, followed by the rest drawn with the pen advanced by the glyph width. |
| Text.CursorVerdict | minui/graphics_cn.c:495-496 | Whatever the uninitialised outputs held, the loop's `n` is the table's verdict. On success, `off` is the glyph of the verdict's code point. |
| Text.ReadChar | minui/graphics_cn.c:495-496 | The two calls at a printable byte return the verdict and, on success, its glyph, which is a glyph of the font. |
| Text.GrText | minui/graphics_cn.c:472-514 | The loop draws exactly `Drawing` of the string from the pen at `(x + overscan_x, y + overscan_y - ascent)`, and returns the pen where `Drawing` leaves it. It is the loop with the intended stop of "## Findings": it ends at the first character whose decoder result is `<= 0` as a signed value; the loop as written, with `n` unsigned, is `Text.StepAsWritten`. |
| Text.LayoutCells | minui/graphics_cn.c:500-509 | Every rectangle is a glyph of the font, on the pen's line, with that glyph's width and height. |
| Text.LayoutAbuts | minui/graphics_cn.c:509-510 | The rectangles follow one another left to right without gap or overlap. The first starts at the pen, and the returned pen is where the last ends. |
| Text.LayoutAdvance | minui/graphics_cn.c:510-513 | The returned pen is the start plus the sum of the drawn widths. |
| Text.LayoutControls | minui/graphics_cn.c:491-494 | Control bytes draw nothing and leave the pen where it was. |
| Text.LayoutAscii | minui/graphics_cn.c:490-511 | Printable ASCII is drawn byte for byte: one rectangle per byte, with the glyph mapped to that byte. |
| Text.DrawingMeasure | minui/graphics_cn.c:451-464 | For a string starting with a printable byte, `gr_measure` is the width of the first rectangle `gr_text` draws, and 0 exactly when it draws nothing. |
| Text.LayoutAppend | minui/graphics_cn.c:490-511 | Drawing `a + b`, with `a` printable ASCII and control bytes, is `a`'s drawing followed by `b`'s drawn from where `a` left the pen. |
| Text.Step | minui/graphics_cn.c:490-499 | One pass of the loop as intended moves the cursor strictly forward, never past the end, and stops exactly at a printable byte that does not decode. |
| Text.LayoutSteps | minui/graphics_cn.c:490-511 | The drawing walks the string by `Step`: nothing is drawn where `Step` stops, and otherwise the rest is drawn from `Step`'s cursor. |
| Text.LayoutStep | minui/graphics_cn.c:490-511 | The same, for any table of verdicts. |
| Text.StepAsWritten | minui/graphics_cn.c:476-499 | The loop as written, with `n` unsigned, stops only at a verdict of 0. |
| Text.StepAsWrittenAgrees | minui/graphics_cn.c:476-499 | Where the character decodes or is a control byte, the loop as written steps as the intended one does. |
| Text.StepAsWrittenCycles | minui/graphics_cn.c:476-499 | On "A" 0xC3 '(' the loop as written goes back from cursor 1 to cursor 0. The intended loop stops there and draws one glyph. |
| Geometry.PixelSize | minui/graphics_cn.c:43-53 | A pixel is 2 or 4 bytes. |
| Geometry.ChannelsOf | minui/graphics_cn.c:143-184 | The channel offsets and lengths requested for each format: BGRA and RGBX put 8-bit channels at 8/16/24 and 24/16/8 with transparency at 0, RGB 565 uses 11/5, 5/6 and 0/5 with no transparency. |
| Geometry.ChannelsTile | minui/graphics_cn.c:143-184 | In every format, the requested channels lie inside the pixel, do not overlap, and together use every bit. |
| Geometry.Align | minui/graphics_cn.c:56 | `ALIGN(x, 2^w)` on a 32-bit unsigned `x`: the sum `x + 2^w - 1` taken modulo 2^32, masked with `~(2^w - 1)`. Whatever `x` is, the result is a multiple of `2^w` below 2^32. |
| Geometry.AlignMultiple | minui/graphics_cn.c:56 | Without wrap-around, `ALIGN(x, 2^w)` is a multiple of `2^w` in `[x, x + 2^w)`. |
| Geometry.AlignLeast | minui/graphics_cn.c:56 | ... and it is at or below every multiple of `2^w` that is not below `x`. |
| Geometry.AlignValue | minui/graphics_cn.c:56 | Without wrap-around, ALIGN is `x + 2^w - 1` with its low `w` bits cleared. |
| Geometry.AlignNoWrap | minui/graphics_cn.c:56 | Without wrap-around, ALIGN masks the sum itself. |
| Geometry.TopMask | minui/graphics_cn.c:56 | The 32-bit `~(2^w - 1)` clears the `w` low bits of a 32-bit value. |
| Geometry.AlignWraps | minui/graphics_cn.c:56 | For `x` within 31 of `2^32`, the unsigned sum wraps and `ALIGN(x, 32)` is 0. |
| Geometry.OverlayStride | minui/graphics_cn.c:205-214 | With an overlay, the stride is the width rounded up to a multiple of 32 pixels. It is at least the width and less than 32 pixels more. |
| Geometry.OverscanOffset | minui/graphics_cn.c:208-209 | The overscan margin of one side: the size times the percentage, over 100, rounded down. |
| Geometry.Usable | minui/graphics_cn.c:709-717 | `gr_fb_width`/`gr_fb_height`: the size less one margin on each side, as a signed value. |
| Geometry.UsableBounds | minui/graphics_cn.c:709-717 | Up to 50 percent overscan, the usable size is between 0 and the full size. It is the full size at 0 percent, and does not grow as the percentage grows. |
| Geometry.LeftSplit | minui/graphics_cn.c:271-280 | `getLeftSplit`: the left split the driver published when it is nonzero, otherwise half the width rounded down. |
| Geometry.IsDisplaySplit | minui/graphics_cn.c:286-294 | `isDisplaySplit`: the width is above `MAX_DISPLAY_DIM` (2048), or the driver published a nonzero right split. |
| Geometry.SplitDefaults | minui/graphics_cn.c:271-294 | With nothing published by the driver, the left split is half the width and the display splits exactly above 2048 pixels. |
| Geometry.LeftSplitPublished | minui/graphics_cn.c:271-280 | A nonzero left split published by the driver is used as is, whatever the width. |
| Geometry.RightSplitPublished | minui/graphics_cn.c:286-294 | A nonzero right split published by the driver makes any display split, whatever the width. |
| Geometry.Expand | minui/graphics_cn.c:362-365 | One channel of `gr_color`: `((c << 8) \| c) + 1`, with the shift and the or written out. |
| Geometry.GrColor | minui/graphics_cn.c:358-367 | `gr_color(r, g, b, a)`: the vector of the four expanded channels, in the order red, green, blue, alpha, that is passed to `color4xv`. |
| Geometry.ExpandLinear | minui/graphics_cn.c:362-365 | `((c << 8) \| c) + 1` is `257c + 1`. |
| Geometry.ExpandValue | minui/graphics_cn.c:362-365 | 0 becomes 1 and 255 becomes 0x10000, the fixed-point 1.0. The expansion keeps the order of channel values. |
| Geometry.GrColorFaithful | minui/graphics_cn.c:358-367 | Distinct colours give distinct colour vectors, and every component lies in `1..0x10000`. |
| Display.Mirror | minui/graphics_cn.c:339-345 | The source index of a byte under the turn stays inside the turned pixels, and bytes past them stay where they are. |
| Display.PixelOf | minui/graphics_cn.c:339-345 | A byte inside the first `n` pixels lies in pixel `k / ps < n`, and its mirror lies inside too. |
| Display.MirrorPixel | minui/graphics_cn.c:341-343 | Byte `j` of pixel `p` comes from byte `j` of pixel `n - 1 - p`. |
| Display.MirrorTwice | minui/graphics_cn.c:339-345 | Mirroring twice gives back the byte. |
| Display.RotatedPixel | minui/graphics_cn.c:341-343 | In a turned surface, byte `j` of pixel `p` is byte `j` of pixel `n - 1 - p` of the old surface. |
| Display.RotateTwice | minui/graphics_cn.c:333-346 | Turning the surface twice gives back the surface. |
| Display.SwapPixels | minui/graphics_cn.c:340-344 | The inner loop exchanges pixel `[lo, lo+ps)` with pixel `[hi, hi+ps)` byte for byte and changes nothing else. |
| Display.Turned | minui/graphics_cn.c:339-345 | The partly turned index map stays inside the turned pixels. |
| Display.PixelOffsets | minui/graphics_cn.c:341-343 | The loop's offset `xres_virtual*yres*PS - (i+1)*PS` is the start of pixel `n - 1 - i`, which lies after pixel `i` for `i < n/2`. |
| Display.TurnStep | minui/graphics_cn.c:339-345 | One pass of the outer loop turns one more pixel at each end. |
| Display.TurnFront | minui/graphics_cn.c:341-343 | The bytes of pixel `i` go to the untouched pixel `n - 1 - i`. |
| Display.TurnBack | minui/graphics_cn.c:341-343 | The bytes of pixel `n - 1 - i` go to the untouched pixel `i`. |
| Display.TurnElsewhere | minui/graphics_cn.c:339-345 | Bytes outside the two pixels keep their place. |
| Display.TurnDone | minui/graphics_cn.c:339 | When `i` reaches `n/2`, at most the middle pixel is left, and it is its own mirror. |
| Display.TurnNone | minui/graphics_cn.c:339 | Before the loop nothing is turned. |
| Display.TurnExtends | minui/graphics_cn.c:339-345 | The exchange extends the loop invariant from `i` to `i + 1`. |
| Display.TurnFinished | minui/graphics_cn.c:339-345 | The invariant at `n/2` is the full turn. |
| Display.TurnPixel | minui/graphics_cn.c:339-345 | One pass of the outer loop keeps the invariant. |
| Display.Rotate180 | minui/graphics_cn.c:339-345 | The surface afterwards is the old one with its first `xres_virtual*yres` pixels in reverse order. Each pixel keeps its byte order and the rest is unchanged. |
| Display.CopyInto | minui/graphics_cn.c:350-351 | The memcpy puts the whole surface at `start` and leaves the other bytes of the framebuffer memory as they were. |
| Display.Toggle | minui/graphics_cn.c:330-331 | `(n + 1) & 1` turns 0 into 1 and 1 into 0, so two flips restore the index. |
| Display.PixelsFit | minui/graphics_cn.c:338-339 | The bytes the turn touches never exceed one frame. |
| Display.Framebuffer.Init | minui/graphics_cn.c:100-249 | Set-up and its effect on the state. The line length is the reported one, or `ALIGN(xres, 32) * PS` with an overlay. Double buffering holds exactly when `2 * yres * line_length <= smem_len`. The overscan margins are `size * percent / 100`. Without an overlay, the bpp and the channel layout of `Geometry.ChannelsOf` are written into the screen information. The frames the source memsets, one or both when double buffered, are zero; the rest of the mapped memory keeps its content; the surface holds what `malloc` returned. When double buffered without an overlay, buffer 0 is shown at yoffset 0; otherwise the screen information keeps the driver's yoffset, as `set_active_framebuffer` returns early. |
| Display.Framebuffer.SetActiveFramebuffer | minui/graphics_cn.c:304-313 | `n > 1`, or no double buffering, changes nothing. Otherwise the virtual height becomes two frames, `yoffset = n * yres`, the bpp is set, and the panel scans out from buffer `n`. |
| Display.Framebuffer.Flip | minui/graphics_cn.c:315-356 | With an overlay, nothing modelled changes. Otherwise: the active index toggles when double buffered; a flipped panel's surface is turned 180 degrees and `xres_virtual` becomes the stride; the surface is copied into the active buffer with nothing else overwritten; and, when double buffered, the panel scans out from that buffer. Single buffered, the screen information keeps its yoffset. |
| Display.Framebuffer.TurnSurface | minui/graphics_cn.c:333-346 | The flipped-screen block: `xres_virtual = line_length / PS`, and the surface is turned. |
| Display.Framebuffer.FbWidth | minui/graphics_cn.c:709-712 | `xres - 2 * overscan_x`, which lies between 0 and `xres` up to 50 percent overscan. |
| Display.Framebuffer.FbHeight | minui/graphics_cn.c:714-717 | `yres - 2 * overscan_y`, which lies between 0 and `yres` up to 50 percent overscan. |

## Left out

- Device and driver I/O is not modelled: opening `/dev/graphics/fb0` and `/dev/tty0`, the ioctls, `mmap`, the error returns of failed calls, `gr_init`, `gr_exit` and `gr_fb_blank`. The screen information and the line length are parameters of `Display.Framebuffer.Init`. They are taken as the driver reports them; the driver's adjustments after `FBIOPUT_VSCREENINFO` are not modelled.
- The overlay and ION calls (`allocate_overlay`, `overlay_display_frame`, `free_overlay`, `alloc_ion_mem`) are code outside this file. With an overlay, `Display.Framebuffer.Flip` changes nothing the model holds.
- The pixel-pipeline calls of `gr_text` (texture set-up, `bindTexture`, `texCoord2i`, `recti`) are recorded as one `Rect` per glyph: the glyph bound as the texture and the rectangle filled. `gr_color` gives the colour vector passed to `color4xv`; `gr_fill`, `gr_blit`, `gr_texticon`, `gr_get_width`/`gr_get_height` and `gr_fb_data` are not modelled.
- `setDisplaySplit` reads a sysfs file. The left and right splits it publishes are parameters of `Geometry.LeftSplit` and `Geometry.IsDisplaySplit`.
- `gr_font_size` and the commented-out multi-character `gr_measure` are not modelled.
- The build-time macros `PIXEL_FORMAT`/`PIXEL_SIZE`, `BOARD_HAS_FLIPPED_SCREEN` and `OVERSCAN_PERCENT` are constants of each `Framebuffer` (`format`, `flipped`, `overscanPercent`).
- The BGR 565 channel order is not modelled. Lines 42-53 define `RECOVERY_RGB_565` exactly in the 565 build, so lines 170-175 are compiled only into BGRA/RGBX builds, where the 565 branch they sit in is never taken: they never run.
- `Display.Framebuffer.Init` does not model 32-bit overflow of `yres * line_length * 2` in the double-buffering test, nor of `line_length * yres`. Sizes are unbounded naturals there, and it requires the reported frame to fit in `smem_len` (the source would write past the mapping otherwise).
- Text.GrText: the pen `x` is an unbounded integer; its 32-bit overflow is not modelled. The loop stops at the first decoder result `<= 0` taken as signed, the intended behaviour of "## Findings"; the source compares the unsigned `n` and so stops only at 0, and on a string with an undecodable character, such as "A" 0xC3 '(', it moves back and never ends on a 32-bit target. That endless loop is modelled only one step at a time, by `Text.StepAsWritten` and `Text.StepAsWrittenCycles`.
- Font.GrFont.Init: the stream position `d` and the products `95*ewidth*eheight` are unbounded, so their 32-bit wrap-around is not modelled. The constructor requires a font shaped as the compiled-in fonts are: non-empty glyph sizes, at least 95 glyphs, a code point for every glyph, a terminated run stream, and runs that fit in the bitmaps. The source needs less: it divides by zero only when `cwidth*cheight == 0` and the runs pass the 95 ASCII glyphs, and it writes outside the bitmaps only when the runs exceed the space allocated. Fonts outside the requires that the source would still decode safely, such as one with fewer than 95 glyphs and short runs, are not modelled.
- The content of the mapped framebuffer memory and of the memory `malloc` returns for the surface are parameters of `Display.Framebuffer.Init`: the source clears only the frames it memsets, and the model promises nothing else about them.
- Font.GetCharId and Text.GrText: the uninitialised `unicode`/`ch` variables are the parameter `stale`. The results are proved independent of it wherever the source's result is.
- Bytes are read as unsigned. Every use of `c0`, `l` and `*s` in the decoder is masked below bit 8 or by `lmask`, so a signed `char` gives the same results.
- `wchar_t` is unbounded here. The decoder's table masks every value below 2^31, so the 32-bit accumulator and the unbounded one agree.

## Findings

| source | as written | input that shows it | evidently intended | confidence | as-written member | corrected member |
|---|---|---|---|---|---|---|
| minui/graphics_cn.c:476-499 | `n` is `unsigned`, so `n <= 0` catches only 0. A negative decoder result, as `2^32 + ret`, is added to `s`, and on a 32-bit target the cursor moves back by `-ret` bytes. | The C string "A" 0xC3 '(' goes from cursor 0 to 1 and back to 0 forever. Each backward step still runs the drawing lines after `s += n`, so it draws the glyph of the stale `ch`/`unicode` and advances `x`: the loop alternates "A" with that glyph without end. | Stop drawing at the first character that does not decode (`ret <= 0`), as the `n <= 0` test itself and `gr_measure`'s `l <= 0` check show. | not executed | Text.StepAsWrittenCycles | Text.Step, Text.GrText |
