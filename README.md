# LED matrix driver and web control, modelled in Dafny

The firmware drives an 88×88 RGB LED panel from an ESP32. It has two parts. This project models both and proves properties of them.

**The panel driver (`LedMatrix`).**
- The driver keeps a frame buffer of 88×88 pixels, each three 16-bit channels.
- It draws text into the buffer.
- It pushes the buffer to the panel's shift-register chips by bit-banging 13 GPIO lines (`src/led_matrix.rs`).

**The HTTP handler (`handle_request`).**
- It picks a response page for a request.
- For the text and clear routes, it also extracts and URL-decodes the message to show (`src/http_server.rs`).

## How the model is built

`Gpio` (gpio.dfy) covers the lines and what the chips make of them.
- Every pin write is one `Event`: a pin and a level.
- `LedMatrix.trace` records every write since power-up.
- `Ops` replays a trace against a small model of the chips and yields what they received:
  - `Cmd(n)`: LE was high over `n` rising DCLK edges;
  - `Shift(word)`: a rising DCLK edge shifted in the six data lines while LE was low;
  - `Scan(row)`: a rising GCLK edge on the scanline addressed by A0..A3.
- `Concat` and `JoinOps` let the effect of a trace be computed piece by piece, loop iteration by loop iteration.

`Protocol` (protocol.dfy) gives each protocol routine of the driver as a function building its event trace.
- Each function follows the routine's own loops, one iteration appended per step.
- The lemmas state what the chips receive from each trace: the opcode of a command, the bits of the configuration word in order, the placement of every pixel bit among the data shifts, and the Vsync position in a refresh.

`Matrix.LedMatrix` (led_matrix.dfy) is the driver itself, as a class.
- The frame buffer is an `array2<Pixel>`.
- `trace`, `currentScanline` and `initialized` are fields.
- Every protocol method is proved to append exactly the trace `Protocol` defines for it.
- The frame-buffer methods are proved cell by cell.
- `display_text` is proved against `Text.TextPixel`, a definition of which cells the text lights.

`Text` (text.dfy) covers glyph placement and truncation.
- The font is a parameter: a cell width, a cell height, and a lookup that may find no glyph for a character.

`Http` (http.dfy) covers `handle_request` on the decoded characters.
- The routes are pure functions.
- The decoding loop is a method proved equal to the recursive `Decode`.
- `Decode` is proved to be the prefix of the uncapped pushes (`Pushes`) that fits in the 32-byte capacity, to copy plain text, and to invert percent-encoding.

`Bits`, `Seqs`, `Panel` and `Wrappers` hold shared definitions:
- `u16` and bit extraction;
- concatenating the iterations of a constant-bound loop;
- the panel size (88×88 from `src/main.rs:29-30`) and pixels;
- `Option`.

### Where the code differs from its own description

The model follows the code. In these places it departs from the repository's description and comments.

**`send_scanline_data`**
- It skips every column at or past 88 (`src/led_matrix.rs:402-404`), so a scanline is 88 × 16 = 1408 DCLK pulses, not 22 × 16 × 16 = 5632. The comment at `src/led_matrix.rs:391-392` says all 22 chips are sent.
- Its latch branch (`src/led_matrix.rs:479`) needs column 351, which is always skipped. LE is therefore never raised while data is shifted (`Protocol.ScanlineNeverRaisesLe`), and the chips receive no latch command from it.
- Only rows `8 s` and `8 s + 44` are sent for scanline `s`. Chain 2 is sent zeros for `s ≥ 6`, when `8 s + 44` is past the bottom row.

**`handle_request`**
- The second prefix test, `"GET / HTTP"`, can never change the outcome, because every such request also starts with `"GET / "` (`Http.RootPrefixes`).
- `%XX` decodes to the single character with code `0xXX` (`char::from_u32`). A multi-byte UTF-8 sequence sent as several escapes therefore becomes several Latin-1 characters, not one character.

## Model

| member | source | states |
|---|---|---|
| Matrix.LedMatrix.constructor | src/led_matrix.rs:104-141 | the frame buffer starts all black, the scanline at 0, and the trace is exactly `init`'s, after which the driver is initialised and the lines are quiet |
| Matrix.LedMatrix.Init | src/led_matrix.rs:144-172 | appends all-pins-low, Reset, PreActive and the configuration 0x001F, sets `initialized`, and leaves the lines quiet whatever state they were in |
| Matrix.LedMatrix.SendCommand | src/led_matrix.rs:175-188 | appends LE high, `Opcode(cmd)` DCLK pulses, LE low |
| Matrix.LedMatrix.SendConfig | src/led_matrix.rs:191-215 | appends the WriteConfig command (4 pulses), the 16-bit shift loop and the DataLatch command |
| Matrix.LedMatrix.ShiftConfig | src/led_matrix.rs:200-209 | appends, for bit 15 down to 0 of `v`, DR1 set to that bit followed by one DCLK pulse |
| Matrix.LedMatrix.PulseDclk | src/led_matrix.rs:219-230 | appends DCLK high then DCLK low |
| Matrix.LedMatrix.PulseGclkN | src/led_matrix.rs:234-246 | appends `count` GCLK pulses, each GCLK high then low |
| Matrix.LedMatrix.SetScanline | src/led_matrix.rs:249-271 | appends A0..A3 set to bits 0..3 of `scanline as u8` |
| Matrix.LedMatrix.Clear | src/led_matrix.rs:274-280 | every cell is black afterwards, whatever it held |
| Matrix.LedMatrix.SetPixel | src/led_matrix.rs:283-287 | cell `[y, x]` takes the colour when `x < 88 && y < 88`; every other cell, and that cell when off the panel, is unchanged |
| Matrix.LedMatrix.FillRect | src/led_matrix.rs:290-305 | exactly the cells with `x1 ≤ x ≤ min(x2, 87)` and `y1 ≤ y ≤ min(y2, 87)` take the colour; all others are unchanged (so an empty range changes nothing) |
| Matrix.LedMatrix.DisplayText | src/led_matrix.rs:308-325 | afterwards every cell is `Text.TextPixel(font, text, x, y)`: white where a drawn glyph lights it, black elsewhere, independent of the buffer's earlier contents |
| Matrix.LedMatrix.DrawChar | src/led_matrix.rs:328-338 | exactly the cells under non-zero glyph cells, offset by `(x, y)`, take the colour; a character without a glyph changes nothing |
| Matrix.LedMatrix.Refresh | src/led_matrix.rs:346-380 | uninitialised: nothing is written and nothing changes; initialised: appends the data for all 11 scanlines then the multiplex cycle, advances `currentScanline` modulo 11, and keeps the lines quiet |
| Matrix.LedMatrix.SendFrameData | src/led_matrix.rs:352-356 | appends `send_scanline_data(s)` for `s` = 0..10, in order |
| Matrix.LedMatrix.ScanAll | src/led_matrix.rs:358-377 | appends the 11 iterations of the multiplex loop, in order |
| Matrix.LedMatrix.ScanCycle | src/led_matrix.rs:359-375 | appends the address of scanline `s`, 256 GCLK pulses, Vsync when `s` is 10, then one more GCLK pulse |
| Matrix.LedMatrix.SendScanlineData | src/led_matrix.rs:383-493 | appends the chip loop, then the bit loop from 15 down to 0, then the LED loop, over the frame buffer's current contents |
| Matrix.LedMatrix.SendLeds | src/led_matrix.rs:400-488 | appends the LED loop of one chip and bit, with columns past the panel skipped |
| Matrix.LedMatrix.SendLed | src/led_matrix.rs:406-487 | appends the six data lines, LE high on the very last LED only, a DCLK pulse, then LE low |
| Matrix.LedMatrix.WriteData | src/led_matrix.rs:447-476 | appends exactly the six data-line writes `dr1, dg1, db1, dr2, dg2, db2`, each high for a set bit; afterwards the six lines hold that word and the chips receive nothing yet (`WordEventsOps`) |
| Matrix.LedMatrix.RaiseLeIf | src/led_matrix.rs:478-481 | appends an LE-high write exactly when the bit is the last of the last LED of the last chip, and nothing otherwise |
| Matrix.LedMatrix.ReadBits | src/led_matrix.rs:406-444 | the six data bits are bit `bit` of row `8 s` and of row `8 s + 44`, with zeros when the lower row is past the panel |
| Matrix.LedMatrix.SetAllPinsLow | src/led_matrix.rs:496-510 | appends the 13 lines driven low, in declaration order |
| Matrix.LedMatrix.Teardown | src/led_matrix.rs:514-518 | the buffer is all black and the trace gains all-pins-low |
| Protocol.Opcode | src/led_matrix.rs:47-54 | the discriminants of `Command` — 1, 2, 4, 10, 14 — as the number of DCLK pulses sent under LE; `CommandOps` proves the chips receive that number |
| Protocol.CommandOps | src/led_matrix.rs:175-188 | from quiet lines, the chips receive exactly one command, whose opcode is `cmd as u8` (1, 2, 4, 10, 14), and the lines end as they began |
| Protocol.LatchedPulsesOps | src/led_matrix.rs:180-182 | while LE is high, `n` DCLK pulses are only counted and shift nothing |
| Protocol.GclkPulsesOps | src/led_matrix.rs:234-246 | `n` GCLK pulses are `n` scan clocks of the addressed scanline and change no line |
| Protocol.ConfigOps | src/led_matrix.rs:191-215 | from quiet lines, the chips receive WriteConfig, 16 shifts whose DR1 is bit `15 - i` of `v` in shift `i` (the other lines unchanged), then DataLatch |
| Protocol.ConfigRoundTrip | src/led_matrix.rs:200-209 | the red bits chain 1 receives from `send_config(v)`, read most significant first, are exactly `v` |
| Protocol.ConfigPulses | src/led_matrix.rs:191-215 | `send_config` makes 21 rising DCLK edges: 4, then 16, then 1 |
| Protocol.AddressOps | src/led_matrix.rs:249-271 | the address lines afterwards select scanline `s mod 16` (bits 0..3 of `s as u8`), nothing is clocked, and the other lines are unchanged |
| Protocol.ScanlineOps | src/led_matrix.rs:383-493 | from quiet lines, exactly 1408 shifts and nothing else; the shift at `DataSlot(col, bit)` carries bit `bit` of column `col` of rows `8 s` and `8 s + 44`, forced low for `s ≥ 6` |
| Protocol.ScanlineNeverRaisesLe | src/led_matrix.rs:478-481 | the trace of `send_scanline_data` never drives LE high: the latch branch is unreachable |
| Protocol.DataSlotRoundTrip | src/led_matrix.rs:396-404 | the slot of a (column, bit) pair, in the order chip, then bit 15 down to 0, then LED, gives that column and that bit back |
| Protocol.SlotRoundTrip | src/led_matrix.rs:396-404 | every one of the 1408 slots is the slot of the (column, bit) pair it names, so the slots cover a scanline's shifts exactly |
| Protocol.DataSlotInjective | src/led_matrix.rs:396-404 | no two (column, bit) pairs share a slot |
| Protocol.ScanStepOps | src/led_matrix.rs:358-377 | one multiplex iteration gives 256 scan clocks of row `s`, a Vsync after row 10's clocks, then one more clock of row `s` |
| Protocol.RefreshOps | src/led_matrix.rs:346-380 | a refresh gives 18316 operations: 15488 data shifts, each (scanline, column, bit) at `DataIndex`, then 2570 clocks of rows 0..9 (257 each), 256 of row 10, Vsync, and the last clock of row 10; the lines end quiet |
| Protocol.RefreshVsyncOnce | src/led_matrix.rs:346-380 | in a refresh, the only command is the Vsync at position 18314, and the scan clocks are exactly the other positions after the data (2827 of them) |
| Protocol.AllPinsLowOps | src/led_matrix.rs:496-510 | from any state, all 13 lines end low; a command in progress (LE high) is completed by LE falling, otherwise nothing is received |
| Protocol.InitConfigOps | src/led_matrix.rs:160-167 | the configuration 0x001F reaches the chips as WriteConfig, eleven zero bits then five one bits on chain 1's red line, then DataLatch |
| Protocol.InitOps | src/led_matrix.rs:144-172 | from any state: any pending command is ended, then Reset, PreActive and the configuration are received, and the lines end quiet |
| Protocol.InitPulses | src/led_matrix.rs:144-172 | `init` from LE low makes 45 rising DCLK edges: 10 + 14 + 21 |
| Text.StartY | src/led_matrix.rs:315 | the centred top edge leaves the whole glyph height on the panel |
| Text.ShownFrom | src/led_matrix.rs:318-324 | drawing stops at the end of the text or at the first glyph whose cursor is at or past `88 - w`, and every glyph before it is drawn |
| Text.LitByIff | src/led_matrix.rs:318-338 | a cell is lit exactly when one of the drawn glyphs `k`, at `(4 + k (w + 1), (88 - h) / 2)`, has a non-zero cell over it |
| Text.CursorFits | src/led_matrix.rs:319 | glyph `k` passes the width test exactly when `k < (88 - 4) / (w + 1)` |
| Text.ShownCount | src/led_matrix.rs:316-324 | the number of glyphs drawn is `min(|text|, (88 - 4) / (w + 1))`: it depends on the width and the length only |
| Text.FiveWideShowsFourteen | src/http_server.rs:83 | with a 5-column font at most 14 characters are shown, matching the text box's `maxlength` |
| Text.ShownOnPanel | src/led_matrix.rs:319-322 | the cell box of every drawn glyph lies on the panel |
| Text.LitOnPanel | src/led_matrix.rs:318-338 | every cell a shaped font lights lies on the panel: `set_pixel` never clips text |
| Text.LitInBand | src/led_matrix.rs:315-338 | with glyphs no bigger than the font's cell, lit cells lie in the centred band of rows and right of the margin |
| Text.TruncatedAlike | src/led_matrix.rs:318-321 | texts agreeing on their first `(88 - 4) / (w + 1)` characters render alike: what truncation cuts off never shows |
| Text.GlyphlessInterchangeable | src/led_matrix.rs:322-329 | a character without a glyph draws nothing yet keeps the later glyphs in place |
| Text.LitBy | src/led_matrix.rs:318-338 | a cell is lit by the first `n` glyphs, each `draw_char` at its cursor; `LitByIff` states it as: some glyph `k < n` has a non-zero cell at that offset |
| Text.TextPixel | src/led_matrix.rs:308-338 | the frame after `display_text`: white exactly on the cells the shown glyphs light (`LitByIff`, `ShownCount`), black elsewhere and everywhere for the empty text (`EmptyTextBlack`) |
| Text.EmptyTextBlack | src/led_matrix.rs:308-312 | the empty text leaves every cell black |
| Http.Find | src/http_server.rs:136 | `str::find`: the first index where the pattern occurs, `None` exactly when it occurs nowhere (`FindFirst`) |
| Http.Contains | src/http_server.rs:134 | `str::contains`: the pattern occurs somewhere (`FindFirst`) |
| Http.FindFirst | src/http_server.rs:136 | `find` gives the first occurrence, and none exactly when there is none |
| Http.MessageEnd | src/http_server.rs:141 | the message ends at the first `' '`, `'\r'` or `'\n'`, or at the end of the input |
| Http.HexValue | src/http_server.rs:152 | `to_digit(16)`: a value below 16, given for exactly the upper- and lower-case hex digits (`HexValueIff`) |
| Http.HexValueIff | src/http_server.rs:152 | `to_digit(16)` gives `v` exactly when `v < 16` and the character is the upper- or lower-case digit for `v` |
| Http.LowerHexDigit | src/http_server.rs:152 | the lower-case digit for a value below 16 reads back as that value |
| Http.NextToken | src/http_server.rs:149-166 | each decoding step consumes at least one and at most the remaining characters |
| Http.DecodeOnto | src/http_server.rs:149-166 | the loop continued from a partial output: appends the longest prefix of the uncapped pushes that fits (`DecodeOntoPushes`) and never passes 32 bytes (`DecodeOntoFits`) |
| Http.Decode | src/http_server.rs:146-167 | the decoded message: the prefix of the uncapped pushes cut where the next character would not fit (`DecodeCutOff`), the text back for an encoded Latin-1 text (`DecodeEncode`) |
| Http.UrlDecode | src/http_server.rs:146-167 | the decoding loop, pushing into a bounded string and stopping at the first character that does not fit, computes `Decode` |
| Http.DecodeOntoFits | src/http_server.rs:146-166 | the decoder never pushes past 32 UTF-8 bytes |
| Http.TextRoute | src/http_server.rs:134-170 | a message is extracted exactly when the request contains `GET /text?msg=`: the route implies a `msg=` is found |
| Http.DecodedFits | src/http_server.rs:134-169 | whatever the request, a decoded message fits in 32 UTF-8 bytes |
| Http.DecodePlain | src/http_server.rs:164-166 | text with no `%` or `+` is copied up to the first character that would overflow the capacity, and copied whole when it fits |
| Http.EscapeCost | src/http_server.rs:150-157 | a well-formed escape `%hl` consumes three characters and pushes the character with code `16 h + l`, which takes one UTF-8 byte below 0x80 and two from 0x80 on |
| Http.DecodeOntoPushes | src/http_server.rs:149-166 | from any partial output, the decoder appends a prefix of the uncapped pushes, stopping only where the next push would overflow |
| Http.DecodeCutOff | src/http_server.rs:146-166 | for every input, the decoded message is a prefix of the characters the loop would push without a capacity, fits in 32 bytes, is cut only where the next character would not fit, and is everything when everything fits |
| Http.PushesPlain | src/http_server.rs:164-166 | without `%` or `+` the loop would push the text itself |
| Http.LowerEscapeAlike | src/http_server.rs:151-153 | an escape with lower-case digits decodes exactly like the same escape with upper-case digits |
| Http.MalformedEscape | src/http_server.rs:150-158 | a `%` not followed by two hex digits consumes up to two more characters and pushes nothing |
| Http.HexDigit | src/http_server.rs:152 | the digit for a value below 16 reads back as that value |
| Http.DecodeEncode | src/http_server.rs:149-166 | round trip: decoding the form-encoding of a Latin-1 text that fits gives the text back (`+` for space, `%HH` for reserved characters) |
| Http.PushesEncode | src/http_server.rs:149-166 | the uncapped pushes of the form-encoding of a Latin-1 text are the text |
| Http.DecodeEncodePrefix | src/http_server.rs:149-166 | decoding the form-encoding of any Latin-1 text gives a prefix of the text, cut only where the next character would not fit |
| Http.HandleRequest | src/http_server.rs:123-180 | not-found exactly when the request neither starts with `GET / ` nor names the text or clear route; not-found carries no message; a message always fits in 32 UTF-8 bytes |
| Http.HandleBytes | src/http_server.rs:125 | `from_utf8(..).unwrap_or("")`: valid text is handled as is, invalid bytes as the empty request, which is not found (`InvalidUtf8NotFound`) |
| Http.RootFirst | src/http_server.rs:128-131 | a request starting `"GET / "` gets the page and no message, whatever else it contains |
| Http.RootPrefixes | src/http_server.rs:128 | every request starting `"GET / HTTP"` starts `"GET / "` |
| Http.TextRouteHasMessage | src/http_server.rs:134-136 | a request naming the text route always contains a `msg=`, so the message is always extracted |
| Http.TextRequest | src/http_server.rs:134-170 | otherwise, a text-route request gets the page and the decoding of what lies between the first `msg=` and the next delimiter |
| Http.ClearRequest | src/http_server.rs:174-177 | otherwise, a request naming `/clear` gets the page and the empty message |
| Http.OtherRequest | src/http_server.rs:179 | every other request gets not-found and no message |
| Http.InvalidUtf8NotFound | src/http_server.rs:125 | bytes that are not UTF-8 are read as the empty request, which is not found |

## Left out

- Delays (`esp_rom_delay_us`, `FreeRtos::delay_ms`) are not in the trace. Timing is a hardware concern and changes no line level.
- GPIO writes are modelled as infallible. The `?` error paths of `init`, `send_command`, `send_config`, `send_scanline_data` and `refresh` are therefore not modelled, including that `initialized` stays false when a write fails.
- The glyph table (`src/font.rs`) is not part of this model. The font is a parameter: width, height and an optional glyph per character. `Text.Fits` requires `w < 88` and `h ≤ 88`, so that `MATRIX_WIDTH - width` and `MATRIX_HEIGHT - height` cannot underflow.
- The contents of `HTML_PAGE` and `HTTP_NOT_FOUND` are not modelled; they are the two values of `Http.Page`.
- `core::str::from_utf8` is not modelled: `Http.HandleBytes` takes its result as an `Option` of characters. Every pattern searched for is ASCII, so the source's byte offsets and the model's character offsets pick the same characters.
- `char::from_u32` cannot fail on a value below 256, so its `None` branch (`src/http_server.rs:153`) is not modelled.
- `pulse_gclk_n` takes a `u32`; the model takes a `nat`. It is only called with 256.
- `src/main.rs` is not modelled: the refresh thread, the mutexes and the infinite loops are concurrency and bootstrap. Only its 88×88 constants are used.
- `src/wifi.rs`, `http_server_task` and `run_http_server` are not modelled: they are network I/O.
- Logging macros are not modelled.
- Matrix.LedMatrix.SetAllPinsLow: the six data lines are written through `WriteData`. The events are the same 13 writes in the same order; `.ok()` discarding errors matches the infallible model.
