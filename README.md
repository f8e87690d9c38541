# mittarimato firmware core in Dafny

mittarimato is a distance-meter gadget. An ESP8266 reads a VL53L1X
time-of-flight sensor and shows the distance as an animated scene on a 96x64
SSD1331 OLED. This project models the integer core of the firmware and the two
build-time asset converters:

- **The paletted backbuffer** (`RainbowFX` in `main/main.cc`; `main/rainbow_fx.cc`
  is an older copy of the same methods). It is a 192x128 surface at 4 bits per
  pixel, so 12288 bytes. Even x is the low nibble of a byte, odd x the high
  nibble. The model covers `Clear`, the saturating `Fade`, the vertical `Move`,
  `DrawGlyph`, `DrawSprite` (opaque or blended, 1x or 2x, vertical clipping) and
  `MeasureText`. The class `Rainbow.RainbowFX` holds the buffer as an
  `array<U8>`. Each method is proved against a function on the old contents;
  those functions live in module `Surface`.
- **The scan-out encoder** (`BeginRender` / `Render`). It is a cursor over the
  backbuffer. Each call box-filters 2x2 blocks into one 32-pixel batch of 16
  words and skips the odd supersampled row at the end of each display row. The
  palette and `UnexplodeRGB565` are parameters (`Surface.Codec`).
- **The SSD1331 transfer protocol.**
  - `main/display.h` is the driver the firmware uses: `Panel.Ssd1331`.
  - `main/display.cc` is the older whole-frame variant with `Clear` and
    `Fill`: `FramePanel.Ssd1331`.
  - Pin changes and SPI transactions are appended to a ghost trace of
    `PanelBus.Event`s. Lemmas read the commands and data back out of that
    trace.
- **The main loop** of `app_main` (`FrameLoop`). It smooths the displayed
  distance, counts stable frames, and decides whether to redraw, fade or sleep.
- **The VL53L1X driver's integer logic** (`DistanceSensor`):
  - register framing on I2C;
  - the 17-byte result record;
  - the timeout mantissa/exponent format;
  - the fixed-point conversions;
  - the budget clamp;
  - dynamic SPAD selection;
  - the range check and gain of a reading.

  Bus traffic is a ghost log of command links. The bytes the sensor answers
  with are method parameters.
- **The asset converters**:
  - `data/sprites2c.py` (`SpriteEncoder`) turns RGBA pixels into palette
    indices, pads odd widths, packs two indices per byte and writes the offset
    table;
  - `data/font2c.py` (`FontEncoder`) thresholds alpha, packs each glyph row
    into 32-bit words and writes the offset table.

  An image is an abstract grid of RGBA pixels. End-to-end lemmas connect the
  sprite converter's output to what `DrawSprite` reads. The font converter's
  loops take a `FontEncoder.Variant`: `AsWritten` is the script as it stands,
  `Corrected` the script with the two slips under "## Findings" fixed. The
  end-to-end lemmas about `DrawGlyph` are stated for the corrected sheet;
  `FontEncoder.FontGlyphBitsAsWritten` states what the as-written sheet holds.

Integers are unbounded in Dafny, so the source's widths are written out:
- `uint16_t` and `uint32_t` wrap-around (`ToU32`, `% 0x1_0000`);
- the `int16_t` conversion (`ToInt16`);
- C's truncating division (`TruncDiv`);
- the byte swap (`Bswap16`).

`Move` with a positive delta copies rows upward: row y takes row y + delta.

Files: `bytes.dfy` and `options.dfy` (helpers), `assets.dfy` (glyph, sprite and
font descriptors), `images.dfy`, `surface.dfy`, `rainbow_fx.dfy`,
`panel_bus.dfy`, `ssd1331.dfy`, `ssd1331_frame.dfy`, `frame_loop.dfy`,
`vl53l1x.dfy`, `sprite_encoder.dfy`, `font_encoder.dfy`.

## Model

| member | source | states |
|---|---|---|
| Bytes.Bswap16 | main/main.cc:265-266 | swapping exchanges the two bytes of a 16-bit value |
| Bytes.Bswap16Involutive | main/distance_sensor.cc:325-337 | swapping twice gives the value back |
| Bytes.BigEndian16 | main/distance_sensor.cc:408 | `hi << 8 \| lo` has `hi` as its high byte and `lo` as its low byte |
| Bytes.ToInt16 | main/main.cc:354 | conversion to `int16_t` gives the value in [-32768, 32767] congruent modulo 2^16 |
| Bytes.ToU32 | main/main.cc:356 | `uint32_t` arithmetic is the value modulo 2^32 |
| Bytes.TruncDiv | main/main.cc:356 | C division: `a == q * b + r` with the remainder `r` of `a`'s sign and smaller than `b` in magnitude |
| Bytes.TruncDivUnique | main/main.cc:356 | that rule determines the quotient, and it is not Dafny's Euclidean `/`: -1 / 4 is 0 in C |
| Assets.GlyphOf | main/main.cc:127-130 | the descriptor of an in-range code is `glyphs[c - first]`, and its bitmap lies inside the word table |
| Surface.Dimensions | main/main.cc:38-42 | the surface is the 96x64 display doubled in both directions: 96 bytes per row, 12288 bytes |
| Surface.PixelAddress | main/main.cc:171-173 | the 1x and 2x destination addresses are row * 96 (or 2 * row * 96) plus x / 2 |
| Surface.FadeByte | main/main.cc:99-103 | each of the two pixels of a byte is decremented separately, saturating at 0; neither borrows from the other |
| Surface.FadeAll | main/main.cc:97-105 | a fade keeps the buffer size; Surface.FadeByte gives each byte |
| Surface.FadeN | main/main.cc:97-105 | n fades keep the buffer size; Surface.FadeNPixels gives the pixels |
| Surface.FadeOfZeroIsZero | main/main.cc:97-105 | an all-zero buffer is a fixed point of `Fade` |
| Surface.FadeNPixels | main/main.cc:97-105 | after n fades every pixel v is v - n, or 0 when v <= n |
| Surface.FadeFifteenClears | main/main.cc:97-105 | 15 or more fades clear any buffer |
| Surface.FadeFourteenLeavesFullPixelLit | main/main.cc:97-105 | 14 fades are not enough: a byte 0xff still has both pixels at 1, so 15 is the exact bound |
| Surface.MoveRows | main/main.cc:108-117 | the shift is \|delta\| clamped to kHeight - 1 = 127 rows |
| Surface.Moved | main/main.cc:107-122 | a move keeps the buffer size; Surface.MovedRows gives the rows |
| Surface.MoveZeroIsIdentity | main/main.cc:114-121 | a delta of 0 leaves every byte as it was |
| Surface.MovedRows | main/main.cc:107-122 | delta > 0: row y takes old row y + d and the last d rows keep their content; delta <= 0: row y takes old row y - d and the first d rows keep theirs |
| Surface.MoveRoundTrip | main/main.cc:107-122 | moving up by d then down by d restores every row from row d on |
| Surface.LightLo | main/main.cc:135-136 | `\|= 0x0f` lights the even pixel and keeps the odd one |
| Surface.LightHi | main/main.cc:137-138 | `\|= 0xf0` lights the odd pixel and keeps the even one |
| Surface.GlyphPair | main/main.cc:134-139 | byte j of a word's span: the even pixel becomes 15 iff bit 31 - 2j is set, the odd pixel iff bit 30 - 2j is set; otherwise they keep their value |
| Surface.GlyphProgress | main/main.cc:131-143 | the buffer part-way through the glyph loops keeps its size; the step lemmas below give its bytes |
| Surface.GlyphDrawn | main/main.cc:124-145 | the buffer after `DrawGlyph` keeps its size; Surface.GlyphPixel gives its bytes |
| Surface.GlyphProgressStart | main/main.cc:131 | before the loops nothing is written |
| Surface.GlyphProgressRowEnd | main/main.cc:133 | finishing the last byte of a glyph row is starting the next row |
| Surface.GlyphProgressStep | main/main.cc:132-139 | one pair step writes exactly byte (y + r) * 96 + x / 2 + c, which still held its old value, with GlyphPair; every other byte is unchanged |
| Surface.GlyphStepByte | main/main.cc:132-139 | the same step stated byte by byte |
| Surface.GlyphStepAt | main/main.cc:133-141 | the same step indexed by word k of the row and pair j of the word |
| Surface.GlyphNeverDarkens | main/main.cc:135-138 | after `DrawGlyph` every pixel is at least its old value, and is either unchanged or 15 |
| Surface.GlyphPixel | main/main.cc:131-143 | glyph pixel (px, py) lands at byte (y + py) * 96 + x / 2 + px / 2, low nibble for even px and high for odd; it is 15 iff bit 31 - px % 32 of word px / 32 is set, otherwise its old value |
| Surface.ClipSprite | main/main.cc:151-169 | a negative y skips -y * (width / 2) source bytes and starts at row 0; the height is cut at kHeight (1x) or kHeight / 2 (2x); drawn rows never exceed the sprite's rows, and the read rows stay inside the sprite |
| Surface.BlendByte | main/main.cc:176-186 | a zero source pixel leaves the destination pixel, a non-zero one replaces it, separately for both nibbles |
| Surface.Widen | main/main.cc:191-194 | `p0 \|= p0 << 4` and `p1 \|= p1 >> 4` give a byte whose two pixels both equal the even (or odd) pixel |
| Surface.SourceIndex | main/main.cc:151-155 | source byte k of drawn row r is `data[offset + skip + r * bytesPerRow + k]`, inside the table |
| Surface.SpriteProgress | main/main.cc:170-205 | the buffer part-way through the sprite loops keeps its size; Surface.ProgressAt gives its bytes |
| Surface.SpriteDrawn | main/main.cc:147-206 | the buffer after `DrawSprite` keeps its size; Surface.Sprite1xByte and Surface.Sprite2xBlock give its bytes |
| Surface.SpriteProgressStart | main/main.cc:170 | before the loops nothing is written |
| Surface.SpriteProgressRowEnd | main/main.cc:175 | finishing a row's last source byte is starting the next row |
| Surface.SpriteProgressStep1x | main/main.cc:175-203 | a 1x step writes exactly the byte at the destination address, which still held its old value, with the copied or blended source byte |
| Surface.SpriteProgressStep2x | main/main.cc:190-199 | a 2x step writes exactly dest, dest + 96, dest + 1 and dest + 97: the widened even and odd pixels of the source combined with dest's old value |
| Surface.Step2xAt | main/main.cc:190-199 | the same 2x step stated byte by byte |
| Surface.OutsideBlock2x | main/main.cc:190-199 | a 2x step changes no byte outside its 2x2 block |
| Surface.PutBlock | main/main.cc:188-198 | writing one combined byte keeps the buffer size |
| Surface.SpriteProgressStep | main/main.cc:175-203 | one step in either mode, as a single block write at the destination address |
| Surface.Sprite1xByte | main/main.cc:176-189 | after a 1x draw an opaque byte is the source byte; a blended one keeps each destination pixel whose source pixel is 0 and takes the source pixel otherwise |
| Surface.Sprite2xBlock | main/main.cc:190-199 | after a 2x draw, dest[0] == dest[96] and dest[1] == dest[97], each with equal nibbles: the even and odd pixel of the source combined with dest[0]'s old value (dest[1]'s old value is never consulted) |
| Surface.BlockProgress | main/main.cc:170-205 | a byte of a 2x block holds its final value once its block is done and its old value before |
| Surface.ProgressAt | main/main.cc:170-205 | every byte is its drawn value once its place in the loops is passed and its old value otherwise; nothing outside the clipped rectangle changes |
| Surface.CursorStep | main/main.cc:270-274 | after each batch the column advances by 32; at 96 it resets to 0 and the cursor skips the odd row (96 bytes) |
| Surface.BatchRead | main/main.cc:246-258 | every byte batch k reads lies inside the 12288-byte buffer |
| Surface.BatchReadsPartitionSurface | main/main.cc:240-274 | the 192 batches of a pass read every byte of the buffer exactly once |
| Surface.BatchOfRead | main/main.cc:246-258 | the read slot of batch k is recovered from the byte index |
| Surface.ReadOfBatch | main/main.cc:246-258 | every byte of the buffer is read by some batch slot |
| Surface.BatchWords | main/main.cc:240-268 | a batch is 16 words |
| Surface.BatchWordReads | main/main.cc:246-267 | word w of batch k reads bytes p, p + 96, p + 1 and p + 97, with p the cursor plus 2w |
| Surface.BatchReadsOnlyItsBytes | main/main.cc:246-260 | a batch depends only on the bytes it reads |
| Surface.FrameWords | main/main.cc:240-268 | n batches are 16n words |
| Surface.FrameWordAt | main/main.cc:240-268 | word i of a pass is word i % 16 of batch i / 16 |
| Surface.BatchHalf | main/main.cc:262-267 | the low half of a word is the byte-swapped box filter of the block at the cursor plus 2w, the high half that of the next block |
| Surface.PixelOfBatch | main/main.cc:240-274 | display pixel (x, y) is half x % 2 of word (x / 2) % 16 of batch 3y + x / 32, read from byte x of surface rows 2y and 2y + 1 |
| Surface.FramePixel | main/main.cc:240-274 | in raster order, display pixel (x, y) of a pass is the byte-swapped box filter of byte x of surface rows 2y and 2y + 1 |
| Rainbow.TextStep | main/main.cc:213-217 | one loop pass adds the glyph's width and keeps the larger height |
| Rainbow.TextWidthAppend | main/main.cc:215 | the text width of a concatenation is the sum of the widths |
| Rainbow.TextHeightIsMax | main/main.cc:216 | the text height is the largest glyph height, reached by some character of a non-empty text |
| Rainbow.RainbowFX.constructor | main/main.cc:80-82 | a new surface is all zero |
| Rainbow.RainbowFX.Clear | main/main.cc:86-95 | every byte becomes 0 |
| Rainbow.RainbowFX.Fade | main/main.cc:97-105 | the buffer becomes FadeAll of its old contents |
| Rainbow.RainbowFX.Move | main/main.cc:107-122 | the buffer becomes Moved of its old contents; the overlapping downward copy has memmove semantics |
| Rainbow.RainbowFX.DrawGlyph | main/main.cc:124-145 | an out-of-range code returns None and writes nothing; otherwise it returns the descriptor and the buffer becomes GlyphDrawn |
| Rainbow.RainbowFX.DrawGlyphWord | main/main.cc:133-142 | one bitmap word of a row lights 16 bytes and advances the glyph loops by one word |
| Rainbow.RainbowFX.LightPair | main/main.cc:134-139 | one pair step changes exactly the destination byte, to GlyphPair of its old value |
| Rainbow.RainbowFX.DrawSprite | main/main.cc:147-206 | the buffer becomes SpriteDrawn of its old contents, for all four draw traits |
| Rainbow.RainbowFX.DrawSpriteRows | main/main.cc:170-205 | the row loop draws all clipped rows |
| Rainbow.RainbowFX.DrawSpriteRow | main/main.cc:171-204 | one row's pass draws that row |
| Rainbow.RainbowFX.DrawSpriteByte | main/main.cc:176-203 | one source byte advances the loops by one step |
| Rainbow.RainbowFX.PutSpriteByte | main/main.cc:176-202 | one combine-and-write step, as PutBlock |
| Rainbow.RainbowFX.MeasureText | main/main.cc:208-219 | w is the sum of the glyph widths modulo 2^16 and h the largest glyph height; both are 0 for the empty text |
| Rainbow.RainbowFX.BeginRender | main/main.cc:221-224 | the cursor is byte 0, the column 0, and a pass starts at batch 0 |
| Rainbow.RainbowFX.Render | main/main.cc:239-275 | one call writes exactly the 16 words of the current batch into `pixels`, changes no other word and no backbuffer byte, and moves the cursor to the next batch |
| Rainbow.RainbowFX.RenderWords | main/main.cc:240-268 | the word loop fills the 16 words and advances the cursor 32 bytes |
| Rainbow.RainbowFX.EndBatch | main/main.cc:270-274 | the column and cursor update leaves them at the next batch's position |
| Rainbow.RainbowFX.RenderWord | main/main.cc:243-267 | one output word is word w of the batch and the cursor advances 2 bytes |
| PanelBus.ChunkGeometry | main/display.h:90-91 | the 12288-byte frame is exactly 192 chunks of 64 bytes; a chunk is 32 pixels or 16 words |
| PanelBus.Commands | main/display.h:114-122 | each `WriteCommand` is three events: D/C low, CS low, an 8-bit command phase |
| PanelBus.AddressWindowEvents | main/display.h:82-87 | the six commands are 0x15, 0, 95, 0x75, 0, 63 in that order |
| PanelBus.BatchEvents | main/display.h:97-100 | each chunk write is three events |
| PanelBus.TransactionSends | main/display.h:114-132 | a transaction sends what its transfer event carries |
| PanelBus.CommandsRoundTrip | main/display.h:114-122 | a run of `WriteCommand` calls sends exactly its commands and no data |
| PanelBus.DataRoundTrip | main/display.h:124-132 | a `WriteData` call sends exactly its words and no command |
| PanelBus.TransactionFramed | main/display.h:114-132 | every transfer happens with CS low, and with D/C low for a command and high for data |
| PanelBus.AppendTransaction | main/display.h:114-132 | appending a transaction keeps every transfer of the trace framed |
| PanelBus.BatchEventsSendFrame | main/display.h:93-100 | the chunks of a pass send exactly the frame's words and no command |
| PanelBus.BatchEventsFramed | main/display.h:93-100 | the chunks of a pass keep the trace framed |
| Panel.RenderBatchPixels | main/display.h:70-72 | a batch is one 64-byte chunk of 16-bit pixels in batch mode, and the whole screen otherwise |
| Panel.BatchGeometry | main/display.h:93-96 | in batch mode a batch is 32 pixels, `pixels_` is 64 bytes, and the frame takes 192 batches |
| Panel.Ssd1331.constructor | main/display.h:134-137 | `pixels_` holds one chunk and the trace is empty |
| Panel.Ssd1331.WriteCommand | main/display.h:114-122 | appends D/C low, CS low and the command transfer; the trace stays framed |
| Panel.Ssd1331.WriteData | main/display.h:124-132 | appends D/C high, CS low and a `bytes * 8`-bit transfer of the words; the trace stays framed |
| Panel.Ssd1331.Render | main/display.h:81-111 | the trace grows by the six address-window commands, then one 64-byte write of each of the 192 batches in order; the backbuffer is unchanged and the pass is complete |
| Panel.Ssd1331.SetAddressWindow | main/display.h:82-87 | the trace grows by exactly the address-window commands |
| Panel.Ssd1331.RenderBatches | main/display.h:93-100 | 192 times: the renderer fills `pixels_`, which is then written whole |
| Panel.RenderSends | main/display.h:81-100 | a frame puts on the bus exactly the address-window commands, then exactly the words of a whole pass as data |
| FramePanel.FillPaintsScreen | main/display.cc:157-176 | `Fill` turns fill mode on, draws a rectangle over the whole panel, and sends the outline colour equal to the fill colour |
| FramePanel.Ssd1331.constructor | main/display.cc:225 | `pixels_` holds a whole frame and the trace is empty |
| FramePanel.Ssd1331.RenderBatchSize | main/display.cc:178-181 | a batch is one 64-byte chunk of 16-bit pixels, 32 pixels |
| FramePanel.Ssd1331.WriteCommand | main/display.cc:205-213 | appends D/C low, CS low and the command transfer |
| FramePanel.Ssd1331.WriteData | main/display.cc:215-223 | appends D/C high, CS low and the data transfer |
| FramePanel.Ssd1331.Clear | main/display.cc:149-155 | the trace grows by exactly 0x25, 0, 0, 95, 63 |
| FramePanel.Ssd1331.Fill | main/display.cc:157-176 | the trace grows by exactly 0x26, 1, 0x22, 0, 0, 95, 63, r, g, b, r, g, b |
| FramePanel.Ssd1331.Render | main/display.cc:183-202 | the address-window commands, then 192 chunk writes; afterwards `pixels_` holds the whole frame of the pass |
| FramePanel.Ssd1331.SetAddressWindow | main/display.cc:184-189 | the trace grows by exactly the address-window commands |
| FramePanel.Ssd1331.RenderChunks | main/display.cc:191-201 | the chunk walk fills `pixels_` with the frame and writes each chunk right after it is filled |
| FramePanel.Ssd1331.ChunkStep | main/display.cc:197-201 | chunk i is filled at word 16i and exactly that chunk is written |
| FramePanel.ClearEvents | main/display.cc:149-155 | the five `WriteCommand` calls of `Clear` are its command list |
| FramePanel.FillEvents | main/display.cc:157-176 | the thirteen `WriteCommand` calls of `Fill` are its command list |
| FrameLoop.Delta | main/main.cc:354 | the difference truncated to `int16_t` is exact for nearby values |
| FrameLoop.DeltaStep | main/main.cc:354-360 | the next difference is the old one minus its truncated quarter, whatever wrapped |
| FrameLoop.ApproachesReading | main/main.cc:354-360 | the displayed value never overshoots: the difference keeps its sign, never grows, and shrinks while it is at least 4 |
| FrameLoop.SmallDifferenceSticks | main/main.cc:355-356 | a difference of 1 to 3 mm is never closed |
| FrameLoop.MovementWakes | main/main.cc:361-367 | more than 10 mm of movement resets the count, clears `sleeping`, switches the display on and redraws |
| FrameLoop.StillnessCounts | main/main.cc:361-362 | a stable frame increments the count, keeps a sleeping device asleep, and does not switch the display on |
| FrameLoop.DrawingWindow | main/main.cc:368-376 | redraw up to count 240; fade only on multiples of 3 in (240, 300]; above 300 sleep and switch the display off |
| FrameLoop.RenderPassWhenAwake | main/main.cc:378-384 | a render pass happens exactly when the device is awake |
| FrameLoop.IdleSleeps | main/main.cc:348-386 | with no new reading and the display within 10 mm, the count grows by one per pass and the device is asleep after 301 passes |
| FrameLoop.MainLoop.constructor | main/main.cc:340-344 | all loop variables start at 0 and awake |
| FrameLoop.MainLoop.Step | main/main.cc:349-385 | one pass updates the loop variables as NextState, makes the requests of NextAction, and counts `frame` in 32 bits |
| DistanceSensor.AddressByte | main/distance_sensor.cc:455-460 | the address byte is the 7-bit address 0x29 with the R/W flag in bit 0 |
| DistanceSensor.Bytes16 | main/distance_sensor.cc:435-442 | a 16-bit value is sent as two bytes, high byte first |
| DistanceSensor.Bytes32 | main/distance_sensor.cc:444-453 | a 32-bit value is sent as four bytes, most significant first |
| DistanceSensor.WriteFrameFields | main/distance_sensor.cc:427-442 | a register write goes to 0x52 and its bytes decode back to the register and the value |
| DistanceSensor.ResultBytes | main/distance_sensor.cc:12-23 | the packed record is 17 bytes |
| DistanceSensor.ParseResultBytes | main/distance_sensor.cc:310-338 | parsing the record of a result gives that result |
| DistanceSensor.ResultBytesOfParse | main/distance_sensor.cc:310-338 | every 17-byte record is the record of its parse, so parsing loses nothing |
| DistanceSensor.SwapOfLittleEndian | main/distance_sensor.cc:324-337 | swapping a field loaded little-endian gives its big-endian value |
| DistanceSensor.ExponentMinimal | main/distance_sensor.cc:507-510 | the loop stops at the smallest exponent whose shift fits in a byte |
| DistanceSensor.ExponentFits | main/distance_sensor.cc:499-516 | a 32-bit value needs at most 24 halvings, and the encoding fits 16 bits |
| DistanceSensor.EncodedTimeoutFields | main/distance_sensor.cc:499-516 | the high byte is the minimal exponent, at most 24, and the low byte is (m - 1) shifted by it |
| DistanceSensor.DecodeExact | main/distance_sensor.cc:177-179 | without 32-bit overflow, decoding is lsb * 2^msb + 1 |
| DistanceSensor.DecodeEncode | main/distance_sensor.cc:177-179 | decoding an encoded timeout never exceeds it, loses less than one step of the exponent, and is exact up to 256 |
| DistanceSensor.SmallExponent | main/distance_sensor.cc:504-512 | timeouts up to 256 have exponent 0 |
| DistanceSensor.MclksToMicrosecondsRounds | main/distance_sensor.cc:470-473 | the conversion is m * p / 4096 rounded to nearest |
| DistanceSensor.MicrosecondsToMclksRounds | main/distance_sensor.cc:477-481 | without wrapping, the conversion is us * 4096 / p rounded to nearest |
| DistanceSensor.MacroPeriod | main/distance_sensor.cc:485-497 | the macro period with its `uint32_t` wrapping and `uint8_t` PCLK count stays below 2^26 |
| DistanceSensor.ClampBudget | main/distance_sensor.cc:116-123 | the budget minus 4528 us, at least 0 and at most 1100000 |
| DistanceSensor.PhasecalTimeout | main/distance_sensor.cc:133-135 | 1000 us in macro periods, capped at 0xff |
| DistanceSensor.RatePerSpad | main/distance_sensor.cc:342-356 | the summed rate, clipped to 16 bits, in 16.16 format over the SPAD count, truncated |
| DistanceSensor.SpadTargetMeetsRate | main/distance_sensor.cc:358-368 | unless clipped, the requested SPADs reach the target rate and one more would overshoot it |
| DistanceSensor.SpadTargetFallback | main/distance_sensor.cc:341-381 | 0x8000 is requested exactly when a division would be by zero; otherwise at most the unclipped quotient |
| DistanceSensor.Gain | main/distance_sensor.cc:222-227 | the reading times 2011/2048, rounded to nearest, never more than the reading |
| DistanceSensor.ReadingReported | main/distance_sensor.cc:181-229 | a distance is reported iff the status bit is clear, byte 0 is 9 and byte 2 is non-zero; it is bytes 13-14 scaled by 2011/2048 and never above them |
| DistanceSensor.VL53L1X.constructor | main/distance_sensor.cc:538-541 | not calibrated, no bus traffic yet |
| DistanceSensor.VL53L1X.ReadReg8 | main/distance_sensor.cc:383-394 | writes the register address, reads one byte, returns it |
| DistanceSensor.VL53L1X.ReadReg16 | main/distance_sensor.cc:396-409 | reads two bytes and returns `hi << 8 \| lo` |
| DistanceSensor.VL53L1X.ReadReg32 | main/distance_sensor.cc:411-425 | reads four bytes and returns them most significant first |
| DistanceSensor.VL53L1X.WriteReg8 | main/distance_sensor.cc:427-433 | one write of the register address and the byte |
| DistanceSensor.VL53L1X.WriteReg16 | main/distance_sensor.cc:435-442 | one write of the register address and the value, big-endian |
| DistanceSensor.VL53L1X.WriteReg32AsWritten | main/distance_sensor.cc:444-453 | as written: the value is truncated to 16 bits before its four bytes are sent |
| DistanceSensor.VL53L1X.WriteReg32 | main/distance_sensor.cc:444-453 | corrected: all four bytes of the 32-bit value, big-endian |
| DistanceSensor.VL53L1X.ReadResults | main/distance_sensor.cc:310-338 | one address write and one 17-byte read; the result is the big-endian parse of the record |
| DistanceSensor.VL53L1X.UpdateDss | main/distance_sensor.cc:341-381 | one write of the SPAD target to the manual-SPADs register |
| DistanceSensor.VL53L1X.GetDistanceMm | main/distance_sensor.cc:181-229 | returns the reported reading; a set status bit stops after the status read; otherwise the record read, the SPAD write and the interrupt clear follow, and the sensor is calibrated |
| DistanceSensor.VL53L1X.SetMeasurementTimingBudget | main/distance_sensor.cc:109-175 | exactly the reads and writes of the source, in order, with the clamped budget, the capped phasecal timeout and the encoded timeouts |
| DistanceSensor.EncodeTimeout | main/distance_sensor.cc:499-516 | the loop computes the encoding: 0 for 0, otherwise exponent and mantissa of m - 1 |
| DistanceSensor.Halvings | main/distance_sensor.cc:507-510 | the loop ends with the minimal exponent and the value shifted by it |
| DistanceSensor.WriteReg32Truncates | main/distance_sensor.cc:444-453 | as written, 0x10000 is sent as four zero bytes |
| DistanceSensor.WriteReg32AsWrittenBytes | main/distance_sensor.cc:444-453 | as written, the two high bytes are always zero, and the value arrives intact iff it fits in 16 bits |
| DistanceSensor.WriteReg32Decodes | main/distance_sensor.cc:444-453 | the corrected write's bytes decode back to the register and the value |
| FontEncoder.Block | data/font2c.py:28 | the cut-out rectangle has the glyph's size |
| FontEncoder.BlockAt | data/font2c.py:28 | pixel (gx, gy) of the rectangle is atlas pixel (x + gx, y + gy) |
| FontEncoder.GlyphImage | data/font2c.py:28-33 | corrected: a glyph's pixels are its own rectangle of the atlas |
| FontEncoder.GlyphImageAsWritten | data/font2c.py:33 | as written: pixels are read from the uncropped atlas |
| FontEncoder.AsWrittenIgnoresPosition | data/font2c.py:28-33 | as written, two glyphs of one size get the same pixels, the atlas's top-left corner, wherever they sit |
| FontEncoder.RowBits | data/font2c.py:32-37 | one bit per pixel of the row |
| FontEncoder.InkBits | data/font2c.py:34-37 | one bit per pixel: alpha of at least 128 |
| FontEncoder.WordOf | data/font2c.py:30-35 | a `'0b'` literal of n bits is below 2^n |
| FontEncoder.WordBits | data/font2c.py:30-40 | character j of the literal is bit n - 1 - j of its value |
| FontEncoder.Group | data/font2c.py:39-42 | a group has 1 to 32 pixels |
| FontEncoder.RowWords | data/font2c.py:29-46 | corrected: a row of w pixels gives ceil(w / 32) words |
| FontEncoder.RowWordsAsWritten | data/font2c.py:43-46 | as written: also ceil(w / 32) words, with a short last group right-aligned |
| FontEncoder.RowWordsBits | data/font2c.py:29-46 | corrected: pixel px is bit 31 - px % 32 of word px / 32, the bit `DrawGlyph` tests; padding bits are clear |
| FontEncoder.AlignedBit | data/font2c.py:39-42 | bit 31 - j of a group's word is the group's pixel j |
| FontEncoder.RowWordsAsWrittenBits | data/font2c.py:43-46 | as written, pixel px of a short last group of n pixels lands on bit n - 1 - px % 32 |
| FontEncoder.NarrowGlyphShifted | data/font2c.py:43-46 | as written, a one-pixel glyph row gives word 1, which `DrawGlyph` draws at column 31 instead of 0 |
| FontEncoder.GlyphRows | data/font2c.py:29-46 | a glyph has one list of ceil(w / 32) words per row |
| FontEncoder.GlyphWordsAt | data/font2c.py:29-46 | word k of row py of a glyph sits at py * ceil(w / 32) + k |
| FontEncoder.Assemble | data/font2c.py:16-46 | one record per glyph line |
| FontEncoder.GlyphTables | data/font2c.py:16-46 | one word list per glyph line |
| FontEncoder.FirstGlyph | data/font2c.py:23-24 | there is a first character exactly when there is a glyph line |
| FontEncoder.AssembleRecords | data/font2c.py:26 | record i is (w, h, words before glyph i) |
| FontEncoder.AssembleWordAt | data/font2c.py:26-46 | word m of glyph i sits at the glyph's offset plus m, inside the table |
| FontEncoder.AssembleFits | data/font2c.py:26-46 | every glyph's words lie inside the table |
| FontEncoder.GlyphRowBit | data/font2c.py:29-46 | corrected: within one glyph, the bit `DrawGlyph` tests is the ink of the glyph's own pixel, clear past the width |
| FontEncoder.TableWord | data/font2c.py:16-46 | word k of row py of glyph i is at offset + py * wordsPerRow + k |
| FontEncoder.FontGlyphBits | data/font2c.py:16-46 | in the table, the bit of pixel (px, py) of glyph i is set iff that atlas pixel is inked, and clear in the padding |
| FontEncoder.RecordFits | data/font2c.py:26-46 | every glyph's rows lie inside the table |
| FontEncoder.GlyphWordIndex | main/main.cc:130-141 | `DrawGlyph` reads word offset + r * wordsPerRow + k of the table |
| FontEncoder.FontGlyphPixel | data/font2c.py:16-46 | corrected: read through `DrawGlyph` with the corrected converter's record, pixel (px, py) is lit iff it is inked in the glyph's rectangle, and padding is never lit |
| FontEncoder.FontGlyphBitsAsWritten | data/font2c.py:16-46 | as written: a glyph narrower than 32 pixels has one word per row, and bit w - 1 - px of it is the ink of atlas pixel (px, py), whatever the glyph's position |
| FontEncoder.ShiftRow | data/font2c.py:32-42 | the pixel loop emits a word after every 32 pixels and leaves the rest in the accumulator |
| FontEncoder.ShiftStep | data/font2c.py:34-42 | one pixel extends the accumulator, and the 32nd completes a word |
| FontEncoder.TailWord | data/font2c.py:43-46 | the accumulator of a short last group is its right-aligned word, as the script appends it; shifted to the top bit it is the corrected aligned word |
| FontEncoder.FullGroupWord | data/font2c.py:38-42 | a full 32-pixel group gives the same word whichever way the tail is aligned |
| FontEncoder.EncodedRowTail | data/font2c.py:43-46 | the full words plus the tail word of the chosen variant are the row's encoding: RowWordsAsWritten as written, RowWords corrected |
| FontEncoder.EncodeRow | data/font2c.py:29-46 | the row loop produces RowWordsAsWritten of the row as written (tail in the low bits) and RowWords when corrected |
| FontEncoder.EncodeGlyph | data/font2c.py:29-46 | the glyph loop produces its rows' words in order, for either variant |
| FontEncoder.EncodeFont | data/font2c.py:16-46 | the glyph-line loop produces the table, the records and the first character; as written it reads every glyph from the atlas's top-left corner with right-aligned tails, corrected from its own rectangle with aligned tails |
| SpriteEncoder.FirstIndex | data/sprites2c.py:45 | `list.index`: the first position holding the colour, or none when it is absent |
| SpriteEncoder.PaletteDistinct | data/sprites2c.py:13-30 | the sixteen palette colours are distinct |
| SpriteEncoder.ColourIndexRoundTrip | data/sprites2c.py:40-46 | a pixel is accepted iff it is transparent or its colour is in the palette; transparent gives 0, a visible pixel the position of its colour |
| SpriteEncoder.Padded | data/sprites2c.py:34-35 | an odd width w becomes w + 3; even widths stay |
| SpriteEncoder.PaddedPixels | data/sprites2c.py:34-35 | every stored width is even; an odd image gains one transparent column on the left and two on the right |
| SpriteEncoder.Indices | data/sprites2c.py:38-46 | a successful run has one index per pixel |
| SpriteEncoder.IndicesMeaning | data/sprites2c.py:38-46 | a run succeeds iff every pixel has an index, and index i is pixel i's |
| SpriteEncoder.Encoded | data/sprites2c.py:32-46 | one record per image |
| SpriteEncoder.EvenArea | data/sprites2c.py:34-36 | every padded image has an even number of pixels |
| SpriteEncoder.TotalEven | data/sprites2c.py:36 | the index count before every image is even, so the halved offset is exact |
| SpriteEncoder.EncodedSucceeds | data/sprites2c.py:32-46 | the conversion succeeds iff every pixel of every padded image has an index |
| SpriteEncoder.EncodedLength | data/sprites2c.py:32-46 | it produces one index per pixel, an even number in all |
| SpriteEncoder.EncodedRecord | data/sprites2c.py:36 | record k is the padded size and half the indices before image k |
| SpriteEncoder.EncodedNibbles | data/sprites2c.py:38-46 | index j of image k sits after the indices of the images before it and is pixel j's |
| SpriteEncoder.PackPairs | data/sprites2c.py:62-63 | indices are packed two per byte, an unpaired last one dropped |
| SpriteEncoder.Unpack | main/main.cc:177-178 | the renderer reads two pixels per byte |
| SpriteEncoder.UnpackPack | data/sprites2c.py:62-63 | packing an even run of indices loses nothing |
| SpriteEncoder.PackUnpack | data/sprites2c.py:62-63 | every byte is the packing of its two pixels |
| SpriteEncoder.PackedNibble | data/sprites2c.py:62-63 | index 2i is the low nibble of byte i and index 2i + 1 the high one |
| SpriteEncoder.SpritePixel | data/sprites2c.py:32-73 | end to end: the byte `DrawSprite` reads for pixel (x, y) of sprite k holds that padded pixel's index, low nibble for even x and high for odd |
| SpriteEncoder.RecordIsValidSprite | data/sprites2c.py:70-73 | a record that fits the C fields describes a sprite whose rows lie inside the packed table |
| SpriteEncoder.AppendIndices | data/sprites2c.py:38-46 | the pixel loop appends the image's indices, or fails at the first pixel without one |
| SpriteEncoder.CollectFails | data/sprites2c.py:45 | one pixel without an index fails the whole image |
| SpriteEncoder.EncodeSprites | data/sprites2c.py:32-46 | the image loop produces the indices and records of the conversion |
| SpriteEncoder.PackNibbles | data/sprites2c.py:61-68 | the output loop produces the packed bytes |

## Left out

- Hardware I/O (SPI, I2C, GPIO levels, delays) is not modelled. The SSD1331 drivers record it as trace events. The VL53L1X driver records command links and takes the sensor's answers as parameters.
- Rainbow.RainbowFX.Move: requires delta != -32768. Negating that `int16_t` leaves it negative, and the copy would start before the buffer. The overlapping downward `std::copy` is given memmove semantics.
- Surface.MoveRows: defined only for -32768 < delta < 32768, as for Move.
- Rainbow.RainbowFX.DrawGlyph: requires a non-negative position, the glyph's whole words (16 bytes each) to fit in one surface row, and its rows to fit in the surface. The source does no check: a horizontal overrun wraps into the next surface row; a vertical overrun, or a negative position that reaches before byte 0, writes outside the buffer.
- FontEncoder.FontGlyphPixel: stated for the corrected converter only. For the script as written, FontEncoder.FontGlyphBitsAsWritten states where each pixel's bit lands, and FontEncoder.NarrowGlyphShifted shows that `DrawGlyph` then draws it in the wrong column.
- FontEncoder.GlyphRowBit: stated for the corrected row encoding and the glyph's own rectangle; FontEncoder.RowWordsAsWrittenBits and FontEncoder.AsWrittenIgnoresPosition state the as-written counterparts.
- Rainbow.RainbowFX.DrawSprite: requires x >= 0 and the sprite row to fit horizontally. The source does no horizontal clipping.
- Rainbow.RainbowFX.MeasureText: requires every character to be in the glyph range. The source indexes the descriptor table unchecked. `text` is the C string's characters before its terminating NUL, so it holds no 0 byte.
- FrameLoop.MainLoop.Step: `stable_count` is an unbounded count. The source's `int` would overflow after 2^31 stable frames.
- Display power (`Display::Enable`) and the scene redraw are not performed. A `FrameLoop.FrameAction` records them as requests.
- The scene layout `Render(RainbowFX&, display_mm)` (main/main.cc:278-320) is not modelled: it uses `itoa` and tuning constants. Its parts (`Clear`, `DrawSprite`, `MeasureText`, `DrawGlyph`) are modelled.
- The 1x branch of `RainbowFX::Render` (main/main.cc:227-238) is not modelled: it is dead code, because `kSuperSampling` is 2.
- The non-batch branch of the header driver's `Render` (main/display.h:101-110) is not modelled: it is dead code, because `kRenderInBatches` is true.
- The colour codec (`PackRGB565`, `ExplodeRGB565`, `UnexplodeRGB565`) and the palette values are not defined in the modelled files. They are parameters (`Surface.Codec`), and no fact about colour values is stated.
- The SSD1331 constructor's panel initialisation sequence is not modelled. A new driver starts with an empty trace.
- The VL53L1X `Initialize`, `Start`, `Stop`, `SetRange` and `SetupManualCalibration` register programs are hardware configuration and are not modelled.
- DistanceSensor.VL53L1X.GetDistanceMm: the calibration run of the first successful reading (main/distance_sensor.cc:207-210) is represented only by the `calibrated` flag; its register links are not in the `bus` log, which holds every modelled command link.
- The register map header is not part of this model. Register addresses are parameters (`DistanceSensor.Registers`).
- DistanceSensor.VL53L1X.SetMeasurementTimingBudget: requires both macro periods to be non-zero. The source would divide by zero otherwise. The oscillator frequency is a constructor parameter.
- `main/distance_sensor.h` is not part of this model. Its interface belongs to a different version of the driver.
- `Benchmark`, FreeRTOS calls (`vTaskDelay`), watchdog feeding, `esp_restart` and `printf` are timing and platform calls, and are left out.
- PIL image decoding and the printing of the C headers (including the line breaks every eight bytes) are not modelled. Images are abstract RGBA grids, and the converters' outputs are sequences of numbers and records.

## Findings

| source | as written | input that shows it | evidently intended | confidence | as-written member | corrected member |
|---|---|---|---|---|---|---|
| data/font2c.py:43-46 | a short last group of b < 32 pixels is padded with zeros in front, so its pixels end at bit 0 | a glyph 1 pixel wide with that pixel inked: the row word is 1, and `DrawGlyph` (main/main.cc:135) reads pixel 0 from bit 31, so it draws the pixel at column 31 | the group aligned to bit 31 (zeros appended), word 0x80000000 | not executed; high, since the renderer's bit order is fixed | FontEncoder.NarrowGlyphShifted | FontEncoder.RowWordsBits |
| data/font2c.py:28-33 | the cropped image `g` is never used; pixels are read from the whole atlas at (gx, gy) | two glyph lines of the same size at different atlas positions: both get the atlas's top-left block | read each glyph from its own rectangle, pixel (x + gx, y + gy) | not executed; high | FontEncoder.AsWrittenIgnoresPosition | FontEncoder.FontGlyphBits |
| main/distance_sensor.cc:444-453 | `WriteReg32` takes a `uint16_t` value, so the two high bytes it sends are always zero | `Start` writing 0x10000 to the inter-measurement period sends 00 00 00 00 | a `uint32_t` parameter, all four bytes sent | not executed; medium, since whether a real call exceeds 16 bits depends on the sensor's calibration value | DistanceSensor.WriteReg32Truncates | DistanceSensor.WriteReg32Decodes |
