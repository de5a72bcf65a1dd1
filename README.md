# ST7567A display driver, modelled in Dafny

A model of the ST7567A driver for STM32 microcontrollers (`Core/Src/st7567a.c`,
`Core/Inc/st7567a.h`). The controller drives a 128 × 64 monochrome display.

The driver keeps three pieces of state:

- a 1024-byte framebuffer arranged in eight pages of 128 column bytes;
- a text cursor of two `uint8_t` fields;
- a serial bus, on which it sends command bytes and data bytes.

Its operations:

- draw pixels, vertical lines and horizontal lines into the buffer, and fill it;
- render glyphs of a bitmap font at the cursor, and strings of them;
- flush the buffer page by page;
- send the fixed command sequences for initialisation, contrast and power save.

Files:

- `config.dfy` (module `Config`) holds the header's display parameters and the
  pixel-state enum.
- `framebuffer.dfy` (module `Framebuffer`) holds the buffer as a value, with each
  drawing primitive as a function on it, plus byte-level and pixel-level lemmas.
- `text.dfy` (module `Text`) covers the font record, glyph lookup, the space check,
  the `width` counter, and the three nested blit loops as recursive functions. It
  also proves a per-pixel characterisation of a rendered glyph, and string output
  as repeated character output.
- `bus.dfy` (module `Bus`) models the bus as an append-only log of
  `Reset | Cmd(byte) | Data(bytes)` events. It holds the opcodes and the command
  sequences, and proves their layouts. One lemma shows that a flush's data
  payload is exactly the framebuffer.
- `driver.dfy` (module `Driver`) holds the class `St7567a`, with the buffer as an
  `array<bv8>`, the cursor fields and the log. Every public function of the C
  driver is a method of it. Each method's postcondition states its new state as
  the corresponding function of `Framebuffer`, `Text` or `Bus` applied to the old
  state. The lemmas about those functions then carry the properties.

Bytes are `bv8`. Coordinates and cursor fields are `uint8` (0..255), and every
truncation to `uint8_t` in the source is written out as `% 256`.

## Model

| member | source | states |
|---|---|---|
| Config.Negate | Core/Inc/st7567a.h:41-44 | `!state` on the enum values 0 and 1 yields 1 for 0 and 0 for 1 |
| Config.NegateSwaps | Core/Inc/st7567a.h:41-44 | negation maps ON to OFF and OFF to ON, never fixes a state, and is an involution |
| Config.BufferLayout | Core/Inc/st7567a.h:21-24 | the buffer size is the header's `WIDTH * HEIGHT / PAGES`, which is 8 pages of 128 bytes; 8 pages of 8 rows cover the 64 rows |
| Config.PageLengthFitsUint8 | Core/Inc/st7567a.h:66 | the 128-byte page length fits the `uint8_t` size argument of the data transfer without truncation |
| Framebuffer.PixelIndex | Core/Src/st7567a.c:140 | an in-range pixel's byte index lies below 1024; its column is the index mod 128 and its page the index div 128 |
| Framebuffer.PixelIndexInjective | Core/Src/st7567a.c:140-142 | two in-range pixels share a byte if and only if they share the column and the page |
| Framebuffer.BitIsShift | Core/Src/st7567a.c:140 | the bit mask used is the source's `1 << k` |
| Framebuffer.SetBitEffect | Core/Src/st7567a.c:139-143 | or-ing in `1 << k` (ON) or and-ing with its complement (OFF) makes bit k equal to the state and keeps the seven other bits |
| Framebuffer.SetBitOverrides | Core/Src/st7567a.c:139-143 | a later write of the same bit overrides an earlier one |
| Framebuffer.SetMaskOverrides | Core/Src/st7567a.c:160-170 | for any mask, a later set or clear of the mask overrides an earlier one |
| Framebuffer.FillPixels | Core/Src/st7567a.c:96-102 | after a fill with ON every pixel is lit; after OFF every pixel is dark |
| Framebuffer.DrawPixelOutOfRange | Core/Src/st7567a.c:134-136 | x ≥ 128 or y ≥ 64 leaves the buffer unchanged |
| Framebuffer.DrawPixelBytes | Core/Src/st7567a.c:133-144 | in range, only byte `x + (y/8)·128` changes, and in it only bit `y%8`, which becomes set for ON and clear for OFF |
| Framebuffer.DrawPixelPixels | Core/Src/st7567a.c:133-144 | pixel view: pixel (x, y) takes the state, every other pixel keeps its value |
| Framebuffer.DrawPixelOnIdempotent | Core/Src/st7567a.c:139-140 | drawing a pixel ON twice equals drawing it once |
| Framebuffer.DrawPixelOnThenOff | Core/Src/st7567a.c:139-143 | ON then OFF equals OFF alone: the bit ends 0 and everything else is as before |
| Framebuffer.DrawPixelOnOffRestores | Core/Src/st7567a.c:139-143 | ON then OFF gives back the original buffer if and only if the pixel was dark |
| Framebuffer.VLineBytes | Core/Src/st7567a.c:146-157 | byte `x + p·128` of each page p < 8 becomes 0xFF for ON and 0x00 for OFF, and no other byte changes |
| Framebuffer.VLinePixels | Core/Src/st7567a.c:146-157 | the whole column x takes the state; every other column is unchanged |
| Framebuffer.HLineBytes | Core/Src/st7567a.c:159-171 | bit `y%8` of the 128 bytes of page `y/8` is set (ON) or cleared (OFF), and no other byte changes |
| Framebuffer.HLinePixels | Core/Src/st7567a.c:159-171 | the whole row y takes the state; every other row is unchanged |
| Framebuffer.HLineIsPixelRow | Core/Src/st7567a.c:159-171 | at every column the horizontal line agrees with drawing that one pixel |
| Text.BitmapOffsetInBounds | Core/Src/st7567a.c:200 | for a well-formed font, every offset `(idx·H + j)·BW + w` the blit reads lies inside the bitmap array |
| Text.RemainingWidthClosedForm | Core/Src/st7567a.c:197-206 | the `width` counter at group w is `gw − 8w` while that is non-negative, and `gw % 8` from then on |
| Text.NarrowGlyphRepeats | Core/Src/st7567a.c:197-206 | a glyph narrower than 8 pixels draws its full width in every byte group of a row |
| Text.GlyphPixelMsbFirst | Core/Src/st7567a.c:209-213 | pixel i of a group is drawn in `state` when `(chr << i) & 0x80` is set, else in `!state` |
| Text.RowFootprintExact | Core/Src/st7567a.c:199-208 | when BW = ⌈gw/8⌉ a glyph row covers exactly columns curX .. curX+gw−1 |
| Text.BlitGroupPixels | Core/Src/st7567a.c:208-214 | the innermost loop sets pixels x0+i of row y (i < w_range) to bit 7−i of the byte (opaque), and no other pixel changes |
| Text.BlitRowPixels | Core/Src/st7567a.c:199-215 | the middle loop draws exactly the row's footprint, each column from its group's byte, and changes nothing else |
| Text.BlitGlyphPixels | Core/Src/st7567a.c:196-216 | the three loops draw exactly rows curY .. curY+H−1 over the row footprint, each pixel from its glyph byte, and change nothing else |
| Text.WriteCharCursor | Core/Src/st7567a.c:187-192 | without room (`curX + gw > 128` or `curY + gw > 64`, with the width on both axes) nothing changes; otherwise curX grows by exactly gw, stays ≤ 128, and curY is kept |
| Text.WriteCharFallback | Core/Src/st7567a.c:180-185 | a character below the first code renders as the font's first glyph |
| Text.WriteCharPixels | Core/Src/st7567a.c:178-221 | every pixel after WriteChar: in the glyph's footprint, bit 7−i of its glyph byte chooses `state` or `!state`; elsewhere, and when there is no room, the old value |
| Text.UntilNul | Core/Src/st7567a.c:224 | the characters before the first NUL form a prefix free of NUL, followed by NUL or by the end |
| Text.WriteStringIsWriteChars | Core/Src/st7567a.c:223-227 | writing a string equals WriteChar applied in order to each character before the first NUL |
| Text.WriteStringStopsAtNul | Core/Src/st7567a.c:224 | nothing after the terminator affects the result |
| Text.WriteStringKeepsRow | Core/Src/st7567a.c:223-227 | no line wrapping, from any cursor: the row never changes and the column only moves right; a column starting ≤ 128 stays ≤ 128 |
| Bus.PageTransfersLength | Core/Src/st7567a.c:107-112 | n iterations of the page loop send 4n events |
| Bus.PageTransfersAt | Core/Src/st7567a.c:107-112 | events 4i .. 4i+3 of the page loop are iteration i's page address, column addresses and data |
| Bus.PageTransferPayload | Core/Src/st7567a.c:111 | one page iteration sends exactly the 128 bytes of page i as data |
| Bus.PageTransfersPayload | Core/Src/st7567a.c:107-112 | the data of the first n pages is the first 128·n buffer bytes, in order |
| Bus.DisplaySequenceLayout | Core/Src/st7567a.c:104-114 | a flush is 0x40; then for pages 0..7 ascending 0xB0+i, 0x10, 0x00 and bytes 128i .. 128i+127; then 0xAF |
| Bus.DisplayPayloadIsBuffer | Core/Src/st7567a.c:104-114 | the concatenated data payloads of a flush are the whole framebuffer |
| Bus.InitLogShape | Core/Src/st7567a.c:76-94 | configuration, then flush, then the final two commands make up Init's sequence |
| Bus.InitSequenceLayout | Core/Src/st7567a.c:76-94 | Init is reset; A2 A0 C8 24 81 26 2C 2E 2F; a flush of an all-zero buffer; then A4 AF |
| Bus.InitPayloadZero | Core/Src/st7567a.c:90-91 | every data byte Init sends is 0, and together they are the cleared framebuffer |
| Bus.PowerStagesCumulative | Core/Src/st7567a.c:86-88 | the power stages switch on cumulatively: booster, then booster and regulator, then all three |
| Bus.ContrastMasked | Core/Src/st7567a.c:116-120 | contrast is 0x81 then `v & 0x3F`, which is below 64, equals v mod 64, and equals v when v < 64 |
| Bus.PowerSaveBytes | Core/Src/st7567a.c:122-131 | power save on sends AE A5; off sends A4 AF |
| Bus.PowerSaveOffRestoresNormalMode | Core/Src/st7567a.c:127-130 | leaving power save sends the same two commands that end Init |
| Driver.St7567a.constructor | Core/Src/st7567a.c:50-51 | static storage starts zeroed: empty buffer, cursor (0, 0), nothing sent |
| Driver.St7567a.Reset | Core/Src/st7567a.c:54-59 | appends one reset event |
| Driver.St7567a.WriteCommand | Core/Src/st7567a.c:61-66 | appends one command byte |
| Driver.St7567a.WriteData | Core/Src/st7567a.c:68-73 | appends one data transfer of the first `size` bytes |
| Driver.St7567a.Fill | Core/Src/st7567a.c:96-102 | every buffer byte becomes 0xFF (ON) or 0x00 (OFF); cursor and log are untouched |
| Driver.St7567a.DrawPixel | Core/Src/st7567a.c:133-144 | the buffer becomes `Framebuffer.DrawPixel` of the old buffer, and nothing else changes |
| Driver.St7567a.DrawVLine | Core/Src/st7567a.c:146-157 | the buffer becomes `Framebuffer.VLine` of the old buffer |
| Driver.St7567a.DrawHLine | Core/Src/st7567a.c:159-171 | the buffer becomes `Framebuffer.HLine` of the old buffer |
| Driver.St7567a.SetCursor | Core/Src/st7567a.c:173-176 | the cursor becomes (x, y) |
| Driver.St7567a.WriteChar | Core/Src/st7567a.c:178-221 | buffer and cursor become `Text.WriteChar` of the old ones; curY and the log are untouched |
| Driver.St7567a.DrawGlyph | Core/Src/st7567a.c:196-216 | the row loop leaves `Text.BlitGlyph` of the old buffer |
| Driver.St7567a.DrawGlyphRow | Core/Src/st7567a.c:197-215 | one row with its `width` counter leaves `Text.BlitRow` of the old buffer |
| Driver.St7567a.DrawGlyphGroup | Core/Src/st7567a.c:208-214 | one byte group leaves `Text.BlitGroup` of the old buffer |
| Driver.St7567a.WriteString | Core/Src/st7567a.c:223-227 | buffer and cursor become `Text.WriteString` of the old ones |
| Driver.St7567a.Display | Core/Src/st7567a.c:104-114 | the log gains exactly `Bus.DisplaySequence` of the buffer; buffer and cursor are untouched |
| Driver.St7567a.Init | Core/Src/st7567a.c:76-94 | the log gains exactly `Bus.InitSequence`, every buffer byte is 0, and the cursor is untouched |
| Driver.St7567a.SetContrast | Core/Src/st7567a.c:116-120 | the log gains `Bus.ContrastSequence(v)`, independent of prior state |
| Driver.St7567a.PowerSave | Core/Src/st7567a.c:122-131 | the log gains `Bus.PowerSaveSequence(enable)`, independent of prior state |

## Left out

- Hardware bus: the pin toggling, `HAL_Delay(5)` and `HAL_SPI_Transmit` with its timeout (Core/Src/st7567a.c:54-73) are hardware I/O. The bus is an append-only log, the reset pulse is one event, and timing and transfer errors are not modelled. The source ignores those errors anyway.
- The controller's own state is not modelled: what the commands mean electrically, and what the display shows after them. Only the byte sequences are modelled, so "power save twice has the same effect as once" appears only as the sequence depending on `enable` alone.
- `fontlibrary.h` is not part of this model. The font is an abstract record (`Text.Font`) under a well-formedness predicate, with no concrete glyph tables.
- Driver.St7567a.DrawVLine: requires x < 128, because the source does not check x and writes outside the buffer for larger values.
- Driver.St7567a.DrawHLine: requires y < 64, for the same reason.
- Driver.St7567a.WriteChar: requires a glyph index inside the width table and a bitmap array covering every glyph. The source checks neither, and reads out of bounds when they fail.
- Plain `char` is taken as unsigned 8-bit, the ARM GCC default; characters are `uint8`.
- The bitmap offset `(ch·H + j)·BW + w` is unbounded in the model. The source computes it in 32 bits, where it could only overflow for a font of gigabytes.
- Text.WriteCharPixels: the per-pixel account of WriteChar is proved only when `curX + 8·BW ≤ 256` and `curY + H ≤ 256`, so that no pixel coordinate wraps past 255. `Text.WriteChar`, which the driver method is proved equal to, computes the `% 256` wrap in every case.
- Text.BlitGroupPixels: proved only when `x0 + n ≤ 256`, where no column of the byte group wraps past 255.
- Text.BlitRowPixels: proved only when `cx + 8·|row| ≤ 256`, where no column of the glyph row wraps past 255.
- Text.BlitGlyphPixels: proved only when `cx + 8·BW ≤ 256` and `cy + H ≤ 256`, where neither a column nor a row of the glyph wraps past 255.
- Driver.St7567a.WriteString: takes a finite sequence and stops at the first 0 or at its end. The source reads past the end of an unterminated string.
- WriteChar's three nested loops are split across the methods DrawGlyph, DrawGlyphRow and DrawGlyphGroup, one loop each. The loop bodies and counters are unchanged.
- In the innermost loop, the source's two `DrawPixel` calls (in `state` and in `!state`) are one call whose state `Text.GlyphPixelState` chooses; Text.GlyphPixelMsbFirst relates that choice to the source's test.
- The opcodes the driver never sends (SEG_REVERSE, COLOR_NORMAL, COLOR_INVERSE, SW_RESET, COM_NORMAL, NOP, BIAS7) are not declared.
- ON then OFF at one pixel does not restore the original bit: `&= ~(1 << (y % 8))` at Core/Src/st7567a.c:142 clears it whatever it was. Framebuffer.DrawPixelOnThenOff proves the bit ends 0, and Framebuffer.DrawPixelOnOffRestores proves the original buffer comes back exactly when the pixel was dark.
