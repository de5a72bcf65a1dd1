/**
 * The ST7567A driver of Core/Src/st7567a.c as an object: the static framebuffer
 * `ST7567A_buffer`, the cursor `ST7567A` and the bus, modelled as the log of
 * every transfer made. Each method is proved against the value-level function
 * of Framebuffer, Text or Bus that states its effect.
 */
module Driver {
  import opened Config
  import FB = Framebuffer
  import Text
  import opened Bus

  class St7567a {
    /** `ST7567A_buffer`: statically allocated, never resized. */
    const buffer: array<bv8>
    /** `ST7567A.curr_x`, `ST7567A.curr_y`. */
    var curX: uint8
    var curY: uint8
    /** Every reset, command and data transfer so far, oldest first. */
    var log: seq<BusEvent>

    ghost predicate Valid()
      reads this
    {
      buffer.Length == BUFFER_SIZE
    }

    /** The framebuffer and cursor as a value. */
    ghost function View(): Text.Canvas
      reads this, buffer
      requires Valid()
    {
      Text.Canvas(buffer[..], curX, curY)
    }

    /** The state before any call: C static storage is zero-filled and nothing has been sent. */
    constructor ()
      ensures Valid() && fresh(buffer)
      ensures buffer[..] == FB.Fill(PixelOff) && curX == 0 && curY == 0 && log == []
    {
      buffer := new bv8[BUFFER_SIZE](_ => 0);
      curX, curY := 0, 0;
      log := [];
    }

    // -------------------------------------------------------------------------
    // Bus transport (Core/Src/st7567a.c:54-73)

    /** st7567a_Reset: the reset pulse and its delays, as one event. */
    method Reset()
      modifies this`log
      ensures log == old(log) + [BusEvent.Reset]
    {
      log := log + [BusEvent.Reset];
    }

    /** st7567a_WriteCommand: one byte with D/C low. */
    method WriteCommand(b: bv8)
      modifies this`log
      ensures log == old(log) + [Cmd(b)]
    {
      log := log + [Cmd(b)];
    }

    /** st7567a_WriteData: the first `size` bytes at the given address, with D/C high. */
    method WriteData(data: seq<bv8>, size: uint8)
      requires size <= |data|
      modifies this`log
      ensures log == old(log) + [Data(data[..size])]
    {
      log := log + [Data(data[..size])];
    }

    // -------------------------------------------------------------------------
    // Framebuffer primitives (Core/Src/st7567a.c:96-102, 133-171)

    method Fill(s: PixelState)
      requires Valid()
      modifies buffer
      ensures buffer[..] == FB.Fill(s)
    {
      var val: bv8 := if s == PixelOn then 0xFF else 0x00;
      var i := 0;
      while i < BUFFER_SIZE
        invariant 0 <= i <= BUFFER_SIZE
        invariant forall k :: 0 <= k < i ==> buffer[k] == FB.FillByte(s)
      {
        buffer[i] := val;
        i := i + 1;
      }
    }

    method DrawPixel(x: uint8, y: uint8, s: PixelState)
      requires Valid()
      modifies buffer
      ensures buffer[..] == FB.DrawPixel(old(buffer[..]), x, y, s)
    {
      if x >= WIDTH || y >= HEIGHT {
        return;
      }
      var k := FB.PixelIndex(x, y);
      buffer[k] := FB.SetBit(buffer[k], y % 8, s);
    }

    /** The source does not check x; the model requires it to be on the display. */
    method DrawVLine(x: uint8, s: PixelState)
      requires Valid() && x < WIDTH
      modifies buffer
      ensures buffer[..] == FB.VLine(old(buffer[..]), x, s)
    {
      var p := 0;
      while p < PAGES
        invariant 0 <= p <= PAGES
        invariant forall k :: 0 <= k < BUFFER_SIZE ==>
          buffer[k] == if k % WIDTH as int == x && k / WIDTH as int < p then FB.VLine(old(buffer[..]), x, s)[k] else old(buffer[k])
      {
        var k := x + p * WIDTH;
        if s == PixelOn {
          buffer[k] := buffer[k] | 0xFF;
        } else {
          buffer[k] := buffer[k] & 0;
        }
        p := p + 1;
      }
    }

    /** The source does not check y; the model requires it to be on the display. */
    method DrawHLine(y: uint8, s: PixelState)
      requires Valid() && y < HEIGHT
      modifies buffer
      ensures buffer[..] == FB.HLine(old(buffer[..]), y, s)
    {
      var base := (y / 8) * WIDTH;
      var x := 0;
      while x < WIDTH
        invariant 0 <= x <= WIDTH
        invariant forall k :: 0 <= k < BUFFER_SIZE ==>
          buffer[k] == if base <= k < base + x then FB.SetBit(old(buffer[k]), y % 8, s) else old(buffer[k])
      {
        var k := x + base;
        buffer[k] := FB.SetBit(buffer[k], y % 8, s);
        x := x + 1;
      }
      ghost var before := old(buffer[..]);
      forall k | 0 <= k < BUFFER_SIZE
        ensures buffer[k] == FB.HLine(before, y, s)[k]
      {
        FB.HLineBytes(before, y, s, k);
      }
      assert buffer[..] == FB.HLine(before, y, s);
    }

    // -------------------------------------------------------------------------
    // Text renderer (Core/Src/st7567a.c:173-227)

    method SetCursor(x: uint8, y: uint8)
      modifies this`curX, this`curY
      ensures curX == x && curY == y
    {
      curX, curY := x, y;
    }

    method WriteChar(ch: uint8, f: Text.Font, s: PixelState)
      requires Valid() && Text.WellFormed(f) && Text.CharInFont(f, ch)
      modifies this`curX, buffer
      ensures View() == Text.WriteChar(old(View()), ch, f, s)
    {
      var idx: nat := if ch < f.firstAsciiCode then 0 else ch - f.firstAsciiCode;
      assert idx == Text.GlyphIndex(f, ch);
      var gw := f.glyphWidth[idx];
      if WIDTH < curX + gw || HEIGHT < curY + gw {
        return;
      }
      DrawGlyph(f, idx, curX, curY, s);
      curX := (curX + gw) % 256;
    }

    /** WriteChar's row loop: every row of glyph idx with its top left corner at (cx, cy). */
    method DrawGlyph(f: Text.Font, idx: nat, cx: uint8, cy: uint8, s: PixelState)
      requires Valid() && Text.WellFormed(f) && idx < |f.glyphWidth|
      modifies buffer
      ensures buffer[..] == Text.BlitGlyph(old(buffer[..]), f, idx, cx, cy, f.glyphHeight, s)
    {
      ghost var start := buffer[..];
      var j := 0;
      while j < f.glyphHeight
        invariant 0 <= j <= f.glyphHeight
        invariant buffer[..] == Text.BlitGlyph(start, f, idx, cx, cy, j, s)
      {
        DrawGlyphRow(f, idx, j, cx, (cy + j) % 256, s);
        j := j + 1;
      }
    }

    /** The body of WriteChar's row loop: every byte group of glyph row j at pixel row y, with the `width` counter. */
    method DrawGlyphRow(f: Text.Font, idx: nat, j: nat, cx: uint8, y: uint8, s: PixelState)
      requires Valid() && Text.WellFormed(f) && idx < |f.glyphWidth| && j < f.glyphHeight
      modifies buffer
      ensures buffer[..] == Text.BlitRow(old(buffer[..]), Text.GlyphRow(f, idx, j), f.glyphWidth[idx], cx, y, f.glyphBytesWidth, s)
    {
      ghost var start := buffer[..];
      ghost var row := Text.GlyphRow(f, idx, j);
      var gw := f.glyphWidth[idx];
      var width: uint8 := gw;
      var w := 0;
      while w < f.glyphBytesWidth
        invariant 0 <= w <= f.glyphBytesWidth
        invariant width == Text.RemainingWidth(gw, w)
        invariant buffer[..] == Text.BlitRow(start, row, gw, cx, y, w, s)
      {
        Text.BitmapOffsetInBounds(f, idx, j, w);
        var chr := f.glyphBitmaps[Text.BitmapOffset(f, idx, j, w)];
        var wRange := width;
        if wRange >= 8 {
          wRange := 8;
          width := width - 8;
        }
        DrawGlyphGroup(chr, cx + 8 * w, y, wRange, s);
        w := w + 1;
      }
    }

    /**
     * The body of WriteChar's byte-group loop: n pixels of byte chr from column x0, most
     * significant bit first. The source's two DrawPixel calls, in `state` or `!state`, are one
     * call whose state GlyphPixelState chooses (Text.GlyphPixelMsbFirst relates it to the test).
     */
    method DrawGlyphGroup(chr: bv8, x0: nat, y: uint8, n: nat, s: PixelState)
      requires Valid() && n <= 8
      modifies buffer
      ensures buffer[..] == Text.BlitGroup(old(buffer[..]), chr, x0, y, n, s)
    {
      var i := 0;
      while i < n
        invariant 0 <= i <= n
        invariant buffer[..] == Text.BlitGroup(old(buffer[..]), chr, x0, y, i, s)
      {
        DrawPixel((x0 + i) % 256, y, Text.GlyphPixelState(chr, i, s));
        i := i + 1;
      }
    }

    /** The characters of a NUL-terminated string, up to the terminator (or the end of the sequence). */
    method WriteString(str: seq<uint8>, f: Text.Font, s: PixelState)
      requires Valid() && Text.WellFormed(f) && Text.TextInFont(f, str)
      modifies this`curX, buffer
      ensures View() == Text.WriteString(old(View()), str, f, s)
    {
      var i := 0;
      while i < |str| && str[i] != 0
        invariant 0 <= i <= |str|
        invariant Text.TextInFont(f, str[i..])
        invariant Text.WriteString(View(), str[i..], f, s) == Text.WriteString(old(View()), str, f, s)
      {
        assert str[i..][0] == str[i] && str[i..][1..] == str[i + 1..];
        WriteChar(str[i], f, s);
        i := i + 1;
      }
      assert str[i..] == [] || str[i..][0] == 0;
    }

    // -------------------------------------------------------------------------
    // Flush, lifecycle and power (Core/Src/st7567a.c:76-94, 104-131)

    method Display()
      requires Valid()
      modifies this`log
      ensures log == old(log) + DisplaySequence(buffer[..])
    {
      WriteCommand(SET_START_LINE);
      ghost var prefix := log;
      var i: uint8 := 0;
      while i < HEIGHT / 8
        invariant 0 <= i <= PAGES
        invariant log == prefix + PageTransfers(buffer[..], i)
      {
        ghost var before := log;
        WriteCommand(PAGE_ADDR + i as bv8);
        WriteCommand(COL_ADDR_H);
        WriteCommand(COL_ADDR_L);
        assert buffer[WIDTH * i ..][..WIDTH] == buffer[..][WIDTH * i .. WIDTH * i + WIDTH];
        WriteData(buffer[WIDTH * i ..], WIDTH);
        assert log == before + PageTransfer(buffer[..], i);
        AppendAssoc(prefix, PageTransfers(buffer[..], i), PageTransfer(buffer[..], i));
        i := i + 1;
      }
      WriteCommand(DISPLAY_ON);
      AppendAssoc(old(log), [Cmd(SET_START_LINE)], PageTransfers(buffer[..], PAGES));
    }

    /** Leaves the cursor alone: it is not in the frame. */
    method Init()
      requires Valid()
      modifies this`log, buffer
      ensures buffer[..] == FB.Fill(PixelOff)
      ensures log == old(log) + InitSequence()
    {
      ghost var start := log;
      Reset();
      WriteCommand(BIAS9);
      WriteCommand(SEG_NORMAL);
      WriteCommand(COM_REVERSE);
      WriteCommand(SET_RR | 0x4);
      WriteCommand(SET_EV_CMD);
      WriteCommand(38);
      WriteCommand(POWER_CONTROL | PWR_BOOSTER_ON);
      WriteCommand(POWER_CONTROL | PWR_BOOSTER_ON | PWR_REGULATOR_ON);
      WriteCommand(POWER_CONTROL | PWR_BOOSTER_ON | PWR_REGULATOR_ON | PWR_FOLLOWER_ON);
      ghost var configured := log;
      assert configured == start + ([BusEvent.Reset] + INIT_COMMANDS);
      Fill(PixelOff);
      Display();
      ghost var flushed := log;
      WriteCommand(DISPLAY_DRAM);
      WriteCommand(DISPLAY_ON);
      InitLogShape(start, configured, flushed, log);
    }

    method SetContrast(v: bv8)
      modifies this`log
      ensures log == old(log) + ContrastSequence(v)
    {
      WriteCommand(SET_EV_CMD);
      WriteCommand(v & 0x3F);
    }

    method PowerSave(enable: bool)
      modifies this`log
      ensures log == old(log) + PowerSaveSequence(enable)
    {
      if enable {
        WriteCommand(DISPLAY_OFF);
        WriteCommand(DISPLAY_ALL_ON);
      } else {
        WriteCommand(DISPLAY_DRAM);
        WriteCommand(DISPLAY_ON);
      }
    }
  }
}
