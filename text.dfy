/**
 * The text renderer of the driver (Core/Src/st7567a.c:173-227) on values: the
 * font record, glyph lookup, the space check, the opaque MSB-first blit and
 * the cursor advance, and string output as repeated character output.
 */
module Text {
  import opened Config
  import FB = Framebuffer

  /**
   * `fontStyle_t` from fontlibrary.h: the first ASCII code of the table, the
   * glyph height in rows, the bytes per glyph row, the width of every glyph,
   * and the flattened bitmap indexed by (index * height + row) * bytesWidth + byte.
   */
  datatype Font = Font(
    firstAsciiCode: uint8,
    glyphHeight: nat,
    glyphBytesWidth: nat,
    glyphWidth: seq<uint8>,
    glyphBitmaps: seq<bv8>)

  /** The bitmap array holds all rows of every glyph the width table lists. */
  predicate WellFormed(f: Font)
  {
    |f.glyphWidth| * f.glyphHeight * f.glyphBytesWidth <= |f.glyphBitmaps|
  }

  /** The glyph index `st7567a_WriteChar` computes: 0 below the first code, else the offset from it. */
  function GlyphIndex(f: Font, ch: uint8): nat
  {
    if ch < f.firstAsciiCode then 0 else ch - f.firstAsciiCode
  }

  /** The width table has an entry for the character's glyph index (the driver never checks this). */
  predicate CharInFont(f: Font, ch: uint8)
  {
    GlyphIndex(f, ch) < |f.glyphWidth|
  }

  function BitmapOffset(f: Font, idx: nat, j: nat, w: nat): nat
  {
    (idx * f.glyphHeight + j) * f.glyphBytesWidth + w
  }

  lemma MulMonotone(a: nat, b: nat, c: nat)
    requires a <= b
    ensures a * c <= b * c
  {
  }

  /** Every byte the blit reads lies in the bitmap array of a well-formed font. */
  lemma BitmapOffsetInBounds(f: Font, idx: nat, j: nat, w: nat)
    requires WellFormed(f) && idx < |f.glyphWidth| && j < f.glyphHeight && w < f.glyphBytesWidth
    ensures BitmapOffset(f, idx, j, w) < |f.glyphBitmaps|
  {
    var h, bw := f.glyphHeight, f.glyphBytesWidth;
    calc {
      BitmapOffset(f, idx, j, w);
    <  (idx * h + j) * bw + bw;
    == (idx * h + j + 1) * bw;
    <= { MulMonotone(idx * h + j + 1, (idx + 1) * h, bw); }
       (idx + 1) * h * bw;
    <= { MulMonotone(idx + 1, |f.glyphWidth|, h); MulMonotone((idx + 1) * h, |f.glyphWidth| * h, bw); }
       |f.glyphWidth| * h * bw;
    }
  }

  /** Byte w of row j of glyph idx. */
  function GlyphByte(f: Font, idx: nat, j: nat, w: nat): bv8
    requires WellFormed(f) && idx < |f.glyphWidth| && j < f.glyphHeight && w < f.glyphBytesWidth
  {
    BitmapOffsetInBounds(f, idx, j, w);
    f.glyphBitmaps[BitmapOffset(f, idx, j, w)]
  }

  /** The glyphBytesWidth bytes of row j of glyph idx, left to right. */
  function GlyphRow(f: Font, idx: nat, j: nat): seq<bv8>
    requires WellFormed(f) && idx < |f.glyphWidth| && j < f.glyphHeight
  {
    seq(f.glyphBytesWidth, w requires 0 <= w < f.glyphBytesWidth => GlyphByte(f, idx, j, w))
  }

  // ---------------------------------------------------------------------------
  // The per-row `width` counter of st7567a_WriteChar (Core/Src/st7567a.c:197-206)

  /** The value of `width` when byte group w of a row starts: it drops by 8 only while it is at least 8. */
  function RemainingWidth(gw: nat, w: nat): nat
  {
    if w == 0 then gw
    else
      var p := RemainingWidth(gw, w - 1);
      if p >= 8 then p - 8 else p
  }

  /** `w_range`: the number of pixels byte group w draws. */
  function GroupRange(gw: nat, w: nat): (n: nat)
    ensures n <= 8
  {
    var p := RemainingWidth(gw, w);
    if p >= 8 then 8 else p
  }

  /** Closed form: the counter falls by 8 per group until it is below 8, then sticks at gw % 8. */
  lemma {:induction false} RemainingWidthClosedForm(gw: nat, w: nat)
    ensures RemainingWidth(gw, w) == if 8 * w <= gw then gw - 8 * w else gw % 8
  {
    if w > 0 {
      RemainingWidthClosedForm(gw, w - 1);
    }
  }

  /** A glyph narrower than 8 pixels draws its full width again in every later byte group. */
  lemma NarrowGlyphRepeats(gw: nat, w: nat)
    requires gw < 8
    ensures GroupRange(gw, w) == gw
  {
    RemainingWidthClosedForm(gw, w);
  }

  // ---------------------------------------------------------------------------
  // Blit (Core/Src/st7567a.c:194-216)

  /** Pixel i of a byte group: a set bit draws in the given state, a clear bit in `!state`. */
  function GlyphPixelState(chr: bv8, i: nat, s: PixelState): PixelState
    requires i < 8
  {
    if FB.BitOf(chr, 7 - i) then s else Negate(s)
  }

  /** The source's test `(chr << i) & 0x80` reads bit 7 - i: bits are scanned most significant first. */
  lemma GlyphPixelMsbFirst(chr: bv8, i: nat, s: PixelState)
    requires i < 8
    ensures GlyphPixelState(chr, i, s) == if (chr << i) & 0x80 != 0 then s else Negate(s)
  {
  }

  /** The innermost loop: pixels x0 + i for i < n of one byte group, x truncated to uint8. */
  function BlitGroup(buf: FB.Buffer, chr: bv8, x0: nat, y: uint8, n: nat, s: PixelState): FB.Buffer
    requires n <= 8
  {
    if n == 0 then buf
    else FB.DrawPixel(BlitGroup(buf, chr, x0, y, n - 1, s), (x0 + n - 1) % 256, y, GlyphPixelState(chr, n - 1, s))
  }

  /** The middle loop: the first k byte groups of one glyph row, drawn at pixel row y. */
  function BlitRow(buf: FB.Buffer, row: seq<bv8>, gw: nat, cx: uint8, y: uint8, k: nat, s: PixelState): FB.Buffer
    requires k <= |row|
  {
    if k == 0 then buf
    else BlitGroup(BlitRow(buf, row, gw, cx, y, k - 1, s), row[k - 1], cx + 8 * (k - 1), y, GroupRange(gw, k - 1), s)
  }

  /** The outer loop: the first n rows of glyph idx, row j at pixel row curY + j truncated to uint8. */
  function BlitGlyph(buf: FB.Buffer, f: Font, idx: nat, cx: uint8, cy: uint8, n: nat, s: PixelState): FB.Buffer
    requires WellFormed(f) && idx < |f.glyphWidth| && n <= f.glyphHeight
  {
    if n == 0 then buf
    else
      BlitRow(BlitGlyph(buf, f, idx, cx, cy, n - 1, s), GlyphRow(f, idx, n - 1), f.glyphWidth[idx],
              cx, (cy + n - 1) % 256, f.glyphBytesWidth, s)
  }

  /** Columns a glyph row of width gw covers after k byte groups, counted from cx. */
  predicate InRowFootprint(gw: nat, cx: nat, k: nat, x: nat)
  {
    cx <= x < cx + 8 * k && (x - cx) % 8 < GroupRange(gw, (x - cx) / 8)
  }

  /** A column in the footprint of k byte groups lies in one of those groups. */
  lemma FootprintBound(gw: nat, cx: nat, k: nat, x: nat)
    ensures InRowFootprint(gw, cx, k, x) ==> (x - cx) / 8 < k
  {
  }

  /** When the byte width is exactly what the glyph needs, a row covers precisely columns cx .. cx+gw-1. */
  lemma RowFootprintExact(gw: nat, cx: nat, bw: nat, x: nat)
    requires bw == (gw + 7) / 8
    ensures InRowFootprint(gw, cx, bw, x) <==> cx <= x < cx + gw
  {
    if cx <= x {
      RemainingWidthClosedForm(gw, (x - cx) / 8);
    }
  }

  lemma {:induction false} BlitGroupPixels(buf: FB.Buffer, chr: bv8, x0: nat, y: uint8, n: nat, s: PixelState,
                                           x': uint8, y': uint8)
    requires n <= 8 && x0 + n <= 256 && x' < WIDTH && y' < HEIGHT
    ensures FB.Pixel(BlitGroup(buf, chr, x0, y, n, s), x', y') ==
      if y' == y && x0 <= x' < x0 + n then GlyphPixelState(chr, x' - x0, s) == PixelOn
      else FB.Pixel(buf, x', y')
  {
    if n > 0 {
      var prev := BlitGroup(buf, chr, x0, y, n - 1, s);
      var x: uint8 := x0 + n - 1;
      assert (x0 + n - 1) % 256 == x;
      assert BlitGroup(buf, chr, x0, y, n, s) == FB.DrawPixel(prev, x, y, GlyphPixelState(chr, n - 1, s));
      BlitGroupPixels(buf, chr, x0, y, n - 1, s, x', y');
      FB.DrawPixelPixels(prev, x, y, GlyphPixelState(chr, n - 1, s), x', y');
    }
  }

  /** Column offset d lies in byte group w exactly when 8w <= d < 8w + 8. */
  lemma GroupOfColumn(d: nat, w: nat)
    requires 8 * w <= d < 8 * w + 8
    ensures d / 8 == w && d % 8 == d - 8 * w
  {
  }

  /** The footprint after k groups is that after k - 1 groups plus the pixels group k - 1 draws. */
  lemma RowFootprintStep(gw: nat, cx: nat, k: nat, x: nat)
    requires k > 0
    ensures InRowFootprint(gw, cx, k, x) <==>
      InRowFootprint(gw, cx, k - 1, x) || cx + 8 * (k - 1) <= x < cx + 8 * (k - 1) + GroupRange(gw, k - 1)
    ensures cx + 8 * (k - 1) <= x < cx + 8 * k ==> (x - cx) / 8 == k - 1 && (x - cx) % 8 == x - cx - 8 * (k - 1)
    ensures cx <= x < cx + 8 * (k - 1) ==> (x - cx) / 8 < k - 1
    ensures InRowFootprint(gw, cx, k, x) ==> (x - cx) / 8 < k
  {
    if cx + 8 * (k - 1) <= x < cx + 8 * k {
      GroupOfColumn(x - cx, k - 1);
    }
  }

  lemma {:induction false} BlitRowPixels(buf: FB.Buffer, row: seq<bv8>, gw: nat, cx: uint8, y: uint8, k: nat,
                                         s: PixelState, x': uint8, y': uint8)
    requires k <= |row| && cx + 8 * |row| <= 256 && x' < WIDTH && y' < HEIGHT
    ensures InRowFootprint(gw, cx, k, x') ==> (x' - cx) / 8 < k
    ensures FB.Pixel(BlitRow(buf, row, gw, cx, y, k, s), x', y') ==
      if y' == y && InRowFootprint(gw, cx, k, x')
      then GlyphPixelState(row[(x' - cx) / 8], (x' - cx) % 8, s) == PixelOn
      else FB.Pixel(buf, x', y')
  {
    if k > 0 {
      var x0 := cx + 8 * (k - 1);
      var prev := BlitRow(buf, row, gw, cx, y, k - 1, s);
      BlitRowPixels(buf, row, gw, cx, y, k - 1, s, x', y');
      BlitGroupPixels(prev, row[k - 1], x0, y, GroupRange(gw, k - 1), s, x', y');
      RowFootprintStep(gw, cx, k, x');
      if x0 <= x' < x0 + GroupRange(gw, k - 1) {
        GroupOfColumn(x' - cx, k - 1);
      }
    }
  }

  lemma {:induction false} BlitGlyphPixels(buf: FB.Buffer, f: Font, idx: nat, cx: uint8, cy: uint8, n: nat,
                                           s: PixelState, x': uint8, y': uint8)
    requires WellFormed(f) && idx < |f.glyphWidth| && n <= f.glyphHeight
    requires cx + 8 * f.glyphBytesWidth <= 256 && cy + f.glyphHeight <= 256 && x' < WIDTH && y' < HEIGHT
    ensures InRowFootprint(f.glyphWidth[idx], cx, f.glyphBytesWidth, x') ==> (x' - cx) / 8 < f.glyphBytesWidth
    ensures FB.Pixel(BlitGlyph(buf, f, idx, cx, cy, n, s), x', y') ==
      if cy <= y' < cy + n && InRowFootprint(f.glyphWidth[idx], cx, f.glyphBytesWidth, x')
      then GlyphPixelState(GlyphByte(f, idx, y' - cy, (x' - cx) / 8), (x' - cx) % 8, s) == PixelOn
      else FB.Pixel(buf, x', y')
  {
    FootprintBound(f.glyphWidth[idx], cx, f.glyphBytesWidth, x');
    if n > 0 {
      var row := GlyphRow(f, idx, n - 1);
      var y: uint8 := cy + n - 1;
      assert (cy + n - 1) % 256 == y;
      BlitGlyphPixels(buf, f, idx, cx, cy, n - 1, s, x', y');
      BlitRowPixels(BlitGlyph(buf, f, idx, cx, cy, n - 1, s), row, f.glyphWidth[idx], cx, y,
                    f.glyphBytesWidth, s, x', y');
      if y' == y && InRowFootprint(f.glyphWidth[idx], cx, f.glyphBytesWidth, x') {
        assert row[(x' - cx) / 8] == GlyphByte(f, idx, y' - cy, (x' - cx) / 8);
      }
    }
  }

  // ---------------------------------------------------------------------------
  // st7567a_WriteChar (Core/Src/st7567a.c:178-221)

  /** What st7567a_WriteChar reads and writes: the framebuffer and the cursor `ST7567A`. */
  datatype Canvas = Canvas(buffer: FB.Buffer, curX: uint8, curY: uint8)

  /** The space check: `curr_x + GlyphWidth[ch]` against the width and `curr_y + GlyphWidth[ch]` against the height. */
  predicate HasRoom(c: Canvas, gw: uint8)
  {
    c.curX + gw <= WIDTH && c.curY + gw <= HEIGHT
  }

  function WriteChar(c: Canvas, ch: uint8, f: Font, s: PixelState): Canvas
    requires WellFormed(f) && CharInFont(f, ch)
  {
    var idx := GlyphIndex(f, ch);
    var gw := f.glyphWidth[idx];
    if !HasRoom(c, gw) then c
    else Canvas(BlitGlyph(c.buffer, f, idx, c.curX, c.curY, f.glyphHeight, s), (c.curX + gw) % 256, c.curY)
  }

  /**
   * Without room for the glyph nothing changes. Otherwise the cursor moves right by exactly
   * the glyph width without 8-bit wrap-around and stays within the display, and the row is kept.
   */
  lemma WriteCharCursor(c: Canvas, ch: uint8, f: Font, s: PixelState)
    requires WellFormed(f) && CharInFont(f, ch)
    ensures var gw := f.glyphWidth[GlyphIndex(f, ch)];
      var r := WriteChar(c, ch, f, s);
      (c.curX + gw > WIDTH || c.curY + gw > HEIGHT ==> r == c) &&
      (c.curX + gw <= WIDTH && c.curY + gw <= HEIGHT ==>
         r.curX == c.curX + gw && r.curX <= WIDTH && r.curY == c.curY)
  {
  }

  /** A character below the font's first code renders as the font's first glyph. */
  lemma WriteCharFallback(c: Canvas, ch: uint8, f: Font, s: PixelState)
    requires WellFormed(f) && CharInFont(f, ch) && ch < f.firstAsciiCode
    ensures CharInFont(f, f.firstAsciiCode)
    ensures WriteChar(c, ch, f, s) == WriteChar(c, f.firstAsciiCode, f, s)
  {
  }

  /**
   * The pixels WriteChar draws, when the glyph fits and its byte groups do not wrap past
   * coordinate 255: the footprint of every glyph row shows bit 7 - i of its glyph byte
   * (in `s` when set, in `!s` when clear), every other pixel keeps its value.
   */
  lemma WriteCharPixels(c: Canvas, ch: uint8, f: Font, s: PixelState, x: uint8, y: uint8)
    requires WellFormed(f) && CharInFont(f, ch) && x < WIDTH && y < HEIGHT
    requires c.curX + 8 * f.glyphBytesWidth <= 256 && c.curY + f.glyphHeight <= 256
    ensures var idx := GlyphIndex(f, ch);
      var gw := f.glyphWidth[idx];
      FB.Pixel(WriteChar(c, ch, f, s).buffer, x, y) ==
        if HasRoom(c, gw) && c.curY <= y < c.curY + f.glyphHeight && InRowFootprint(gw, c.curX, f.glyphBytesWidth, x)
        then (if FB.BitOf(GlyphByte(f, idx, y - c.curY, (x - c.curX) / 8), 7 - (x - c.curX) % 8) then s else Negate(s)) == PixelOn
        else FB.Pixel(c.buffer, x, y)
  {
    var idx := GlyphIndex(f, ch);
    if HasRoom(c, f.glyphWidth[idx]) {
      BlitGlyphPixels(c.buffer, f, idx, c.curX, c.curY, f.glyphHeight, s, x, y);
      if c.curY <= y < c.curY + f.glyphHeight && InRowFootprint(f.glyphWidth[idx], c.curX, f.glyphBytesWidth, x) {
        GlyphPixelMsbFirst(GlyphByte(f, idx, y - c.curY, (x - c.curX) / 8), (x - c.curX) % 8, s);
      }
    }
  }

  // ---------------------------------------------------------------------------
  // st7567a_WriteString (Core/Src/st7567a.c:223-227)

  /** The characters before the first NUL (all of them when there is none). */
  function UntilNul(str: seq<uint8>): (t: seq<uint8>)
    ensures |t| <= |str| && t == str[..|t|]
    ensures forall k :: 0 <= k < |t| ==> t[k] != 0
    ensures |t| < |str| ==> str[|t|] == 0
  {
    if str == [] || str[0] == 0 then [] else [str[0]] + UntilNul(str[1..])
  }

  /** Every character before the first NUL has a glyph in the font. */
  predicate TextInFont(f: Font, str: seq<uint8>)
  {
    str == [] || str[0] == 0 || (CharInFont(f, str[0]) && TextInFont(f, str[1..]))
  }

  /** The `while(*str)` loop: one WriteChar per character until the terminator. */
  function WriteString(c: Canvas, str: seq<uint8>, f: Font, s: PixelState): Canvas
    requires WellFormed(f) && TextInFont(f, str)
    decreases |str|
  {
    if str == [] || str[0] == 0 then c
    else WriteString(WriteChar(c, str[0], f, s), str[1..], f, s)
  }

  /** Writing every character of a sequence in order, with no terminator test. */
  function WriteChars(c: Canvas, t: seq<uint8>, f: Font, s: PixelState): Canvas
    requires WellFormed(f) && forall k :: 0 <= k < |t| ==> CharInFont(f, t[k])
    decreases |t|
  {
    if t == [] then c else WriteChars(WriteChar(c, t[0], f, s), t[1..], f, s)
  }

  /** Writing a string is WriteChar applied, in order, to each character before the first NUL. */
  lemma {:induction false} WriteStringIsWriteChars(c: Canvas, str: seq<uint8>, f: Font, s: PixelState)
    requires WellFormed(f) && TextInFont(f, str)
    ensures forall k :: 0 <= k < |UntilNul(str)| ==> CharInFont(f, UntilNul(str)[k])
    ensures WriteString(c, str, f, s) == WriteChars(c, UntilNul(str), f, s)
    decreases |str|
  {
    if str != [] && str[0] != 0 {
      WriteStringIsWriteChars(WriteChar(c, str[0], f, s), str[1..], f, s);
      assert UntilNul(str) == [str[0]] + UntilNul(str[1..]);
      assert UntilNul(str)[1..] == UntilNul(str[1..]);
    }
  }

  /** Nothing after the terminator is drawn. */
  lemma {:induction false} WriteStringStopsAtNul(c: Canvas, a: seq<uint8>, b: seq<uint8>, f: Font, s: PixelState)
    requires WellFormed(f) && TextInFont(f, a)
    ensures TextInFont(f, a + [0] + b)
    ensures WriteString(c, a + [0] + b, f, s) == WriteString(c, a, f, s)
    decreases |a|
  {
    if a == [] {
      assert (a + [0] + b)[0] == 0;
    } else if a[0] == 0 {
      assert (a + [0] + b)[0] == 0;
    } else {
      assert (a + [0] + b)[1..] == a[1..] + [0] + b;
      WriteStringStopsAtNul(WriteChar(c, a[0], f, s), a[1..], b, f, s);
    }
  }

  /**
   * No line wrapping: the row never changes and the column only moves right; a cursor
   * that starts on the display stays on it.
   */
  lemma {:induction false} WriteStringKeepsRow(c: Canvas, str: seq<uint8>, f: Font, s: PixelState)
    requires WellFormed(f) && TextInFont(f, str)
    ensures WriteString(c, str, f, s).curY == c.curY
    ensures c.curX <= WriteString(c, str, f, s).curX
    ensures c.curX <= WIDTH ==> WriteString(c, str, f, s).curX <= WIDTH
    decreases |str|
  {
    if str != [] && str[0] != 0 {
      WriteCharCursor(c, str[0], f, s);
      WriteStringKeepsRow(WriteChar(c, str[0], f, s), str[1..], f, s);
    }
  }
}
