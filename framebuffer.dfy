/**
 * The driver's framebuffer `ST7567A_buffer` (Core/Src/st7567a.c:50) as a value,
 * and the effect of each drawing primitive on it.
 *
 * Layout: page p (rows 8p .. 8p+7) occupies bytes 128p .. 128p+127; the byte
 * for column x of page p holds row 8p+b in bit b.
 */
module Framebuffer {
  import opened Config

  /** A framebuffer value: exactly BUFFER_SIZE bytes. */
  type Buffer = b: seq<bv8> | |b| == BUFFER_SIZE witness seq(BUFFER_SIZE, _ => 0 as bv8)

  /** Byte index of pixel (x, y): `x + (y / 8) * ST7567A_WIDTH`. */
  function PixelIndex(x: uint8, y: uint8): (k: nat)
    requires x < WIDTH && y < HEIGHT
    ensures k < BUFFER_SIZE
    ensures k % WIDTH as int == x && k / WIDTH as int == y / 8
  {
    x + (y / 8) * WIDTH
  }

  /** Two in-range pixels share a byte exactly when they share a column and a page. */
  lemma PixelIndexInjective(x: uint8, y: uint8, x': uint8, y': uint8)
    requires x < WIDTH && y < HEIGHT && x' < WIDTH && y' < HEIGHT
    ensures PixelIndex(x, y) == PixelIndex(x', y') <==> x == x' && y / 8 == y' / 8
  {
  }

  /** The mask `1 << k` of a byte, as a table so that bit reasoning needs no shift by a variable. */
  function Bit(k: nat): bv8
    requires k < 8
  {
    match k
    case 0 => 0x01 case 1 => 0x02 case 2 => 0x04 case 3 => 0x08
    case 4 => 0x10 case 5 => 0x20 case 6 => 0x40 case 7 => 0x80
  }

  /** The table is the source's `1 << k`. */
  lemma BitIsShift(k: nat)
    requires k < 8
    ensures Bit(k) == (1 as bv8) << k
  {
  }

  /** Bit k of byte b is set. */
  predicate BitOf(b: bv8, k: nat)
    requires k < 8
  {
    b & Bit(k) != 0
  }

  /** Bytes with the same eight bits are equal. */
  lemma BitsDetermineByte(a: bv8, b: bv8)
    requires forall k: nat :: k < 8 ==> (BitOf(a, k) <==> BitOf(b, k))
    ensures a == b
  {
    assert BitOf(a, 0) == BitOf(b, 0) && BitOf(a, 1) == BitOf(b, 1);
    assert BitOf(a, 2) == BitOf(b, 2) && BitOf(a, 3) == BitOf(b, 3);
    assert BitOf(a, 4) == BitOf(b, 4) && BitOf(a, 5) == BitOf(b, 5);
    assert BitOf(a, 6) == BitOf(b, 6) && BitOf(a, 7) == BitOf(b, 7);
  }

  /** Whether pixel (x, y) is lit. */
  predicate Pixel(buf: Buffer, x: uint8, y: uint8)
    requires x < WIDTH && y < HEIGHT
  {
    BitOf(buf[PixelIndex(x, y)], y % 8)
  }

  /** The byte value `st7567a_Fill` stores everywhere: 0xFF for ON, 0x00 for OFF. */
  function FillByte(s: PixelState): bv8
  {
    if s == PixelOn then 0xFF else 0x00
  }

  /** `|= m` for ON, `&= ~m` for OFF. */
  function SetMask(b: bv8, m: bv8, s: PixelState): bv8
  {
    if s == PixelOn then b | m else b & !m
  }

  /** `|= 1 << k` for ON, `&= ~(1 << k)` for OFF. */
  function SetBit(b: bv8, k: nat, s: PixelState): bv8
    requires k < 8
  {
    SetMask(b, Bit(k), s)
  }

  /** SetBit makes bit k mirror the state and leaves the seven other bits alone. */
  lemma SetBitEffect(b: bv8, k: nat, s: PixelState, m: nat)
    requires k < 8 && m < 8
    ensures BitOf(SetBit(b, k, s), m) == if m == k then s == PixelOn else BitOf(b, m)
  {
  }

  /** A later SetBit of the same bit overrides an earlier one. */
  lemma SetBitOverrides(b: bv8, k: nat, s: PixelState, t: PixelState)
    requires k < 8
    ensures SetBit(SetBit(b, k, s), k, t) == SetBit(b, k, t)
  {
    SetMaskOverrides(b, Bit(k), s, t);
  }

  /** Setting or clearing the bits of a mask twice: the second operation wins. */
  lemma SetMaskOverrides(b: bv8, m: bv8, s: PixelState, t: PixelState)
    ensures SetMask(SetMask(b, m, s), m, t) == SetMask(b, m, t)
  {
  }

  // ---------------------------------------------------------------------------
  // st7567a_Fill (Core/Src/st7567a.c:96-102)

  function Fill(s: PixelState): Buffer
  {
    seq(BUFFER_SIZE, _ => FillByte(s))
  }

  /** After a fill every pixel is lit for ON and dark for OFF. */
  lemma FillPixels(s: PixelState, x: uint8, y: uint8)
    requires x < WIDTH && y < HEIGHT
    ensures Pixel(Fill(s), x, y) == (s == PixelOn)
  {
    assert Fill(s)[PixelIndex(x, y)] == FillByte(s);
  }

  // ---------------------------------------------------------------------------
  // st7567a_DrawPixel (Core/Src/st7567a.c:133-144)

  function DrawPixel(buf: Buffer, x: uint8, y: uint8, s: PixelState): Buffer
  {
    if x >= WIDTH || y >= HEIGHT then buf
    else buf[PixelIndex(x, y) := SetBit(buf[PixelIndex(x, y)], y % 8, s)]
  }

  /** Out-of-range coordinates leave the buffer unchanged. */
  lemma DrawPixelOutOfRange(buf: Buffer, x: uint8, y: uint8, s: PixelState)
    requires x >= WIDTH || y >= HEIGHT
    ensures DrawPixel(buf, x, y, s) == buf
  {
  }

  /** In range, only byte `x + (y/8)*128` changes, and in it only bit `y%8`. */
  lemma DrawPixelBytes(buf: Buffer, x: uint8, y: uint8, s: PixelState, k: nat, m: nat)
    requires x < WIDTH && y < HEIGHT && k < BUFFER_SIZE && m < 8
    ensures k != PixelIndex(x, y) ==> DrawPixel(buf, x, y, s)[k] == buf[k]
    ensures k == PixelIndex(x, y) ==>
      BitOf(DrawPixel(buf, x, y, s)[k], m) == if m == y % 8 then s == PixelOn else BitOf(buf[k], m)
  {
    SetBitEffect(buf[PixelIndex(x, y)], y % 8, s, m);
  }

  /** Pixel view: the drawn pixel takes the state, every other pixel keeps its value. */
  lemma DrawPixelPixels(buf: Buffer, x: uint8, y: uint8, s: PixelState, x': uint8, y': uint8)
    requires x' < WIDTH && y' < HEIGHT
    ensures Pixel(DrawPixel(buf, x, y, s), x', y') ==
      if x' == x && y' == y then s == PixelOn else Pixel(buf, x', y')
  {
    if x < WIDTH && y < HEIGHT {
      PixelIndexInjective(x, y, x', y');
      SetBitEffect(buf[PixelIndex(x, y)], y % 8, s, y' % 8);
    }
  }

  /** Drawing a pixel ON twice is the same as drawing it once. */
  lemma DrawPixelOnIdempotent(buf: Buffer, x: uint8, y: uint8)
    ensures DrawPixel(DrawPixel(buf, x, y, PixelOn), x, y, PixelOn) == DrawPixel(buf, x, y, PixelOn)
  {
    if x < WIDTH && y < HEIGHT {
      SetBitOverrides(buf[PixelIndex(x, y)], y % 8, PixelOn, PixelOn);
    }
  }

  /** ON then OFF at one pixel equals drawing it OFF directly: the bit ends 0, all else as before. */
  lemma DrawPixelOnThenOff(buf: Buffer, x: uint8, y: uint8)
    ensures DrawPixel(DrawPixel(buf, x, y, PixelOn), x, y, PixelOff) == DrawPixel(buf, x, y, PixelOff)
  {
    if x < WIDTH && y < HEIGHT {
      SetBitOverrides(buf[PixelIndex(x, y)], y % 8, PixelOn, PixelOff);
    }
  }

  /** ON then OFF restores the original buffer exactly when the pixel was dark to begin with. */
  lemma DrawPixelOnOffRestores(buf: Buffer, x: uint8, y: uint8)
    requires x < WIDTH && y < HEIGHT
    ensures DrawPixel(DrawPixel(buf, x, y, PixelOn), x, y, PixelOff) == buf <==> !Pixel(buf, x, y)
  {
    DrawPixelOnThenOff(buf, x, y);
    var k := PixelIndex(x, y);
    var r := DrawPixel(buf, x, y, PixelOff);
    if !Pixel(buf, x, y) {
      forall m: nat | m < 8 ensures BitOf(r[k], m) <==> BitOf(buf[k], m) {
        SetBitEffect(buf[k], y % 8, PixelOff, m);
      }
      BitsDetermineByte(r[k], buf[k]);
      assert r == buf;
    } else {
      SetBitEffect(buf[k], y % 8, PixelOff, y % 8);
      assert r[k] != buf[k];
    }
  }

  // ---------------------------------------------------------------------------
  // st7567a_DrawVLine (Core/Src/st7567a.c:146-157): `|= 0xff` or `&= 0` on one byte per page.

  function VLine(buf: Buffer, x: uint8, s: PixelState): Buffer
    requires x < WIDTH
  {
    seq(BUFFER_SIZE, k requires 0 <= k < BUFFER_SIZE =>
      if k % WIDTH as int == x then (if s == PixelOn then buf[k] | 0xFF else buf[k] & 0) else buf[k])
  }

  /** The vertical line sets byte x + 128p to FillByte(s) in each of the 8 pages, and no other byte changes. */
  lemma VLineBytes(buf: Buffer, x: uint8, s: PixelState, k: nat)
    requires x < WIDTH && k < BUFFER_SIZE
    ensures VLine(buf, x, s)[k] == if k % WIDTH as int == x then FillByte(s) else buf[k]
    ensures k % WIDTH as int == x <==> exists p :: 0 <= p < PAGES && k == x + p * WIDTH
  {
    if k % WIDTH as int == x {
      var p := k / WIDTH as int;
      assert 0 <= p < PAGES && k == x + p * WIDTH;
    }
  }

  /** Pixel view: the whole column x takes the state; every other column is unchanged. */
  lemma VLinePixels(buf: Buffer, x: uint8, s: PixelState, x': uint8, y': uint8)
    requires x < WIDTH && x' < WIDTH && y' < HEIGHT
    ensures Pixel(VLine(buf, x, s), x', y') == if x' == x then s == PixelOn else Pixel(buf, x', y')
  {
    VLineBytes(buf, x, s, PixelIndex(x', y'));
  }

  // ---------------------------------------------------------------------------
  // st7567a_DrawHLine (Core/Src/st7567a.c:159-171): bit y%8 of all 128 bytes of page y/8.

  function HLine(buf: Buffer, y: uint8, s: PixelState): Buffer
    requires y < HEIGHT
  {
    seq(BUFFER_SIZE, k requires 0 <= k < BUFFER_SIZE =>
      if k / WIDTH as int == y / 8 then SetBit(buf[k], y % 8, s) else buf[k])
  }

  /** The horizontal line changes bit y%8 of the 128 bytes of page y/8, and no other byte. */
  lemma HLineBytes(buf: Buffer, y: uint8, s: PixelState, k: nat)
    requires y < HEIGHT && k < BUFFER_SIZE
    ensures HLine(buf, y, s)[k] ==
      if (y / 8) * WIDTH <= k < (y / 8) * WIDTH + WIDTH then SetBit(buf[k], y % 8, s) else buf[k]
  {
    assert (y / 8) * WIDTH <= k < (y / 8) * WIDTH + WIDTH <==> k / WIDTH as int == y / 8;
  }

  /** Pixel view: the whole row y takes the state; every other row is unchanged. */
  lemma HLinePixels(buf: Buffer, y: uint8, s: PixelState, x': uint8, y': uint8)
    requires y < HEIGHT && x' < WIDTH && y' < HEIGHT
    ensures Pixel(HLine(buf, y, s), x', y') == if y' == y then s == PixelOn else Pixel(buf, x', y')
  {
    var k := PixelIndex(x', y');
    if k / WIDTH as int == y / 8 {
      SetBitEffect(buf[k], y % 8, s, y' % 8);
    }
  }

  /** The horizontal line agrees with drawing pixel (x, y) for each column x, one at a time. */
  lemma HLineIsPixelRow(buf: Buffer, y: uint8, s: PixelState, x': uint8, y': uint8)
    requires y < HEIGHT && x' < WIDTH && y' < HEIGHT
    ensures Pixel(HLine(buf, y, s), x', y') == Pixel(DrawPixel(buf, x', y, s), x', y')
  {
    HLinePixels(buf, y, s, x', y');
    DrawPixelPixels(buf, x', y, s, x', y');
  }
}
