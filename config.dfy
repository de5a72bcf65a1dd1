/**
 * Display parameters and the pixel-state enum of the ST7567A driver header
 * (Core/Inc/st7567a.h). These fix the data layout every other module uses.
 */
module Config {

  /** The C `uint8_t`: every coordinate, length and cursor field of the driver. */
  type uint8 = x: int | 0 <= x < 256

  const WIDTH: uint8 := 128
  const HEIGHT: uint8 := 64
  const PAGES: uint8 := 8
  /** Rows per page: each buffer byte holds this many vertically stacked pixels. */
  const PAGE_ROWS: nat := 8
  /** `ST7567A_WIDTH * ST7567A_HEIGHT / ST7567A_PAGES`, written out; BufferLayout proves it equal to that formula. */
  const BUFFER_SIZE: nat := 1024

  /** `ST7567A_PixelState_t`: PIXEL_OFF = 0, PIXEL_ON = 1. */
  datatype PixelState = PixelOff | PixelOn

  function StateValue(s: PixelState): (v: nat)
    ensures v < 2
  {
    match s
    case PixelOff => 0
    case PixelOn => 1
  }

  /** The C logical negation `!state`, applied to the enum's integer value. */
  function Negate(s: PixelState): (r: PixelState)
    ensures StateValue(r) == (if StateValue(s) == 0 then 1 else 0)
  {
    if StateValue(s) == 0 then PixelOn else PixelOff
  }

  /** `!` on the two enum values swaps them and is an involution. */
  lemma NegateSwaps(s: PixelState)
    ensures Negate(s) != s
    ensures Negate(PixelOn) == PixelOff && Negate(PixelOff) == PixelOn
    ensures Negate(Negate(s)) == s
  {
  }

  /** The header's buffer size: exactly PAGES pages of WIDTH column bytes, and the pages cover the height. */
  lemma BufferLayout()
    ensures BUFFER_SIZE == WIDTH as int * HEIGHT as int / PAGES as int
    ensures BUFFER_SIZE == PAGES * WIDTH
    ensures PAGES * PAGE_ROWS == HEIGHT
  {
  }

  /** A page of WIDTH bytes fits the `uint8_t` length argument of the data transfer. */
  lemma PageLengthFitsUint8()
    ensures WIDTH as int < 256
    ensures (WIDTH as int) % 256 == WIDTH as int
  {
  }
}
