/** The packed-nibble framebuffer scanned out to the 640x480 display.

    Each byte holds two horizontally adjacent pixels: the even (left) pixel
    in bits 0-2 and the odd (right) pixel in bits 3-5, one of eight colours
    each. Rows are stored one after the other, `Stride` bytes per row. */
module Framebuffer {

  const Width: int := 640
  const Height: int := 480

  /** Bytes per row: two pixels per byte. */
  const Stride: int := 320

  /** Number of bytes in the whole buffer: 640 * 480 / 2. */
  const BufferSize: int := 153600

  type Byte = bv8

  /** A colour index: three bits, so only eight colours exist. */
  type Colour = c: Byte | c < 8

  const Black: Colour := 0
  const Red: Colour := 1
  const Green: Colour := 2
  const Yellow: Colour := 3
  const Blue: Colour := 4
  const Magenta: Colour := 5
  const Cyan: Colour := 6
  const White: Colour := 7

  /** The whole framebuffer: always exactly `BufferSize` bytes. */
  type Frame = s: seq<Byte> | |s| == BufferSize witness seq(BufferSize, _ => 0)

  /** Row of the byte at offset `i`. */
  function RowOf(i: int): int {
    i / 320
  }

  /** Byte column (pixel pair) of the byte at offset `i`. */
  function ColOf(i: int): int {
    i % 320
  }

  /** Colour of the left (even) pixel of a byte. */
  function LeftOf(b: Byte): Colour {
    b & 7
  }

  /** Colour of the right (odd) pixel of a byte. */
  function RightOf(b: Byte): Colour {
    (b >> 3) & 7
  }

  /** Rewrite only the left pixel, as the trailing column of a fill does. */
  function SetLeft(b: Byte, c: Colour): (r: Byte)
    ensures LeftOf(r) == c
    ensures RightOf(r) == RightOf(b)
    ensures r & 0xF8 == b & 0xF8
  {
    (b & 0xF8) | c
  }

  /** Rewrite only the right pixel, as the odd leading column of a fill does. */
  function SetRight(b: Byte, c: Colour): (r: Byte)
    ensures RightOf(r) == c
    ensures LeftOf(r) == LeftOf(b)
    ensures r & 0xC7 == b & 0xC7
  {
    (b & 0xC7) | (c << 3)
  }

  /** A whole byte with both pixels set to `c`; bits 6 and 7 are cleared. */
  function Pair(c: Colour): (r: Byte)
    ensures LeftOf(r) == c && RightOf(r) == c
    ensures r & 0xC0 == 0
  {
    (c << 3) | c
  }

  /** Offset of the byte holding pixel (px, py), as the source computes it. */
  function ByteIndex(px: int, py: int): (i: int)
    requires 0 <= px < Width && 0 <= py < Height
    ensures 0 <= i < BufferSize
    ensures RowOf(i) == py && ColOf(i) == px / 2
  {
    (py * 640 + px) / 2
  }

  /** The colour of pixel (px, py). */
  function Pixel(f: Frame, px: int, py: int): Colour
    requires 0 <= px < Width && 0 <= py < Height
  {
    var b := f[ByteIndex(px, py)];
    if px % 2 == 0 then LeftOf(b) else RightOf(b)
  }
}
