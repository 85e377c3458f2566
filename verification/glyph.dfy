/** `DrawPetsciiChar`: blit one 8x8 glyph of the character ROM into the
    framebuffer by assembling whole bytes, two pixels at a time. */
module Glyph {
  import opened Words
  import opened Framebuffer

  /** The character generator ROM. Its contents are not part of the model;
      only its size matters: the glyphs used live at 2048 .. 4095. */
  type Rom = s: seq<Byte> | |s| >= 4096 witness seq(4096, _ => 0)

  /** Offset of the glyph's second character set within the ROM. */
  const GlyphSet: int := 2048

  /** The byte with only bit `n` set. */
  function BitMask(n: int): (m: Byte)
    requires 0 <= n < 8
  {
    match n
    case 0 => 1
    case 1 => 2
    case 2 => 4
    case 3 => 8
    case 4 => 16
    case 5 => 32
    case 6 => 64
    case _ => 128
  }

  /** Whether bit `n` of `b` is set. */
  predicate Bit(b: Byte, n: int)
    requires 0 <= n < 8
  {
    b & BitMask(n) != 0
  }

  /** ROM byte holding row `line` of the glyph for `ch`. */
  function RomIndex(ch: U8, line: int): (k: int)
    requires 0 <= line < 8
    ensures GlyphSet <= k < 4096
  {
    GlyphSet + 8 * ch + line
  }

  /** The byte for two pixels, each either lit in `colour` or black. */
  function PairOf(left: bool, right: bool, colour: Colour): (r: Byte)
    ensures LeftOf(r) == if left then colour else 0
    ensures RightOf(r) == if right then colour else 0
  {
    (if left then colour else 0) | (if right then colour << 3 else 0)
  }

  /** Reference definition of the byte holding pixels 2j and 2j+1 of a glyph
      row: pixel k of the row is lit when bit 7 - k of the ROM byte is set. */
  function GlyphPair(bits: Byte, j: int, colour: Colour): Byte
    requires 0 <= j < 4
  {
    PairOf(Bit(bits, 7 - 2 * j), Bit(bits, 6 - 2 * j), colour)
  }

  /** Offset of the byte holding the glyph's top-left pixel; an odd `xPos`
      is rounded down to the byte boundary. */
  function GlyphBase(xPos: nat, yPos: nat): nat {
    (yPos * 640 + xPos) / 2
  }

  /** All 32 bytes the blit writes lie in the buffer. */
  predicate GlyphFits(xPos: nat, yPos: nat) {
    GlyphBase(xPos, yPos) + 7 * Stride + 3 < BufferSize
  }

  /** Whether byte `i` is one of the four bytes of one of the eight rows. */
  predicate InGlyph(base: int, i: int) {
    base <= i && RowOf(i - base) < 8 && ColOf(i - base) < 4
  }

  /** Reference definition of the blit: the 32 glyph bytes are replaced
      by their pixel pairs, every other byte is kept. */
  function Drawn(f: Frame, xPos: nat, yPos: nat, ch: U8, colour: Colour, rom: Rom): Frame
    requires GlyphFits(xPos, yPos)
  {
    var base := GlyphBase(xPos, yPos);
    seq(BufferSize, i requires 0 <= i < BufferSize =>
      if InGlyph(base, i)
      then GlyphPair(rom[RomIndex(ch, RowOf(i - base))], ColOf(i - base), colour)
      else f[i])
  }

  /** The ROM byte after the row loop has consumed `x` pixel pairs from its
      low end: shifted right by two bits per pair. */
  function Consumed(bits: Byte, x: int): Byte
    requires 0 <= x <= 4
  {
    if x == 0 then bits
    else if x == 1 then bits >> 2
    else if x == 2 then bits >> 4
    else if x == 3 then bits >> 6
    else 0
  }

  /** The two low bits of the consumed ROM byte are bits 2x + 1 and 2x of
      the original, and consuming one more pair shifts by two. */
  lemma ConsumedBits(bits: Byte, x: int)
    requires 0 <= x < 4
    ensures (Consumed(bits, x) & 2 != 0) == Bit(bits, 2 * x + 1)
    ensures (Consumed(bits, x) & 1 != 0) == Bit(bits, 2 * x)
    ensures Consumed(bits, x) >> 2 == Consumed(bits, x + 1)
  {
    if x == 0 {
    } else if x == 1 {
    } else if x == 2 {
    } else {
    }
  }

  /** The loop body's two tests build the same byte as `PairOf`. */
  lemma LoopPair(line: Byte, colour: Colour)
    ensures var low: Byte := if line & 2 != 0 then colour else 0;
            (if line & 1 != 0 then low | (colour << 3) else low) == PairOf(line & 2 != 0, line & 1 != 0, colour)
  {
  }

  /** One step of the row loop: the low two bits of the shifted ROM byte
      select the two pixels of the byte at position 3 - x. */
  lemma PairStep(bits: Byte, x: int, colour: Colour)
    requires 0 <= x < 4
    ensures var line := Consumed(bits, x);
            var low: Byte := if line & 2 != 0 then colour else 0;
            (if line & 1 != 0 then low | (colour << 3) else low) == GlyphPair(bits, 3 - x, colour)
    ensures Consumed(bits, x) >> 2 == Consumed(bits, x + 1)
  {
    ConsumedBits(bits, x);
    LoopPair(Consumed(bits, x), colour);
    assert 7 - 2 * (3 - x) == 2 * x + 1 && 6 - 2 * (3 - x) == 2 * x;
  }

  /** The inner loop of the blit: write the four bytes of one glyph row,
      from the rightmost byte `last` backwards, consuming the ROM byte two
      bits at a time from the least significant end. */
  method DrawGlyphRow(f: Frame, last: nat, bits: Byte, colour: Colour) returns (out: Frame)
    requires 3 <= last < BufferSize
    ensures forall j :: 0 <= j < 4 ==> out[last - 3 + j] == GlyphPair(bits, j, colour)
    ensures forall i :: 0 <= i < BufferSize && !(last - 3 <= i <= last) ==> out[i] == f[i]
  {
    out := f;
    var o: int := last;
    var line := bits;
    var x := 0;
    while x < 4
      invariant 0 <= x <= 4
      invariant o == last - x
      invariant line == Consumed(bits, x)
      invariant forall j :: 4 - x <= j < 4 ==> out[last - 3 + j] == GlyphPair(bits, j, colour)
      invariant forall i :: 0 <= i < BufferSize && !(o < i <= last) ==> out[i] == f[i]
    {
      PairStep(bits, x, colour);
      var pair: Byte := 0;
      if line & 2 != 0 {
        pair := colour;
      }
      if line & 1 != 0 {
        pair := pair | (colour << 3);
      }
      out := out[o := pair];
      o := o - 1;
      line := line >> 2;
      x := x + 1;
    }
  }

  /** `out` holds the glyph's first `n` rows and `f` everywhere else. */
  ghost predicate DrawnRows(f: Frame, out: Frame, base: int, ch: U8, colour: Colour, rom: Rom, n: int) {
    forall i :: 0 <= i < BufferSize ==>
      out[i] == if InGlyph(base, i) && RowOf(i - base) < n
                then GlyphPair(rom[RomIndex(ch, RowOf(i - base))], ColOf(i - base), colour)
                else f[i]
  }

  /** Writing row `n` of the glyph extends the drawn rows by one. */
  lemma AddRow(f: Frame, mid: Frame, out: Frame, base: int, ch: U8, colour: Colour, rom: Rom, n: int)
    requires 0 <= base && 0 <= n < 8 && base + n * 320 + 3 < BufferSize
    requires DrawnRows(f, mid, base, ch, colour, rom, n)
    requires forall j :: 0 <= j < 4 ==>
               out[base + n * 320 + j] == GlyphPair(rom[RomIndex(ch, n)], j, colour)
    requires forall i :: 0 <= i < BufferSize && !(base + n * 320 <= i <= base + n * 320 + 3) ==>
               out[i] == mid[i]
    ensures DrawnRows(f, out, base, ch, colour, rom, n + 1)
  {
    forall i | 0 <= i < BufferSize
      ensures out[i] == if InGlyph(base, i) && RowOf(i - base) < n + 1
                        then GlyphPair(rom[RomIndex(ch, RowOf(i - base))], ColOf(i - base), colour)
                        else f[i]
    {
      if base + n * 320 <= i <= base + n * 320 + 3 {
        var j := i - base - n * 320;
        assert RowOf(i - base) == n && ColOf(i - base) == j;
      }
    }
  }

  /** Blit the glyph for `ch` at (xPos, yPos): for each of the eight rows,
      fetch ROM byte 2048 + 8 * ch + row and write the row's four bytes. */
  method DrawPetsciiChar(f: Frame, xPos: nat, yPos: nat, ch: U8, colour: Colour, rom: Rom) returns (out: Frame)
    requires GlyphFits(xPos, yPos)
    ensures out == Drawn(f, xPos, yPos, ch, colour, rom)
  {
    ghost var base := GlyphBase(xPos, yPos);
    out := f;
    var line := 0;
    while line < 8
      invariant 0 <= line <= 8
      invariant DrawnRows(f, out, base, ch, colour, rom, line)
    {
      var last := ((yPos + line) * 640 + xPos) / 2 + 3;
      assert last == base + line * 320 + 3;
      var bits := rom[GlyphSet + ch * 8 + line];
      var mid := out;
      out := DrawGlyphRow(out, last, bits, colour);
      AddRow(f, mid, out, base, ch, colour, rom, line);
      line := line + 1;
    }
    assert forall i :: 0 <= i < BufferSize ==> out[i] == Drawn(f, xPos, yPos, ch, colour, rom)[i];
  }

  /** Byte `base + a * 320 + b` is glyph byte (a, b) when it lies in the block. */
  lemma InGlyphAt(base: int, a: int, b: int)
    requires 0 <= base && 0 <= a < 8 && 0 <= b < 4
    ensures InGlyph(base, base + a * 320 + b)
    ensures RowOf(a * 320 + b) == a && ColOf(a * 320 + b) == b
  {
  }

  /** A byte of a neighbouring column or row is not a glyph byte, as long
      as the block does not run past the end of a screen row. */
  lemma NotInGlyphAt(base: int, a: int, b: int)
    requires -316 <= b < 320
    requires !(0 <= a < 8 && 0 <= b < 4)
    ensures !InGlyph(base, base + a * 320 + b)
  {
    var d := a * 320 + b;
    if d >= 0 {
      if b >= 0 {
        assert RowOf(d) == a && ColOf(d) == b;
      } else {
        assert d == (a - 1) * 320 + (b + 320);
        assert RowOf(d) == a - 1 && ColOf(d) == b + 320;
      }
    }
  }

  /** The byte holding pixel (px, py), relative to the glyph's first byte:
      `a` rows down and `b` byte columns across. */
  lemma GlyphOffset(xPos: nat, yPos: nat, px: int, py: int)
    requires 0 <= px < Width && 0 <= py < Height
    ensures ByteIndex(px, py)
            == GlyphBase(xPos, yPos) + (py - yPos) * 320 + (px / 2 - (xPos - xPos % 2) / 2)
  {
    var x0 := xPos - xPos % 2;
    assert GlyphBase(xPos, yPos) == yPos * 320 + x0 / 2;
    assert ByteIndex(px, py) == py * 320 + px / 2;
  }

  /** Inside the block, a pixel shows its ROM bit. */
  lemma DrawnPixelInside(f: Frame, xPos: nat, yPos: nat, ch: U8, colour: Colour, rom: Rom, px: int, py: int)
    requires xPos - xPos % 2 + 8 <= Width && yPos + 8 <= Height
    requires xPos - xPos % 2 <= px < xPos - xPos % 2 + 8 && yPos <= py < yPos + 8
    ensures Pixel(Drawn(f, xPos, yPos, ch, colour, rom), px, py)
            == if Bit(rom[RomIndex(ch, py - yPos)], 7 - (px - (xPos - xPos % 2))) then colour else 0
  {
    var x0 := xPos - xPos % 2;
    var a, b := py - yPos, px / 2 - x0 / 2;
    var bits := rom[RomIndex(ch, a)];
    var i := ByteIndex(px, py);
    assert Drawn(f, xPos, yPos, ch, colour, rom)[i] == GlyphPair(bits, b, colour) by {
      GlyphOffset(xPos, yPos, px, py);
      InGlyphAt(GlyphBase(xPos, yPos), a, b);
    }
    assert 0 <= b < 4;
    assert if px % 2 == 0 then 7 - (px - x0) == 7 - 2 * b else 7 - (px - x0) == 6 - 2 * b by {
      assert x0 == 2 * (x0 / 2) && px == 2 * (px / 2) + px % 2;
    }
  }

  /** Outside the block, a pixel keeps its colour. */
  lemma DrawnPixelOutside(f: Frame, xPos: nat, yPos: nat, ch: U8, colour: Colour, rom: Rom, px: int, py: int)
    requires xPos - xPos % 2 + 8 <= Width && yPos + 8 <= Height
    requires 0 <= px < Width && 0 <= py < Height
    requires !(xPos - xPos % 2 <= px < xPos - xPos % 2 + 8 && yPos <= py < yPos + 8)
    ensures Pixel(Drawn(f, xPos, yPos, ch, colour, rom), px, py) == Pixel(f, px, py)
  {
    var x0 := xPos - xPos % 2;
    GlyphOffset(xPos, yPos, px, py);
    NotInGlyphAt(GlyphBase(xPos, yPos), py - yPos, px / 2 - x0 / 2);
    assert Drawn(f, xPos, yPos, ch, colour, rom)[ByteIndex(px, py)] == f[ByteIndex(px, py)];
  }

  /** Glyph round trip: reading back the 8x8 block reproduces the ROM's
      bit pattern (bit 7 - k of row `line` is pixel k), and every pixel
      outside the block keeps its colour. */
  lemma DrawnPixel(f: Frame, xPos: nat, yPos: nat, ch: U8, colour: Colour, rom: Rom, px: int, py: int)
    requires xPos - xPos % 2 + 8 <= Width && yPos + 8 <= Height
    requires 0 <= px < Width && 0 <= py < Height
    ensures var x0 := xPos - xPos % 2;
            Pixel(Drawn(f, xPos, yPos, ch, colour, rom), px, py)
            == if x0 <= px < x0 + 8 && yPos <= py < yPos + 8
               then (if Bit(rom[RomIndex(ch, py - yPos)], 7 - (px - x0)) then colour else 0)
               else Pixel(f, px, py)
  {
    var x0 := xPos - xPos % 2;
    if x0 <= px < x0 + 8 && yPos <= py < yPos + 8 {
      DrawnPixelInside(f, xPos, yPos, ch, colour, rom, px, py);
    } else {
      DrawnPixelOutside(f, xPos, yPos, ch, colour, rom, px, py);
    }
  }
}
