/** `FilledRectangle`: clamp the rectangle to the screen, then paint it one
    byte column at a time, each column walked down by the row stride. */
module Rectangle {
  import opened Words
  import opened Framebuffer

  /** Clamp an extent so that `pos + r` stays on the screen: the smaller of
      `extent` and `limit - pos`. */
  function Clamp(pos: nat, extent: nat, limit: nat): (r: nat)
    requires pos < limit
    ensures r <= extent && pos + r <= limit
    ensures r == extent || pos + r == limit
  {
    if pos + extent >= limit then limit - pos else extent
  }

  /** Whether pixel (px, py) lies in the rectangle. */
  predicate InRect(x: int, y: int, w: int, h: int, px: int, py: int) {
    x <= px < x + w && y <= py < y + h
  }

  /** Which pixels of one byte a fill rewrites. */
  datatype Part = Untouched | RightHalf | BothHalves | LeftHalf

  /** The byte written for a given part: a masked update keeps the other
      pixel, a whole-byte write replaces the byte. */
  function Paint(p: Part, b: Byte, c: Colour): Byte {
    match p
    case Untouched => b
    case RightHalf => SetRight(b, c)
    case BothHalves => Pair(c)
    case LeftHalf => SetLeft(b, c)
  }

  /** The part of any byte in byte column `col` that a fill of columns
      x .. x + w - 1 covers, from the two pixels 2 * col and 2 * col + 1. */
  function ColumnPart(x: int, w: int, col: int): Part {
    var left := x <= 2 * col < x + w;
    var right := x <= 2 * col + 1 < x + w;
    if left && right then BothHalves
    else if right then RightHalf
    else if left then LeftHalf
    else Untouched
  }

  /** The part of byte `i` covered by the rectangle. */
  function PartAt(x: int, y: int, w: int, h: int, i: int): Part {
    if y <= RowOf(i) < y + h then ColumnPart(x, w, ColOf(i)) else Untouched
  }

  /** Reference definition of a fill, byte by byte: every byte gets the
      write for the pixels of it that the rectangle covers. */
  function Filled(f: Frame, x: int, y: int, w: int, h: int, c: Colour): Frame {
    seq(BufferSize, i requires 0 <= i < BufferSize => Paint(PartAt(x, y, w, h, i), f[i], c))
  }

  /** Repeating a byte write with the same colour changes nothing. */
  lemma PaintIdempotent(p: Part, b: Byte, c: Colour)
    ensures Paint(p, Paint(p, b, c), c) == Paint(p, b, c)
  {
    match p
    case Untouched =>
    case RightHalf =>
    case BothHalves =>
    case LeftHalf =>
  }

  /** Every pixel of the filled frame reads the colour inside the rectangle
      and its old value outside it. */
  lemma FilledPixel(f: Frame, x: int, y: int, w: int, h: int, c: Colour, px: int, py: int)
    requires 0 <= px < Width && 0 <= py < Height
    ensures Pixel(Filled(f, x, y, w, h, c), px, py)
            == if InRect(x, y, w, h, px, py) then c else Pixel(f, px, py)
  {
    var i := ByteIndex(px, py);
    if px % 2 == 0 {
      assert 2 * ColOf(i) == px;
    } else {
      assert 2 * ColOf(i) + 1 == px;
    }
  }

  /** Filling a rectangle twice with the same colour gives the same frame as
      filling it once. */
  lemma FilledIdempotent(f: Frame, x: int, y: int, w: int, h: int, c: Colour)
    ensures Filled(Filled(f, x, y, w, h, c), x, y, w, h, c) == Filled(f, x, y, w, h, c)
  {
    var once := Filled(f, x, y, w, h, c);
    forall i | 0 <= i < BufferSize
      ensures Filled(once, x, y, w, h, c)[i] == once[i]
    {
      PaintIdempotent(PartAt(x, y, w, h, i), f[i], c);
    }
  }

  /** Byte `i` sits in the same byte column and `r` rows below `offset`
      exactly when it is `offset + r * Stride`. */
  lemma StrideStep(offset: nat, r: nat)
    ensures RowOf(offset + Stride * r) == RowOf(offset) + r
    ensures ColOf(offset + Stride * r) == ColOf(offset)
  {
  }

  /** `out` agrees with the fill of the rectangle on byte columns lo .. hi - 1
      and with `f` everywhere else. */
  ghost predicate PaintedColumns(f: Frame, out: Frame, x: int, y: int, w: int, h: int, c: Colour, lo: int, hi: int) {
    forall i :: 0 <= i < BufferSize ==>
      out[i] == if lo <= ColOf(i) < hi then Paint(PartAt(x, y, w, h, i), f[i], c) else f[i]
  }

  /** Painting byte column `hi` over rows y .. y + h - 1 with the part the
      rectangle covers there extends the painted columns by one. */
  lemma AddColumn(f: Frame, mid: Frame, out: Frame, x: int, y: int, w: int, h: int, c: Colour,
                  lo: int, offset: int, p: Part)
    requires lo <= ColOf(offset) && RowOf(offset) == y
    requires p == ColumnPart(x, w, ColOf(offset))
    requires PaintedColumns(f, mid, x, y, w, h, c, lo, ColOf(offset))
    requires forall i :: 0 <= i < BufferSize ==>
               out[i] == if ColOf(i) == ColOf(offset) && RowOf(offset) <= RowOf(i) < RowOf(offset) + h
                         then Paint(p, mid[i], c) else mid[i]
    ensures PaintedColumns(f, out, x, y, w, h, c, lo, ColOf(offset) + 1)
  {
  }

  /** Columns painted so far make up the whole fill once every column that
      holds a pixel of the rectangle has been painted. */
  lemma PaintedAll(f: Frame, out: Frame, x: int, y: int, w: int, h: int, c: Colour, lo: int, hi: int)
    requires 2 * lo <= x && 2 * hi >= x + w
    requires PaintedColumns(f, out, x, y, w, h, c, lo, hi)
    ensures out == Filled(f, x, y, w, h, c)
  {
    assert forall i :: 0 <= i < BufferSize ==> out[i] == Filled(f, x, y, w, h, c)[i];
  }

  /** An empty rectangle changes nothing. */
  lemma FilledEmpty(f: Frame, x: int, y: int, w: int, h: int, c: Colour)
    requires w <= 0 || h <= 0
    ensures Filled(f, x, y, w, h, c) == f
  {
    assert forall i :: 0 <= i < BufferSize ==> Filled(f, x, y, w, h, c)[i] == f[i];
  }

  /** `FilledPixel` for every pixel of the screen at once. */
  lemma FilledPixels(f: Frame, x: int, y: int, w: int, h: int, c: Colour)
    ensures forall px, py :: 0 <= px < Width && 0 <= py < Height ==>
              Pixel(Filled(f, x, y, w, h, c), px, py)
              == if InRect(x, y, w, h, px, py) then c else Pixel(f, px, py)
  {
    forall px, py | 0 <= px < Width && 0 <= py < Height
      ensures Pixel(Filled(f, x, y, w, h, c), px, py)
              == if InRect(x, y, w, h, px, py) then c else Pixel(f, px, py)
    {
      FilledPixel(f, x, y, w, h, c, px, py);
    }
  }

  /** One inner loop of the fill: rewrite the byte at `offset` and the
      `height - 1` bytes below it with the write for part `p`. */
  method PaintColumn(f: Frame, offset: nat, height: nat, p: Part, c: Colour) returns (out: Frame)
    requires RowOf(offset) + height <= Height
    ensures forall i :: 0 <= i < BufferSize ==>
              out[i] == if ColOf(i) == ColOf(offset) && RowOf(offset) <= RowOf(i) < RowOf(offset) + height
                        then Paint(p, f[i], c) else f[i]
  {
    out := f;
    var o := offset;
    var r := 0;
    while r < height
      invariant 0 <= r <= height
      invariant o == offset + Stride * r
      invariant forall i :: 0 <= i < BufferSize ==>
                  out[i] == if ColOf(i) == ColOf(offset) && RowOf(offset) <= RowOf(i) < RowOf(offset) + r
                            then Paint(p, f[i], c) else f[i]
    {
      StrideStep(offset, r);
      out := out[o := Paint(p, out[o], c)];
      o := o + Stride;
      r := r + 1;
    }
  }

  /** Paint an on-screen, non-empty rectangle: an odd leading column (right
      pixels only), the whole byte columns, and a single trailing column
      (left pixels only). */
  method FillClamped(f: Frame, x: nat, y: nat, w: nat, h: nat, c: Colour) returns (out: Frame)
    requires 0 < w && x + w <= Width
    requires 0 < h && y + h <= Height
    ensures out == Filled(f, x, y, w, h, c)
  {
    var width, height := w, h;
    out := f;
    var offset := (y * 640 + x) / 2;
    ghost var first := x / 2;
    assert offset == y * Stride + first;
    assert PaintedColumns(f, out, x, y, w, h, c, first, first);
    if x % 2 == 1 {
      var mid := out;
      out := PaintColumn(out, offset, height, RightHalf, c);
      AddColumn(f, mid, out, x, y, w, h, c, first, offset, RightHalf);
      offset := offset + 1;
      width := width - 1;
    }
    while width > 1
      invariant first <= offset - y * Stride
      invariant 2 * (offset - y * Stride) + width == x + w
      invariant PaintedColumns(f, out, x, y, w, h, c, first, offset - y * Stride)
    {
      assert RowOf(offset) == y && ColOf(offset) == offset - y * Stride;
      var mid := out;
      out := PaintColumn(out, offset, height, BothHalves, c);
      AddColumn(f, mid, out, x, y, w, h, c, first, offset, BothHalves);
      offset := offset + 1;
      width := width - 2;
    }
    if width == 1 {
      assert RowOf(offset) == y && ColOf(offset) == offset - y * Stride;
      var mid := out;
      out := PaintColumn(out, offset, height, LeftHalf, c);
      AddColumn(f, mid, out, x, y, w, h, c, first, offset, LeftHalf);
      offset := offset + 1;
    }
    PaintedAll(f, out, x, y, w, h, c, first, offset - y * Stride);
  }

  /** Clamp the rectangle to the screen, then paint it if anything is left. */
  method FilledRectangle(f: Frame, x: nat, y: nat, w: nat, h: nat, c: Colour) returns (out: Frame)
    requires x < Width && y < Height
    requires x + w < U32Limit && y + h < U32Limit
    ensures out == Filled(f, x, y, Clamp(x, w, Width), Clamp(y, h, Height), c)
    ensures forall px, py :: 0 <= px < Width && 0 <= py < Height ==>
              Pixel(out, px, py)
              == if InRect(x, y, Clamp(x, w, Width), Clamp(y, h, Height), px, py) then c else Pixel(f, px, py)
    ensures Clamp(x, w, Width) == 0 || Clamp(y, h, Height) == 0 ==> out == f
  {
    var width := w;
    if x + width >= Width {
      width := Width - x;
    }
    var height := h;
    if y + height >= Height {
      height := Height - y;
    }
    if width > 0 && height > 0 {
      out := FillClamped(f, x, y, width, height, c);
    } else {
      out := f;
      FilledEmpty(f, x, y, width, height, c);
    }
    FilledPixels(f, x, y, width, height, c);
  }

  /** The start-up screen: fill the whole screen green, then the interior
      black, leaving a one-pixel green border. */
  method BorderScreen(f: Frame) returns (out: Frame)
    ensures forall px, py :: 0 <= px < Width && 0 <= py < Height ==>
              Pixel(out, px, py)
              == if px == 0 || px == Width - 1 || py == 0 || py == Height - 1 then Green else Black
  {
    out := FilledRectangle(f, 0, 0, Width, Height, Green);
    out := FilledRectangle(out, 1, 1, Width - 2, Height - 2, Black);
  }
}
