/** `DrawString`: lay a zero-terminated string out on the 80x60 character
    grid, one 8x8 glyph per cell, wrapping and truncating silently. */
module Text {
  import opened Words
  import opened Framebuffer
  import Glyph

  /** Character cells across and down the screen: 640 / 8 and 480 / 8. */
  const Columns: int := 80
  const Rows: int := 60

  /** Codes from the backtick up are shifted down by 96 before the ROM lookup. */
  const Backtick: int := 96

  function Remap(c: U8): (r: U8)
    ensures r <= c && r < 160
    ensures r == c <==> c < Backtick
    ensures c - r == 0 || c - r == Backtick
  {
    if c >= Backtick then c - Backtick else c
  }

  /** Length of the string: the bytes before the first zero, or all of them. */
  function StrLen(text: seq<U8>): (n: nat)
    ensures n <= |text|
    ensures forall k :: 0 <= k < n ==> text[k] != 0
    ensures n < |text| ==> text[n] == 0
  {
    if |text| == 0 || text[0] == 0 then 0 else 1 + StrLen(text[1..])
  }

  /** A glyph placed on the character grid. */
  datatype Cell = Cell(col: nat, row: nat, code: U8)

  /** Whether a cell's glyph lies on the screen with room to spare: the
      layout never uses the last column or the last row. */
  predicate OnGrid(cell: Cell) {
    cell.col < Columns - 1 && cell.row < Rows - 1
  }

  /** The cells `DrawString` draws, in order, starting from cursor (cx, cy):
      before each character a cursor in the last column moves to column 1
      of the next row (the row counter is a `u32`), and reaching the last
      row ends the string. */
  function Layout(cx: U32, cy: U32, text: seq<U8>): (cells: seq<Cell>)
    ensures |cells| <= StrLen(text)
    ensures forall k :: 0 <= k < |cells| ==> OnGrid(cells[k])
    ensures Rows - 1 <= cy < U32Limit - 1 ==> cells == []
    decreases |text|
  {
    if |text| == 0 || text[0] == 0 then []
    else
      var x := if cx >= Columns - 1 then 1 else cx;
      var y := if cx >= Columns - 1 then Inc32(cy) else cy;
      if y >= Rows - 1 then []
      else [Cell(x, y, Remap(text[0]))] + Layout(x + 1, y, text[1..])
  }

  /** Glyphs that still fit on the cursor's row before the first wrap. */
  function FirstRowRoom(cx: int): int {
    if cx < Columns - 1 then Columns - 1 - cx else 0
  }

  /** Closed form of the k-th character's column: after the first row,
      each wrapped row holds 78 glyphs, in columns 1 .. 78. */
  function PosCol(cx: int, k: int): int
    requires 0 <= k
  {
    var room := FirstRowRoom(cx);
    if k < room then cx + k else 1 + (k - room) % 78
  }

  /** Closed form of the k-th character's row. */
  function PosRow(cx: int, cy: int, k: int): int
    requires 0 <= k
  {
    var room := FirstRowRoom(cx);
    if k < room then cy else cy + 1 + (k - room) / 78
  }

  /** Moving the cursor one character on shifts the closed form by one. */
  lemma PosShift(cx: U32, cy: U32, k: nat)
    requires cy < U32Limit - 1
    ensures cx < Columns - 1 ==>
              PosCol(cx, k + 1) == PosCol(cx + 1, k) && PosRow(cx, cy, k + 1) == PosRow(cx + 1, cy, k)
    ensures cx >= Columns - 1 ==>
              PosCol(cx, k + 1) == PosCol(2, k) && PosRow(cx, cy, k + 1) == PosRow(2, cy + 1, k)
  {
    if cx < Columns - 1 {
      var room := FirstRowRoom(cx);
      assert FirstRowRoom(cx + 1) == room - 1;
      if k + 1 >= room {
        assert k + 1 - room == k - (room - 1);
      }
    } else {
      assert FirstRowRoom(cx) == 0 && FirstRowRoom(2) == 77;
      if k >= 77 {
        var m := k - (77);
        AddDivisor(m);
        assert k + 1 == m + 78;
      }
    }
  }

  /** Adding one full wrapped row moves to the same column one row down. */
  lemma AddDivisor(m: nat)
    ensures (m + 78) % 78 == m % 78
    ensures (m + 78) / 78 == m / 78 + 1
  {
    var q, r := m / 78, m % 78;
    assert m + 78 == (q + 1) * 78 + r;
  }

  /** The layout in closed form: the k-th character of the string goes to
      (PosCol, PosRow) with its code remapped, and is drawn exactly when
      that row is above the last one. */
  lemma {:induction false} LayoutClosedForm(cx: U32, cy: U32, text: seq<U8>)
    requires cy < U32Limit - 1
    ensures var cells := Layout(cx, cy, text);
            && (forall k :: 0 <= k < StrLen(text) ==> (k < |cells| <==> PosRow(cx, cy, k) < Rows - 1))
            && (forall k :: 0 <= k < |cells| ==>
                  cells[k] == Cell(PosCol(cx, k), PosRow(cx, cy, k), Remap(text[k])))
    decreases |text|
  {
    var cells := Layout(cx, cy, text);
    if |text| == 0 || text[0] == 0 {
    } else {
      var wrap := cx >= Columns - 1;
      var x := if wrap then 1 else cx;
      var y := if wrap then cy + 1 else cy;
      assert y == (if wrap then Inc32(cy) else cy);
      if y >= Rows - 1 {
        forall k | 0 <= k < StrLen(text)
          ensures PosRow(cx, cy, k) >= Rows - 1
        {
        }
      } else {
        var rest := Layout(x + 1, y, text[1..]);
        assert cells == [Cell(x, y, Remap(text[0]))] + rest;
        LayoutClosedForm(x + 1, y, text[1..]);
        assert StrLen(text) == 1 + StrLen(text[1..]);
        forall k | 0 <= k < StrLen(text)
          ensures k < |cells| <==> PosRow(cx, cy, k) < Rows - 1
          ensures k < |cells| ==> cells[k] == Cell(PosCol(cx, k), PosRow(cx, cy, k), Remap(text[k]))
        {
          if k > 0 {
            PosShift(cx, cy, k - 1);
            assert text[1..][k - 1] == text[k];
          }
        }
      }
    }
  }

  /** Starting at column 78 of row 0, five characters put one glyph at
      (78, 0) and wrap the other four to columns 1 .. 4 of row 1. */
  lemma WrapExample(text: seq<U8>)
    requires |text| == 5 && forall k :: 0 <= k < 5 ==> text[k] != 0
    ensures Layout(78, 0, text)
            == [Cell(78, 0, Remap(text[0])), Cell(1, 1, Remap(text[1])), Cell(2, 1, Remap(text[2])),
                Cell(3, 1, Remap(text[3])), Cell(4, 1, Remap(text[4]))]
  {
    LayoutClosedForm(78, 0, text);
    var cells := Layout(78, 0, text);
    assert StrLen(text) == 5;
    assert PosRow(78, 0, 4) < Rows - 1;
    assert |cells| == 5;
  }

  /** Reference definition of drawing a sequence of cells: blit each glyph
      in turn, eight pixels per cell. */
  function DrawCells(f: Frame, cells: seq<Cell>, colour: Colour, rom: Glyph.Rom): Frame
    requires forall k :: 0 <= k < |cells| ==> OnGrid(cells[k])
    decreases |cells|
  {
    if |cells| == 0 then f
    else
      var c := cells[0];
      assert OnGrid(c);
      assert Glyph.GlyphBase(c.col * 8, c.row * 8) == c.row * 2560 + c.col * 4;
      assert Glyph.GlyphFits(c.col * 8, c.row * 8);
      DrawCells(Glyph.Drawn(f, c.col * 8, c.row * 8, c.code, colour, rom), cells[1..], colour, rom)
  }

  /** One character of the layout: after the wrap check, either the last
      row is reached and nothing more is drawn, or the character takes the
      cursor's cell and the rest of the string follows one column on. */
  lemma LayoutStep(x: U32, y: U32, x': U32, y': U32, text: seq<U8>, i: nat)
    requires i < |text| && text[i] != 0
    requires x' == (if x >= Columns - 1 then 1 else x)
    requires y' == (if x >= Columns - 1 then Inc32(y) else y)
    ensures Layout(x, y, text[i..])
            == if y' >= Rows - 1 then [] else [Cell(x', y', Remap(text[i]))] + Layout(x' + 1, y', text[i + 1..])
  {
    assert text[i..][1..] == text[i + 1..];
  }

  /** Drawing a first cell and then the rest is drawing them all. */
  lemma DrawCellsCons(f: Frame, c: Cell, rest: seq<Cell>, colour: Colour, rom: Glyph.Rom)
    requires OnGrid(c) && forall k :: 0 <= k < |rest| ==> OnGrid(rest[k])
    ensures Glyph.GlyphFits(c.col * 8, c.row * 8)
    ensures DrawCells(f, [c] + rest, colour, rom)
            == DrawCells(Glyph.Drawn(f, c.col * 8, c.row * 8, c.code, colour, rom), rest, colour, rom)
  {
    assert ([c] + rest)[1..] == rest;
    assert Glyph.GlyphBase(c.col * 8, c.row * 8) == c.row * 2560 + c.col * 4;
  }

  /** Draw the string from cursor (cx, cy): wrap before a character when the
      cursor reaches column 79, stop once it reaches row 59. */
  method DrawString(f: Frame, cx: U32, cy: U32, text: seq<U8>, colour: Colour, rom: Glyph.Rom)
    returns (out: Frame)
    ensures out == DrawCells(f, Layout(cx, cy, text), colour, rom)
  {
    out := f;
    ghost var target := DrawCells(f, Layout(cx, cy, text), colour, rom);
    var x: U32, y: U32, i: nat := cx, cy, 0;
    while i < |text| && text[i] != 0
      invariant 0 <= i <= |text|
      invariant DrawCells(out, Layout(x, y, text[i..]), colour, rom) == target
      decreases |text| - i
    {
      ghost var x0, y0 := x, y;
      if x >= Columns - 1 {
        x := 1;
        y := Inc32(y);
      }
      LayoutStep(x0, y0, x, y, text, i);
      if y >= Rows - 1 {
        return;
      }
      var c := text[i];
      if c >= Backtick {
        c := c - Backtick;
      }
      assert c == Remap(text[i]);
      ghost var rest := Layout(x + 1, y, text[i + 1..]);
      DrawCellsCons(out, Cell(x, y, c), rest, colour, rom);
      out := Glyph.DrawPetsciiChar(out, x * 8, y * 8, c, colour, rom);
      assert DrawCells(out, rest, colour, rom) == target;
      i := i + 1;
      x := x + 1;
    }
    assert Layout(x, y, text[i..]) == [];
  }
}
