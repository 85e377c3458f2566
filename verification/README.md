# MouseTest core in Dafny

A model of the core of `MouseTest`, a bare-metal RP2040 program that shows the
state of a quadrature mouse on a 640x480 VGA screen. The model covers three
parts of the program:

- **The drawing primitives on core 0.**
  - The packed-nibble framebuffer holds 153600 bytes, two pixels per byte. The even pixel is in bits 0-2 and the odd pixel in bits 3-5.
  - `FilledRectangle` clamps the rectangle to the screen. It then paints an odd leading column, whole byte columns, and a trailing column.
  - `DrawPetsciiChar` blits one 8x8 glyph of the character ROM. It writes four bytes per row, from right to left.
  - `DrawString` lays text out on the 80x60 character grid. A cursor in column 79 wraps to column 1 of the next row, and the text ends once the cursor reaches row 59.
- **The quadrature decoder on core 1.** Each iteration of its endless loop reads the input pins and handles each axis:
  - it counts rising edges of the primary line (H on pin 13, V on pin 10);
  - on each rising edge it re-reads the pins and latches the quadrature line (HQ on pin 12, VQ on pin 11) as the direction.
- **The start-up screen.** The screen is filled green, then its interior black, which leaves a one-pixel green border.

Modules:

| module | file | contents |
|---|---|---|
| `Words` | `words.dfy` | `u8`/`u32` values and 32-bit wrap-around |
| `Framebuffer` | `framebuffer.dfy` | screen constants, byte layout, pixel-pair masks, `Pixel` read-back |
| `Rectangle` | `rectangle.dfy` | `FilledRectangle`, its byte-level reference `Filled`, start-up border |
| `Glyph` | `glyph.dfy` | `DrawPetsciiChar`, its byte-level reference `Drawn`, glyph round trip |
| `Text` | `text.dfy` | `DrawString`, the cell layout `Layout` and its closed form |
| `Quadrature` | `quadrature.dfy` | the decoder state, one loop iteration, runs of the loop, edge counting |

How the model works:

- Framebuffer bytes are `bv8`, so the C masks `0b11000111`, `0b11111000` and the shift `<< 3` are modelled exactly.
- The loops of the C code are methods on immutable sequences.
- Each loop is proved equal to a byte-by-byte reference function (`Rectangle.Filled`, `Glyph.Drawn`, `Text.DrawCells`).
- Lemmas read those reference frames back pixel by pixel through `Framebuffer.Pixel`.
- The decoder is a pure step function over an infinite stream of pin readings, plus a read position. Its counters are `u32` values that wrap at 2^32.

## Model

| member | source | states |
|---|---|---|
| `Framebuffer.SetLeft` | MouseTest/Source/MouseTest.c:166 | the trailing-column write sets the even pixel to the colour and keeps the odd pixel and the top bits |
| `Framebuffer.SetRight` | MouseTest/Source/MouseTest.c:145 | the odd-leading-column write sets the odd pixel to the colour and keeps the even pixel and the top bits |
| `Framebuffer.Pair` | MouseTest/Source/MouseTest.c:157 | the whole-byte write sets both pixels to the colour and clears bits 6-7 |
| `Framebuffer.ByteIndex` | MouseTest/Source/MouseTest.c:136 | the offset `(y * 640 + x) >> 1` of an on-screen pixel lies in the buffer, in row y and byte column x / 2 |
| `Rectangle.Clamp` | MouseTest/Source/MouseTest.c:128-132 | the clamped extent never passes the screen edge, and it is either the requested extent or exactly reaches the edge |
| `Rectangle.FilledPixel` | MouseTest/Source/MouseTest.c:126-171 | after a fill, a pixel inside the rectangle reads the colour and every pixel outside it keeps its old colour, although the odd and trailing columns share bytes with pixels outside |
| `Rectangle.FilledIdempotent` | MouseTest/Source/MouseTest.c:126-171 | filling the same rectangle twice with the same colour leaves the same frame as filling it once |
| `Rectangle.FilledEmpty` | MouseTest/Source/MouseTest.c:134 | a rectangle with no width or no height leaves the frame unchanged |
| `Rectangle.PaintColumn` | MouseTest/Source/MouseTest.c:143-147 | the inner loop rewrites exactly the `height` bytes of one byte column, stepping down 320 bytes a row, and no other byte |
| `Rectangle.FillClamped` | MouseTest/Source/MouseTest.c:134-170 | for an on-screen, non-empty rectangle, the odd leading column, the whole byte columns and the trailing column together equal the byte-level reference fill |
| `Rectangle.FilledRectangle` | MouseTest/Source/MouseTest.c:126-171 | the column-by-column fill equals the byte-level reference fill of the clamped rectangle; inside pixels take the colour, outside pixels are unchanged, and a rectangle with zero width or height changes nothing |
| `Rectangle.BorderScreen` | MouseTest/Source/MouseTest.c:305-306 | after the two start-up fills every border pixel is green and every interior pixel is black |
| `Glyph.RomIndex` | MouseTest/Source/MouseTest.c:181 | the ROM byte for any `u8` character and glyph row lies in the second character set, 2048 .. 4095 |
| `Glyph.PairOf` | MouseTest/Source/MouseTest.c:185-191 | the pixel-pair byte shows the colour in each lit half and black in each unlit half |
| `Glyph.DrawGlyphRow` | MouseTest/Source/MouseTest.c:183-195 | walking 4 bytes backwards while consuming the ROM byte two bits at a time writes byte j of the row as the pixel pair of bits 7-2j and 6-2j, and touches nothing else |
| `Glyph.DrawPetsciiChar` | MouseTest/Source/MouseTest.c:176-197 | the eight-row blit equals the byte-level reference: the 32 glyph bytes hold the ROM's pixel pairs and every other byte is kept |
| `Glyph.DrawnPixel` | MouseTest/Source/MouseTest.c:176-197 | glyph round trip: pixel k of row r of the 8x8 block reads the colour exactly when bit 7-k of the ROM row byte is set (black otherwise), and every pixel outside the block keeps its colour |
| `Text.Remap` | MouseTest/Source/MouseTest.c:217-218 | a code is left alone exactly when it is below the backtick (96); otherwise it is lowered by exactly 96, so every remapped code is below 160 |
| `Text.StrLen` | MouseTest/Source/MouseTest.c:204 | the string ends at its first zero byte, and every byte before it is nonzero |
| `Text.Layout` | MouseTest/Source/MouseTest.c:204-222 | at most one cell per character, every cell on the grid away from the last column and row, and nothing drawn from row 59 down |
| `Text.LayoutClosedForm` | MouseTest/Source/MouseTest.c:206-221 | character k is drawn in column and row given by the wrap arithmetic (78 glyphs per wrapped row, from column 1), with its code remapped, and it is drawn exactly when that row is above row 59 |
| `Text.WrapExample` | MouseTest/Source/MouseTest.c:206-210 | five characters from (78, 0) go to (78, 0), then (1, 1) .. (4, 1) |
| `Text.DrawString` | MouseTest/Source/MouseTest.c:202-223 | the loop draws exactly the glyphs of the layout, in order, each at eight times its cell position |
| `Quadrature.PinBit` | MouseTest/Source/MouseTest.c:240-241 | a pin read from the 32-bit input vector is a single bit, and it is 1 exactly when bit 10 (V), 11 (VQ), 12 (HQ) or 13 (H) of the vector is set |
| `Quadrature.Start` | MouseTest/Source/MouseTest.c:230-241 | the loop starts with the H and V levels from the first reading and with zero counts and directions |
| `Quadrature.AxisStep` | MouseTest/Source/MouseTest.c:247-258 | on a rising edge the count goes up by one, wrapping at 2^32, and the direction is the quadrature bit of a fresh reading; otherwise count, direction and reading are kept; the level always follows the pin |
| `Quadrature.Step` | MouseTest/Source/MouseTest.c:245-271 | one iteration keeps levels and directions single bits and reads one to three samples |
| `Quadrature.StepSpec` | MouseTest/Source/MouseTest.c:245-271 | one iteration in full: H compares a fresh reading, and V compares the H re-sample when H rose (the fresh reading otherwise); each level ends equal to the bit it was compared with, each count steps exactly on its rising edge, a rising edge latches the quadrature bit of the reading taken right after it, and one extra reading is taken per rising edge |
| `Quadrature.Run` | MouseTest/Source/MouseTest.c:243-272 | the endless loop as repeated iterations: after n iterations there are n + 1 states, the first is the start state with its read position, and every state keeps levels and directions single bits |
| `Quadrature.RunLevels` | MouseTest/Source/MouseTest.c:245-262 | the levels a run remembers are the sampled pins: after iteration k the H level is pin 13 of that iteration's first reading, and the V level is pin 10 of the H re-sample when H rose and of the first reading otherwise |
| `Quadrature.CountsOfTrace` | MouseTest/Source/MouseTest.c:256 | in any trace where one axis's counter steps exactly on its rising levels, the final count is the first count plus the number of rising edges, modulo 2^32 |
| `Quadrature.RunFollowsLevels` | MouseTest/Source/MouseTest.c:243-272 | every run of the loop is such a trace: between iterations a count changes exactly when its level goes from 0 to 1 |
| `Quadrature.CountsRisingEdges` | MouseTest/Source/MouseTest.c:243-272 | after n iterations each count equals its starting count plus the rising edges of its line, modulo 2^32 |
| `Quadrature.Core1Counts` | MouseTest/Source/MouseTest.c:235-273 | from the start state each count is the number of rising edges seen since start-up, modulo 2^32 |

## Left out

- `initVGA` (PIO programs, DMA channels, scan-out timing) is left out. The model treats the framebuffer as a plain byte sequence.
- GPIO set-up, `multicore_launch_core1`, interrupts and the 40 ns settle delay are left out. The delay is modelled as simply taking the next reading of the input stream.
- The volatile sharing of counts and directions between the cores is left out: there is no concurrency.
- The core-0 status loop (`sprintf` and the repeated `DrawString` calls with button states) is left out. It only formats numbers into text; the model covers `DrawString` itself.
- The contents of the character ROM are left out. The ROM is any byte sequence of at least 4096 bytes.
- `Rectangle.FilledRectangle` requires an on-screen corner (x < 640, y < 480) and no `u32` overflow of x + w or y + h. Outside those bounds the C code computes a wrapped, huge extent and writes outside the buffer.
- `Rectangle.FilledRectangle` takes colours of three bits only (the `Colour` type). A colour of 8 or more would spill into the neighbouring pixel's bits; every call passes one of the eight colour constants.
- `Glyph.DrawPetsciiChar` takes colours of three bits only, although the C function accepts any `u8`. A colour of 8 or more would spill from one pixel into the other and into bits 6-7 before being cut to 8 bits; every call passes `RGB_YELLOW` or `RGB_MAGENTA`.
- `Text.DrawString` takes colours of three bits only, for the same reason as `Glyph.DrawPetsciiChar`, whose colour it passes on.
- `Glyph.DrawPetsciiChar` requires all 32 written bytes to lie inside the buffer, because the C code does not check its writes.
- `Glyph.DrawnPixel` is stated only for a glyph block that does not run past the right edge of the screen. Such a block would wrap into the next screen row, and `DrawString` never places one there.
- `Text.DrawString` takes the text as a byte sequence. It ends at its first zero byte or at the end of the sequence, so a missing terminator is not an out-of-bounds read.
- `Quadrature.Step`: its own contract states only that levels and directions stay single bits and how many readings an iteration takes. The full per-iteration behaviour is stated by `Quadrature.StepSpec`.
