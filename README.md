# A verified model of the cuddles boot-stage text console

This project models `stage3/font.c` of cuddles. That file is a bare-metal
text console. It keeps a 256-glyph bitmap font of 8 x 16 pixels, loaded from
a blob, from the compiled-in font, or by doubling a small legacy font. It
draws characters, magnified by `font_size`, into a 32-bit ARGB frame
buffer. It tracks a 16-bit cursor and interprets the control characters
`\n \t \b \r \v \a \f`. It wraps the cursor and scrolls the screen one cell
row at a time, then draws a caret block. It also formats unsigned integers
in any base, with left padding, and byte counts in decimal units.

The model has six modules:

- `Machine` (machine.dfy): the integer widths of `stage3/def.h`, with 16- and 64-bit truncation written out.
- `Arith` (arith.dfy): facts about division used by the proofs.
- `Gfx` (gfx.dfy): the frame buffer as an `array2<u32>` and its value as an image (a sequence of pixel rows), the rectangle fill `gfx_set_area`, and the row copy of a scroll step.
- `Glyphs` (glyphs.dfy): the glyph table and two pure views of it. One is how `render_char` rasterizes a glyph into a cell. The other is what `font_load_classic` writes into the table.
- `Terminal` (terminal.dfy): the character state machine as pure functions.
  - `Advance` is the switch of `print_char`.
  - `Update` is `update_cursor`.
  - `PrintCharSpec` is `print_char`.
  - `PrintSpec` is `print`.
- `Format` (format.dfy): the text that `print_num_pad` and `print_bytes` hand to `print`. It also has the in-place buffer loops of `print_num_pad`.
- `ConsoleState` (console.dfy): the class `Console`.
  - Its fields are the statics of font.c.
  - Its methods are font.c's functions, with the source's loops.
  - Each method is proved equal to the pure function of the old state, for example `ensures Disp() == PrintCharSpec(old(Disp()), Table(), Geo(), c)`.

The properties the console promises are lemmas about those pure functions:

- the cursor is inside the grid after every character;
- each control character's effect and the tab stop;
- the row-shift law of scrolling;
- the pixel law and idempotence of rendering;
- the digit, padding and round-trip laws of the numerals;
- the unit choice of `print_bytes`;
- the bit law of the legacy-font conversion.

The code relies on some preconditions it never checks. The model states them as `requires`:

- a font size above 0 whose cell height `16 * size` fits in 16 bits;
- a grid of at least one cell each way (`Ready()`); otherwise `update_cursor`'s loops never end;
- a base of at least 2;
- legacy glyph dimensions whose doubled, centred pixels stay inside the 8 x 16 glyph.
- a frame buffer under 65536 pixels in each direction, so that cell corners and grid sizes fit the 16-bit statics (stated in `Valid()`, in the constructor's `requires` and in GeometryOk).

## Model

| member | source | states |
|---|---|---|
| Machine.ToU16 | stage3/font.c:104-105 | Storing an int into a `u16` keeps a value already in range and otherwise agrees with it modulo 2^16. |
| Machine.ToU16Succ | stage3/font.c:125 | Incrementing a truncated 16-bit counter equals truncating the full count, so the 16-bit row is the true row modulo 2^16. |
| Machine.ToU64 | stage3/font.c:205 | The `(usize)` cast keeps a non-negative 64-bit value and adds 2^64 to a negative one. |
| Gfx.Pixels | stage3/font.c:131-133 | The image of the frame buffer has one row per pixel row, each as wide as the buffer, and agrees with it pixel for pixel. |
| Gfx.FillRect | stage3/font.c:99 | Defines the effect of `gfx_set_area(x, y, w, h, col)` on an image: every existing pixel inside the rectangle becomes col, every other pixel keeps its value, and the shape is kept. |
| Gfx.SetArea | stage3/font.c:99 | `gfx_set_area` colours exactly the pixels of the rectangle that exist on screen and leaves every other pixel as it was. |
| Gfx.MoveRowsUp | stage3/font.c:131-133 | The overlapping bulk copy, done front to back, moves row r + n to row r for every row that has a source and leaves the last n rows as they were. |
| Gfx.CopyRowUp | stage3/font.c:131-133 | Copying one pixel row overwrites row r with row r + n and changes nothing else. |
| Gfx.ShiftUp | stage3/font.c:131-133 | Defines the bulk copy on an image: row r becomes old row r + n where that row exists; the last n rows keep their old contents. |
| Gfx.ScrollStep | stage3/font.c:129-135 | Defines one pass of the scroll loop on an image: the bulk copy, then the background fill of the bottom n rows. |
| Gfx.Scrolls | stage3/font.c:128-136 | Defines k passes of the scroll loop: k scroll steps in a row. |
| Gfx.ScrollStepAt | stage3/font.c:131-135 | After a scroll step, a pixel shows the pixel n rows below it, or the background where there is none. |
| Gfx.ScrollStepRows | stage3/font.c:128-136 | The row-shift law: row r equals old row r + n for r < height - n, and every pixel of the bottom n rows is the background colour. |
| Gfx.ScrollsSucc | stage3/font.c:128-136 | One more pass of the scroll loop is one more scroll step after the first k. |
| Gfx.ScrollBand | stage3/font.c:131-135 | One pass of the scroll loop on the frame buffer (the copy, then the bottom fill) produces exactly one scroll step of the old image. |
| Gfx.ShiftedIsProduct | stage3/font.c:128-136 | k scroll steps of n rows move the image by k * n rows. |
| Gfx.ScrollsShape | stage3/font.c:128-136 | Scrolling keeps every row as wide as the screen. |
| Gfx.ScrollsAt | stage3/font.c:128-136 | After k scroll steps, pixel (r, c) shows old pixel (r + k * n, c) if that row exists, and the background otherwise. |
| Glyphs.BitMaskShift | stage3/font.c:111 | The bit masks are `1 << x` on a byte. |
| Glyphs.Glyph | stage3/font.c:111 | Glyph c is the 16 table bytes `font[c * 16 + y]` for y = 0..15. |
| Glyphs.PaintColumn | stage3/font.c:110-118 | Defines the inner loop of `render_char` for column x: for each row y < yLim in order, the fs x fs foreground block at (left + x * fs, top + y * fs) when bit x of glyph row y is set. |
| Glyphs.PaintGlyph | stage3/font.c:109-118 | Defines both loops of `render_char`: columns 0..xLim-1 painted in order, each by PaintColumn over all 16 rows. |
| Glyphs.RenderCell | stage3/font.c:107-118 | Defines `render_char` at a corner: the cell of 8 fs x 16 fs pixels is cleared to the background, then the glyph is painted. |
| Glyphs.PaintColumnAt | stage3/font.c:109-118 | After painting rows < yLim of column x, a pixel is foreground exactly when it lies in column x's blocks within those rows and its bit is set; otherwise it is unchanged. |
| Glyphs.PaintGlyphAt | stage3/font.c:109-118 | After painting columns < xLim, a pixel is foreground exactly when its scaled glyph bit in those columns is set; otherwise it is unchanged. |
| Glyphs.RenderCellAt | stage3/font.c:102-119 | The raster law of `render_char`. A pixel of the cell is foreground exactly when bit (c - left) / fs of glyph row (r - top) / fs is set, and background otherwise. A pixel outside the cell is unchanged. |
| Glyphs.RenderCellIdempotent | stage3/font.c:102-119 | Rendering the same glyph twice into the same cell gives the same image as rendering it once. |
| Glyphs.ClassicIndex | stage3/font.c:81 | The index `yc * w + xc` of a legacy pixel is inside the legacy glyph. |
| Glyphs.BlockRow | stage3/font.c:81-90 | Defines what one legacy pixel (xc, yc) puts into destination row y: bits xc * 2 + xpad and xc * 2 + xpad + 1 when the pixel is set and y is one of its two rows yc * 2 + ypad, yc * 2 + ypad + 1; nothing otherwise. |
| Glyphs.ColumnRow | stage3/font.c:80-91 | Defines destination row y after the `yc` loop has run over the first ycLim source rows of column xc: the or of their blocks. |
| Glyphs.ColumnsRow | stage3/font.c:79-91 | Defines destination row y after the first xcLim source columns, each column or-ing in the 2 x 2 blocks of its set pixels. |
| Glyphs.ClassicRow | stage3/font.c:79-91 | Defines destination row y of one converted glyph: all source columns. |
| Glyphs.ClassicTable | stage3/font.c:68-94 | Defines the table `font_load_classic` leaves: glyphs 0..254 converted row by row, glyph 255 left as the memset zeroes. |
| Glyphs.BlockRowBit | stage3/font.c:84-90 | The block of source pixel (xc, yc) sets bit (x, y) exactly when the pixel is set and (x, y) lies in its 2 x 2 block at (xc * 2 + xpad, yc * 2 + ypad). |
| Glyphs.ColumnRowBit | stage3/font.c:80-91 | After the first ycLim source rows of column xc, a bit is set exactly when it lies in the block of a set pixel among them. |
| Glyphs.ColumnsRowBit | stage3/font.c:79-91 | After the first xcLim source columns, a bit is set exactly when it lies in the block of a set pixel among them. |
| Glyphs.ClassicRowBit | stage3/font.c:78-91 | The conversion law. A destination bit (x, y) is set exactly when, for some set source pixel (xc, yc), it lies in the 2 x 2 block at (xc * 2 + xpad, yc * 2 + ypad). The only candidate pixel is ((x - xpad) / 2, (y - ypad) / 2). |
| Glyphs.ClassicTableBit | stage3/font.c:68-94 | Bit (x, y) of glyph c of the converted table is set exactly when c < 255 and the bit is covered by a set legacy pixel of glyph c. So glyph 255 is entirely empty. |
| Glyphs.ClassicRowUnreached | stage3/font.c:70-91 | A destination byte that no set source pixel reaches is 0. |
| Glyphs.BandRowStep | stage3/font.c:85-89 | One more or-assignment `font[...] or= 1 << x` on row y0 + yf adds bit x to that row only. |
| Glyphs.BandRowUpdate | stage3/font.c:89 | A row byte after one or-assignment of the innermost loop is the original byte plus the band painted so far. |
| Glyphs.BandColumnStep | stage3/font.c:84-90 | A finished column of the 2 x 2 block widens the painted band by one bit. |
| Glyphs.BlockRowUnset | stage3/font.c:81-82 | A clear source pixel paints nothing (`continue`). |
| Glyphs.BlockRowBand | stage3/font.c:75-90 | The padding keeps the block of every source pixel inside the 8 x 16 glyph. The block of a set pixel is the 2 x 2 band at (xc * 2 + xpad, yc * 2 + ypad). |
| Terminal.ClearLowBitsMod | stage3/font.c:153 | Clearing the k low bits of v gives v - v mod 2^k. |
| Terminal.TabStop | stage3/font.c:151-154 | The column after a tab is a multiple of 4 and lies in (x, x + 4], so it is the smallest multiple of 4 above x. If x + 4 overflows 16 bits, the column wraps to 0. |
| Terminal.TabStopExamples | stage3/font.c:153 | 5 goes to 8, 4 to 8 and 0 to 4; 65533 wraps to 0. |
| Terminal.SizeGeometry | stage3/font.c:31-40 | Defines the geometry `font_set_size` computes: cell 8 size x 16 size, grid width / cell width by height / cell height. |
| Terminal.GeometryOk | stage3/font.c:31-40 | Defines a usable geometry, as `font_set_size` leaves it: scale above 0, cell 8 x 16 times the scale, grid the whole cells that fit, at least one cell each way, and a screen under 65536 pixels each way. `Ready()` is this condition on the console. |
| Terminal.SizeGeometryOk | stage3/font.c:31-40 | The grid `font_set_size` computes is at most the screen size. It is non-empty exactly when one 8s x 16s cell fits in each direction. |
| Terminal.GeometryBounds | stage3/font.c:35-39 | In a usable geometry, the cells of the grid fit the frame buffer, and the grid is small enough that cursor arithmetic on it never wraps. |
| Terminal.Wrap | stage3/font.c:123-126 | The first loop of `update_cursor`: the column modulo the grid width, with the whole widths carried into the 16-bit row. |
| Terminal.WrapExact | stage3/font.c:123-126 | Without 16-bit overflow, a column overshoot of k grid widths becomes exactly k extra rows. |
| Terminal.ScrollCount | stage3/font.c:128-136 | Defines how often `update_cursor`'s second loop runs for row y: once for each row from the last grid row to y, and not at all when y is inside the grid. |
| Terminal.NormalizeCursor | stage3/font.c:121-136 | From any cursor, even one left out of range by `font_set_size`, `update_cursor` leaves the cursor inside the grid. The column is the old column mod the width. The row is the wrapped row, held on the last row. |
| Terminal.AdvanceCursor | stage3/font.c:144-183 | Defines the cursor half of `print_char`'s switch, before normalization: newline to column 0 of the next (16-bit) row; tab to TabStop; backspace one column back unless at column 0; return to column 0; vertical tab and bell unchanged; form feed to (0, 0); any other byte one (16-bit) column on. |
| Terminal.CursorStep | stage3/font.c:142-186 | The cursor after `print_char`: the switch then normalization. It is inside the grid, whatever the cursor was before. |
| Terminal.PrintCursor | stage3/font.c:188-192 | The cursor after `print`: CursorStep over the string in order. After at least one character, or from a cursor already in the grid, it is inside the grid. |
| Terminal.RenderAt | stage3/font.c:102-119 | Defines `render_char(c)` at the cursor: RenderCell of glyph c with the cell corner cursor x cell size, truncated to 16 bits as `u16 base_x`, `base_y` are. |
| Terminal.AdvanceImage | stage3/font.c:144-183 | Defines the screen half of the switch: a space rendered for newline, tab, return and a backspace past column 0; nothing for backspace at column 0, vertical tab and bell; the whole screen cleared for form feed; the byte itself rendered otherwise. |
| Terminal.Advance | stage3/font.c:144-183 | Defines the whole switch of `print_char`: AdvanceImage with AdvanceCursor. |
| Terminal.Update | stage3/font.c:121-140 | `update_cursor` keeps the screen height and leaves the normalized cursor. |
| Terminal.UpdateImageAt | stage3/font.c:121-140 | After `update_cursor`, the caret cell is foreground. Every other pixel shows the pixel s cell rows below it, or the background where scrolling exposed the bottom, s being the number of rows the cursor was past the grid. |
| Terminal.PrintCharSpec | stage3/font.c:142-186 | `print_char` leaves the cursor that the cursor step gives. |
| Terminal.PrintSpec | stage3/font.c:188-192 | `print` leaves the cursor that the cursor steps of the string, in order, give. |
| Terminal.PrintAppend | stage3/font.c:188-192 | Printing s and then t is the same as printing s + t. |
| Terminal.PrintSnoc | stage3/font.c:188-192 | Printing a string with one more character is one more `print_char`. |
| Terminal.PrintPrefix | stage3/font.c:190-191 | The first i + 1 iterations of `print`'s loop are the first i, then `print_char` of character i. |
| Terminal.PrintOne | stage3/font.c:142-192 | Printing a one-character string is `print_char` of that character. |
| Terminal.StepNewline | stage3/font.c:145-149 | From a cursor in the grid, a newline goes to column 0 of the next row, or stays on the last row while the screen scrolls. |
| Terminal.StepTab | stage3/font.c:151-154 | From a cursor in the grid, a tab goes to the next tab stop, wrapped into the next row past the right edge. |
| Terminal.StepBackspace | stage3/font.c:156-161 | Backspace at column 0 leaves the cursor where it is; otherwise it moves exactly one column back on the same row. |
| Terminal.StepReturn | stage3/font.c:163-166 | A carriage return goes to column 0 of the same row. |
| Terminal.StepStill | stage3/font.c:168-174 | A vertical tab or a bell leaves a cursor in the grid where it is. |
| Terminal.StepFormFeed | stage3/font.c:176-178 | A form feed homes the cursor, from any position. |
| Terminal.StepPlain | stage3/font.c:180-182 | Any other byte moves exactly one column on, wrapping into the next row at the right edge. |
| Terminal.FormFeedClears | stage3/font.c:96-100 | After a form feed, the cursor is (0, 0) and every pixel is background except the caret cell at (0, 0). |
| Terminal.PrintPlainCursor | stage3/font.c:180-192 | Printing L non-control characters from (x0, y0) inside a W-column grid leaves the cursor at column (x0 + L) mod W, on row y0 + (x0 + L) / W, held on the last row by scrolling. |
| Format.DigitChar | stage3/font.c:201 | Digits below 10 come out as '0'..'9', and digits from 10 to 200 as 'A' onwards. |
| Format.DigitCharValue | stage3/font.c:201 | Digit values up to 200 can be recovered from their characters. |
| Format.Digits | stage3/font.c:199-203 | The numeral always has at least one digit, so 0 gives "0". |
| Format.DigitsStep | stage3/font.c:199-203 | The do-while stops exactly when the quotient is 0. Each pass adds the digit x mod base in front of the digits of x / base. |
| Format.FromDigitsSnoc | stage3/font.c:199-203 | Reading back one more digit multiplies by the base and adds the digit. |
| Format.DigitsRoundTrip | stage3/font.c:199-203 | Reading the numeral of x back in its base (for bases 2..201) gives x. |
| Format.FromDigitsLeading | stage3/font.c:199-203 | A string of digits denotes at least its leading digit. |
| Format.NumeralRoundTrip | stage3/font.c:199-203 | Every string of digits without a leading zero is the numeral of the number it denotes. |
| Format.U64BelowPow | stage3/font.c:196 | Every u64 is below base^64 for a base of at least 2. |
| Format.DigitsBelow | stage3/font.c:199-203 | A number below base^n has at most n digits. |
| Format.DigitsFit | stage3/font.c:196-203 | The numeral of a u64 fits the 64-character buffer. |
| Format.PadCount | stage3/font.c:205-206 | With pad_len <= 64, padding fills the text up to pad_len characters. With pad_len > 64, the wrapped limit suppresses all padding. A numeral already that long gets no padding. |
| Format.Padding | stage3/font.c:205-206 | The padding is n copies of the pad character. |
| Format.NumPad | stage3/font.c:194-209 | The text of `print_num_pad` ends with the numeral of x and starts with pad characters only. With pad_len <= 64, it is max(pad_len, digits) long. With pad_len > 64 it is the bare numeral. |
| Format.WriteDigits | stage3/font.c:196-203 | The do-while writes exactly the numeral of x at the back of the buffer, and returns the index of its first digit. |
| Format.WritePadding | stage3/font.c:205-206 | The padding loop stops at the limit, or at the start if the limit is above it. Everything from there on is pad characters followed by the unchanged digits. |
| Format.FormatNumPad | stage3/font.c:194-208 | The buffer slice `print_num_pad` prints, built in a 64-character array, is the padded numeral, including the wrap of `(usize)(64 - pad_len)`. |
| Format.UnitExponent | stage3/font.c:241-254 | The unit print_bytes chooses is the largest 1000^e (e <= 4) not above the byte count, or 1 when there is none. |
| Format.Whole | stage3/font.c:245 | Defines the whole number of units print_bytes prints: `bytes / unit`, which is a u64 again. |
| Format.UnitSuffix | stage3/font.c:248-250 | Defines the three characters print_bytes prints after the number: a space, the unit letter and 'B'. |
| Format.FixedText | stage3/font.c:245-247 | Defines the number part `print_bytes` prints: the whole part padded with spaces to three columns, a point, and the numeral of the tenths digit. |
| Format.InUnitText | stage3/font.c:245-250 | Defines the text `print_bytes` prints in unit 1000^e: FixedText of bytes / 1000^e and the tenths digit, then a space, the unit letter and 'B'. |
| Format.BytesText | stage3/font.c:239-255 | Defines the text of `print_bytes`: InUnitText in the unit UnitExponent chooses. |
| Format.TenthsDigit | stage3/font.c:247 | The digit after the point is a single decimal digit, and it is 0 when the unit is 1. |
| Format.Tenths | stage3/font.c:247 | The digit after the point is a single decimal digit. |
| Format.NumPadUnpadded | stage3/font.c:211-214 | With pad length 0, `print_num_pad` prints the bare numeral. |
| Format.InUnitSplit | stage3/font.c:245-250 | The text in unit 1000^e is the padded whole part followed by '.', the tenths digit, ' ', the unit letter and 'B'. |
| Format.InUnitParts | stage3/font.c:244-251 | The text in unit u reads back as the byte count in that unit. It is bytes / u padded to three columns, '.', the digit (bytes mod u) * 10 / u, ' ', the unit letter and 'B'. The whole part reads back as bytes / u. |
| Format.BytesTextParts | stage3/font.c:239-255 | The text of `print_bytes` has that shape, in the unit UnitExponent chooses. |
| Format.BytesTextWidth | stage3/font.c:239-255 | Below 1000 terabytes, the text of `print_bytes` is always eight characters wide. |
| Format.NumPadExamples | stage3/font.c:194-209 | (255, 16, 2, '0') gives "FF"; (5, 16, 4, '0') gives "0005"; (1234, 10, 0) gives "1234"; a pad length of 100 gives no padding. |
| Format.BytesTextZero | stage3/font.c:239-255 | 0 bytes print as "  0.0  B". |
| Format.BytesTextKilo | stage3/font.c:239-255 | 1500 bytes print as "  1.5 KB". |
| Format.DigitWrap | stage3/font.c:201 | Above base 201 the 8-bit digit character wraps: 254 in base 255 prints as "5", just like 5. |
| ConsoleState.Console.constructor | stage3/font.c:26-29 | `font_init` allocates a fresh 4096-byte table whose contents are the uncleared bytes the allocation held (the parameter `initial`). The statics start at zero. |
| ConsoleState.Console.SetSize | stage3/font.c:31-40 | The cell becomes 8 x 16 pixels times size, and the grid the number of whole cells that fit the screen. The console is ready exactly when one cell fits in each direction. |
| ConsoleState.Console.SetCursor | stage3/font.c:42-46 | The cursor becomes the given position, unchecked. |
| ConsoleState.Console.GetCursor | stage3/font.c:48-51 | Returns the cursor. |
| ConsoleState.Console.GetSize | stage3/font.c:53-56 | When the console is ready, the grid size is positive in both directions and its cells fit the screen. |
| ConsoleState.Console.LoadBlob | stage3/font.c:58-61 | The table becomes the blob's first 4096 bytes. |
| ConsoleState.Console.LoadBuiltin | stage3/font.c:63-66 | The table becomes the compiled-in font. |
| ConsoleState.Console.LoadClassic | stage3/font.c:68-94 | After clearing the table and looping over glyphs 0..254, the table is the converted legacy font with glyph 255 zero, to which ClassicTableBit applies. |
| ConsoleState.Console.ConvertGlyph | stage3/font.c:79-91 | A cleared glyph receives exactly its converted rows; the rest of the table is unchanged. |
| ConsoleState.Console.ConvertColumn | stage3/font.c:80-91 | The loop over one source column or-s that column's blocks into glyph i; the rest of the table is unchanged. |
| ConsoleState.Console.ConvertPixel | stage3/font.c:81-90 | One source pixel or-s its block into glyph i when it is set, and nothing otherwise. |
| ConsoleState.Console.PaintBlock | stage3/font.c:84-90 | The two innermost loops or the 2 x 2 band into glyph i and touch nothing else. |
| ConsoleState.Console.PaintBlockColumn | stage3/font.c:85-89 | The yf loop sets bit x of rows y0 and y0 + 1 of glyph i and touches nothing else. |
| ConsoleState.Console.ClearScreen | stage3/font.c:96-100 | The cursor goes home and the whole screen is filled with 0xFF000000. |
| ConsoleState.Console.RenderChar | stage3/font.c:102-119 | The screen becomes glyph c rendered at the cursor cell, with the 16-bit truncated corner, so RenderCellAt and RenderCellIdempotent apply. The table is unchanged. |
| ConsoleState.Console.PaintGlyphColumns | stage3/font.c:109-118 | The column loop paints the whole glyph over the cleared cell. |
| ConsoleState.Console.PaintGlyphColumn | stage3/font.c:110-118 | The row loop paints one column of the glyph. |
| ConsoleState.Console.PaintGlyphPixel | stage3/font.c:111-117 | One step fills the block of bit (x, y) exactly when that bit is set. |
| ConsoleState.Console.WrapCursor | stage3/font.c:123-126 | The first loop of `update_cursor` leaves the wrapped cursor. |
| ConsoleState.Console.ScrollToCursor | stage3/font.c:128-136 | The second loop runs once per row the cursor is past the grid, decrementing the row by one each time. The screen becomes that many scroll steps of the old screen. |
| ConsoleState.Console.ScrollRow | stage3/font.c:129-135 | One pass of the scroll loop applies one more scroll step. |
| ConsoleState.Console.UpdateCursor | stage3/font.c:121-140 | The screen and the cursor become `Update` of the old ones. |
| ConsoleState.Console.PrintChar | stage3/font.c:142-186 | The screen and the cursor become `PrintCharSpec` of the old ones, so the Step lemmas and UpdateImageAt apply. |
| ConsoleState.Console.AdvanceChar | stage3/font.c:144-183 | The switch leaves the image and the (unnormalized) cursor that `Advance` describes. |
| ConsoleState.Console.PlainChar | stage3/font.c:180-182 | The default case renders c at the cursor and adds one to the 16-bit column. |
| ConsoleState.Console.BlankAndMove | stage3/font.c:145-166 | '\n', '\t', '\r' and a backspace past column 0 render a space at the cursor and then move the cursor as AdvanceCursor says. |
| ConsoleState.Console.MoveCursor | stage3/font.c:145-166 | The cursor assignments of those four cases. |
| ConsoleState.Console.Print | stage3/font.c:188-192 | The screen and the cursor become `PrintSpec` of the old ones, so PrintAppend and PrintPlainCursor apply. |
| ConsoleState.Console.PrintNumPad | stage3/font.c:194-209 | Prints exactly the padded numeral NumPad describes. |
| ConsoleState.Console.PrintNum | stage3/font.c:211-214 | Prints the bare numeral of x in the base. |
| ConsoleState.Console.PrintDec | stage3/font.c:216-219 | Prints the decimal numeral of x. |
| ConsoleState.Console.PrintHex | stage3/font.c:221-224 | Prints the hexadecimal numeral of x, in upper case. |
| ConsoleState.Console.PrintOneChar | stage3/font.c:246 | `print_char(c)` is printing the one-character string. |
| ConsoleState.Console.PrintBytes | stage3/font.c:239-255 | The loop finds the unit UnitExponent describes and prints exactly BytesText, to which BytesTextParts applies. |
| ConsoleState.Console.PrintInUnit | stage3/font.c:244-251 | Once the unit 1000^e is chosen, prints the text in that unit. |
| ConsoleState.Console.PrintFixed | stage3/font.c:245-247 | Prints the whole part padded to three columns, '.', and the tenths digit. |
| ConsoleState.Console.PrintUnitSuffix | stage3/font.c:248-250 | Prints ' ', the unit letter and 'B'. |

Proof helpers with no counterpart in the source have no row: the Arith lemmas, the byte facts Glyphs.BitOr, BitOfMask, BitZero, NoBitsZero, OrAssoc and OrZero, the one-step unfoldings Glyphs.PaintColumnStep, PaintGlyphStep and Format.NumPadParts, Gfx.ImageExt (equality of images pixel by pixel), Format.SplitAt and Format.Append5 (facts about concatenating sequences), Terminal.SplitLast, PrefixSnoc and WholePrefix.

## Left out

- `print_dbl` (stage3/font.c:226-237) is not modelled. It needs floating point.
- stage3/pci.c is not part of this model. It is port-mapped I/O that only calls the printing functions.
- `kmalloc` and `kfree` are left out. The constructor allocates the table and takes its uninitialised contents as a parameter, and `kfree` of the legacy font has no effect on the console.
- `lmemcpy` and `memset` are left out as primitives. They become array updates: a `forall` statement in LoadBlob and LoadClassic, and loops in the scroll copy.
- The contents of the compiled-in font and of `font_classic()` are left out. The compiled-in font is the constructor parameter `builtinFont`. The legacy font is the parameter `cfont` of LoadClassic, one boolean per pixel.
- `CLASSIC_CHAR_WIDTH` and `CLASSIC_CHAR_HEIGHT` come from font_classic.h, which is not part of this model. They are the parameters `cw` and `ch`, constrained by `ClassicFits`.
  - The code only works for legacy glyphs of at most 4 x 8 pixels: doubled, a wider glyph would write past bit 7.
  - A legacy 8 x 8 font would not fit.
- `gfx_set_area`'s definition is not part of this model. Gfx.SetArea models it as a fill clipped to the frame buffer. Its rectangle arguments are taken as unbounded naturals: the cell corner is truncated to 16 bits as in render_char, but `base_x + x * font_size` is passed without a wrap, so a 16-bit wrap inside the call is not modelled.
- The frame buffer is modelled as rows of pixels, with the pitch equal to the width. The scroll copy `pitch * outer_height` is therefore a shift by `outer_height` rows.
- `bootinfo` is left out. Its width and height are the frame buffer's dimensions.
- Format.DigitsRoundTrip: proved for bases up to 201 only. Above that the 8-bit digit character wraps and two digits share a character (Format.DigitWrap).
- ConsoleState.Console.LoadBlob: requires a blob of at least 4096 bytes, which the caller guarantees and the code does not check.
- A `char` is a byte (`Char8`). The source's `render_char(c)` takes a `u8`, so for a char above 127 the model uses its byte value. This is what the implicit conversion does on a signed-char target.
