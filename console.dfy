/**
 * The console of stage3/font.c as an object: the file's statics are the
 * fields of one Console, font.c's functions are its methods, and each
 * method is proved to do what the pure model of the Terminal, Glyphs, Gfx
 * and Format modules says.
 */
module ConsoleState {
  import opened Machine
  import opened Arith
  import opened Gfx
  import opened Glyphs
  import opened Terminal
  import opened Format

  class Console {
    /** The frame buffer, gfx_height rows of gfx_width pixels. */
    const fb: array2<u32>
    /** The glyph table `font`, u8[256][16], allocated by font_init. */
    const font: array<bv8>
    /** The font compiled into the image (font_builtin.c). */
    const builtin: GlyphTable

    var fontSize: u16
    var outerWidth: u16
    var outerHeight: u16
    var cursorX: u16
    var cursorY: u16
    var screenWidth: u16
    var screenHeight: u16

    /** What holds from font_init on: a 4096-byte table and a 16-bit-sized screen. */
    predicate Valid()
    {
      font.Length == TABLE_SIZE && fb.Length0 < 0x1_0000 && fb.Length1 < 0x1_0000
    }

    /** The geometry as font_set_size leaves it. */
    function Geo(): Geometry
      reads this`fontSize, this`outerWidth, this`outerHeight, this`screenWidth, this`screenHeight
    {
      Geometry(fontSize, outerWidth, outerHeight, screenWidth, screenHeight, fb.Length1, fb.Length0)
    }

    /**
     * font_set_size has run with a scale whose cells fit the screen at least
     * once in each direction, so the grid is not empty.
     */
    predicate Ready()
      reads this`fontSize, this`outerWidth, this`outerHeight, this`screenWidth, this`screenHeight
    {
      Valid() && GeometryOk(Geo())
    }

    /** The glyph table's contents. */
    ghost function Table(): GlyphTable
      requires Valid()
      reads font
    {
      font[..]
    }

    /** The screen and the cursor. */
    ghost function Disp(): Display
      reads this`cursorX, this`cursorY, fb
    {
      Display(Pixels(fb), Pos(cursorX, cursorY))
    }

    /**
     * font_init: allocates the glyph table. The statics start at zero. The
     * allocator does not clear the table, so its first contents are whatever
     * bytes the allocation held, given here as `initial`.
     */
    constructor (screen: array2<u32>, builtinFont: GlyphTable, initial: GlyphTable)
      requires screen.Length0 < 0x1_0000 && screen.Length1 < 0x1_0000
      ensures Valid() && fb == screen && builtin == builtinFont && fresh(font)
      ensures Table() == initial
      ensures fontSize == 0 && outerWidth == 0 && outerHeight == 0
      ensures cursorX == 0 && cursorY == 0 && screenWidth == 0 && screenHeight == 0
    {
      fb := screen;
      builtin := builtinFont;
      font := new bv8[TABLE_SIZE](k requires 0 <= k < TABLE_SIZE => initial[k]);
      fontSize, outerWidth, outerHeight := 0, 0, 0;
      cursorX, cursorY := 0, 0;
      screenWidth, screenHeight := 0, 0;
    }

    /**
     * font_set_size(size): the cell is 8 x 16 pixels times size, and the
     * grid as many whole cells as fit the screen. The cursor is left as it
     * is. The console is ready exactly when one cell fits in each direction.
     */
    method SetSize(size: u16)
      requires Valid() && size > 0 && CHAR_HEIGHT * size < 0x1_0000
      modifies this`fontSize, this`outerWidth, this`outerHeight, this`screenWidth, this`screenHeight
      ensures fontSize == size
      ensures outerWidth == CHAR_WIDTH * size && outerHeight == CHAR_HEIGHT * size
      ensures screenWidth == fb.Length1 / outerWidth && screenHeight == fb.Length0 / outerHeight
      ensures Ready() <==> CHAR_WIDTH * size <= fb.Length1 && CHAR_HEIGHT * size <= fb.Length0
    {
      SizeGeometryOk(size, fb.Length1, fb.Length0);
      fontSize := size;
      outerWidth := CHAR_WIDTH * size;
      outerHeight := CHAR_HEIGHT * size;
      screenWidth := fb.Length1 / outerWidth;
      screenHeight := fb.Length0 / outerHeight;
      assert Geo() == SizeGeometry(size, fb.Length1, fb.Length0);
    }

    /** font_set_cursor(p): no bounds check; the next update_cursor normalizes. */
    method SetCursor(p: Pos)
      modifies this`cursorX, this`cursorY
      ensures GetCursor() == p
    {
      cursorX, cursorY := p.x, p.y;
    }

    /** font_get_cursor. */
    function GetCursor(): (p: Pos)
      reads this`cursorX, this`cursorY
      ensures p.x == cursorX && p.y == cursorY
    {
      Pos(cursorX, cursorY)
    }

    /** font_get_size: the grid in cells, which fits the screen. */
    function GetSize(): (p: Pos)
      reads this`fontSize, this`outerWidth, this`outerHeight, this`screenWidth, this`screenHeight
      ensures Ready() ==>
        p.x > 0 && p.y > 0 && p.x * outerWidth <= fb.Length1 && p.y * outerHeight <= fb.Length0
    {
      if Ready() then GeometryBounds(Geo()); Pos(screenWidth, screenHeight)
      else Pos(screenWidth, screenHeight)
    }

    /** font_load_blob(blob): the table becomes the blob's first 4096 bytes. */
    method LoadBlob(blob: seq<bv8>)
      requires Valid() && |blob| >= TABLE_SIZE
      modifies font
      ensures Table() == blob[..TABLE_SIZE]
    {
      forall k | 0 <= k < TABLE_SIZE {
        font[k] := blob[k];
      }
    }

    /** font_load_builtin: the table becomes the compiled-in font. */
    method LoadBuiltin()
      requires Valid()
      modifies font
      ensures Table() == builtin
    {
      LoadBlob(builtin);
    }

    /**
     * font_load_classic: clear the table, then convert legacy glyphs 0..254
     * of cfont (cw x ch pixels each) at twice the size, centred in the
     * 8 x 16 cell. Glyph 255 stays empty.
     */
    method LoadClassic(cfont: seq<seq<bool>>, cw: nat, ch: nat)
      requires Valid() && ClassicFits(cw, ch) && |cfont| >= CLASSIC_GLYPHS
      requires forall i :: 0 <= i < |cfont| ==> IsClassicGlyph(cfont[i], cw, ch)
      modifies font
      ensures Table() == ClassicTable(cfont, cw, ch)
    {
      forall k | 0 <= k < font.Length {
        font[k] := 0;
      }
      var i: nat := 0;
      while i < CLASSIC_GLYPHS
        invariant i <= CLASSIC_GLYPHS
        invariant forall k :: 0 <= k < TABLE_SIZE ==>
          font[k] == if k / CHAR_HEIGHT < i then ClassicRow(cfont[k / CHAR_HEIGHT], cw, ch, k % CHAR_HEIGHT) else 0
      {
        ghost var before := font[..];
        ConvertGlyph(i, cfont[i], cw, ch);
        forall k | 0 <= k < TABLE_SIZE
          ensures font[k] == if k / CHAR_HEIGHT < i + 1 then ClassicRow(cfont[k / CHAR_HEIGHT], cw, ch, k % CHAR_HEIGHT) else 0
        {
          DivBlock(k, CHAR_HEIGHT, i);
          DivBelow(k, CHAR_HEIGHT, i);
          if i * CHAR_HEIGHT <= k < i * CHAR_HEIGHT + CHAR_HEIGHT {
            DivModUnique(k, CHAR_HEIGHT, i, k - i * CHAR_HEIGHT);
          } else {
            assert font[k] == before[k];
          }
        }
        i := i + 1;
      }
      assert forall k :: 0 <= k < TABLE_SIZE ==> font[..][k] == ClassicTable(cfont, cw, ch)[k];
    }

    /**
     * One glyph of font_load_classic: rows font[i * 16 .. i * 16 + 16], all
     * zero before, receive the 2 x 2 block of every set source pixel, source
     * column by source column.
     */
    method ConvertGlyph(i: nat, src: seq<bool>, cw: nat, ch: nat)
      requires Valid() && i < GLYPH_COUNT
      requires ClassicFits(cw, ch) && IsClassicGlyph(src, cw, ch)
      requires forall k :: i * CHAR_HEIGHT <= k < i * CHAR_HEIGHT + CHAR_HEIGHT ==> font[k] == 0
      modifies font
      ensures forall k :: i * CHAR_HEIGHT <= k < i * CHAR_HEIGHT + CHAR_HEIGHT ==>
        font[k] == ClassicRow(src, cw, ch, k - i * CHAR_HEIGHT)
      ensures forall k :: 0 <= k < font.Length && !(i * CHAR_HEIGHT <= k < i * CHAR_HEIGHT + CHAR_HEIGHT) ==>
        font[k] == old(font[k])
    {
      var xc: nat := 0;
      while xc < cw
        invariant xc <= cw
        invariant forall k :: i * CHAR_HEIGHT <= k < i * CHAR_HEIGHT + CHAR_HEIGHT ==>
          font[k] == ColumnsRow(src, cw, ch, xc, k - i * CHAR_HEIGHT)
        invariant forall k :: 0 <= k < font.Length && !(i * CHAR_HEIGHT <= k < i * CHAR_HEIGHT + CHAR_HEIGHT) ==>
          font[k] == old(font[k])
      {
        ConvertColumn(i, src, cw, ch, xc);
        xc := xc + 1;
      }
    }

    /**
     * font_load_classic's loop over the source rows yc of source column xc:
     * the block of each set pixel is or-ed into glyph i.
     */
    method ConvertColumn(i: nat, src: seq<bool>, cw: nat, ch: nat, xc: nat)
      requires Valid() && i < GLYPH_COUNT
      requires ClassicFits(cw, ch) && IsClassicGlyph(src, cw, ch) && xc < cw
      modifies font
      ensures forall k :: i * CHAR_HEIGHT <= k < i * CHAR_HEIGHT + CHAR_HEIGHT ==>
        font[k] == old(font[k]) | ColumnRow(src, cw, ch, xc, ch, k - i * CHAR_HEIGHT)
      ensures forall k :: 0 <= k < font.Length && !(i * CHAR_HEIGHT <= k < i * CHAR_HEIGHT + CHAR_HEIGHT) ==>
        font[k] == old(font[k])
    {
      var yc: nat := 0;
      while yc < ch
        invariant yc <= ch
        invariant forall k :: i * CHAR_HEIGHT <= k < i * CHAR_HEIGHT + CHAR_HEIGHT ==>
          font[k] == old(font[k]) | ColumnRow(src, cw, ch, xc, yc, k - i * CHAR_HEIGHT)
        invariant forall k :: 0 <= k < font.Length && !(i * CHAR_HEIGHT <= k < i * CHAR_HEIGHT + CHAR_HEIGHT) ==>
          font[k] == old(font[k])
      {
        ghost var prev := font[..];
        ConvertPixel(i, src, cw, ch, xc, yc);
        forall k | i * CHAR_HEIGHT <= k < i * CHAR_HEIGHT + CHAR_HEIGHT
          ensures font[k] == old(font[k]) | ColumnRow(src, cw, ch, xc, yc + 1, k - i * CHAR_HEIGHT)
        {
          OrAssoc(old(font[k]), ColumnRow(src, cw, ch, xc, yc, k - i * CHAR_HEIGHT), BlockRow(src, cw, ch, xc, yc, k - i * CHAR_HEIGHT));
        }
        yc := yc + 1;
      }
    }

    /** The body of font_load_classic's source-row loop: the block of source pixel (xc, yc), if set. */
    method ConvertPixel(i: nat, src: seq<bool>, cw: nat, ch: nat, xc: nat, yc: nat)
      requires Valid() && i < GLYPH_COUNT
      requires ClassicFits(cw, ch) && IsClassicGlyph(src, cw, ch) && xc < cw && yc < ch
      modifies font
      ensures forall k :: i * CHAR_HEIGHT <= k < i * CHAR_HEIGHT + CHAR_HEIGHT ==>
        font[k] == old(font[k]) | BlockRow(src, cw, ch, xc, yc, k - i * CHAR_HEIGHT)
      ensures forall k :: 0 <= k < font.Length && !(i * CHAR_HEIGHT <= k < i * CHAR_HEIGHT + CHAR_HEIGHT) ==>
        font[k] == old(font[k])
    {
      ClassicIndex(cw, ch, xc, yc);
      BlockRowBand(src, cw, ch, xc, yc, 0);
      if src[yc * cw + xc] {
        PaintBlock(i, xc * SCALE + XPad(cw), yc * SCALE + YPad(ch));
        forall k | i * CHAR_HEIGHT <= k < i * CHAR_HEIGHT + CHAR_HEIGHT
          ensures font[k] == old(font[k]) | BlockRow(src, cw, ch, xc, yc, k - i * CHAR_HEIGHT)
        {
          BlockRowBand(src, cw, ch, xc, yc, k - i * CHAR_HEIGHT);
        }
      } else {
        forall k | i * CHAR_HEIGHT <= k < i * CHAR_HEIGHT + CHAR_HEIGHT
          ensures font[k] == old(font[k]) | BlockRow(src, cw, ch, xc, yc, k - i * CHAR_HEIGHT)
        {
          BlockRowUnset(font[k], src, cw, ch, xc, yc, k - i * CHAR_HEIGHT);
        }
      }
    }

    /**
     * font_load_classic's two innermost loops: `font[i * 16 + y] |= 1 << x`
     * for the 2 x 2 block whose top-left bit is (x0, y0), column by column.
     */
    method PaintBlock(i: nat, x0: nat, y0: nat)
      requires Valid() && i < GLYPH_COUNT
      requires x0 + SCALE <= CHAR_WIDTH && y0 + SCALE <= CHAR_HEIGHT
      modifies font
      ensures forall k :: i * CHAR_HEIGHT <= k < i * CHAR_HEIGHT + CHAR_HEIGHT ==>
        font[k] == old(font[k]) | Band(x0, SCALE, y0, SCALE, k - i * CHAR_HEIGHT)
      ensures forall k :: 0 <= k < font.Length && !(i * CHAR_HEIGHT <= k < i * CHAR_HEIGHT + CHAR_HEIGHT) ==>
        font[k] == old(font[k])
    {
      var xf: nat := 0;
      while xf < SCALE
        invariant xf <= SCALE
        invariant forall k :: i * CHAR_HEIGHT <= k < i * CHAR_HEIGHT + CHAR_HEIGHT ==>
          font[k] == old(font[k]) | Band(x0, xf, y0, SCALE, k - i * CHAR_HEIGHT)
        invariant forall k :: 0 <= k < font.Length && !(i * CHAR_HEIGHT <= k < i * CHAR_HEIGHT + CHAR_HEIGHT) ==>
          font[k] == old(font[k])
      {
        ghost var start := font[..];
        PaintBlockColumn(i, x0 + xf, y0);
        forall k | i * CHAR_HEIGHT <= k < i * CHAR_HEIGHT + CHAR_HEIGHT
          ensures font[k] == old(font[k]) | Band(x0, xf + 1, y0, SCALE, k - i * CHAR_HEIGHT)
        {
          BandColumnStep(old(font[k]), x0, xf, y0, k - i * CHAR_HEIGHT);
          assert font[k] == start[k] | Band(x0 + xf, 1, y0, SCALE, k - i * CHAR_HEIGHT);
        }
        xf := xf + 1;
      }
    }

    /** The loop over yf for one column x of the block: bit x of rows y0 and y0 + 1. */
    method PaintBlockColumn(i: nat, x: nat, y0: nat)
      requires Valid() && i < GLYPH_COUNT
      requires x < CHAR_WIDTH && y0 + SCALE <= CHAR_HEIGHT
      modifies font
      ensures forall k :: i * CHAR_HEIGHT <= k < i * CHAR_HEIGHT + CHAR_HEIGHT ==>
        font[k] == old(font[k]) | Band(x, 1, y0, SCALE, k - i * CHAR_HEIGHT)
      ensures forall k :: 0 <= k < font.Length && !(i * CHAR_HEIGHT <= k < i * CHAR_HEIGHT + CHAR_HEIGHT) ==>
        font[k] == old(font[k])
    {
      var yf: nat := 0;
      while yf < SCALE
        invariant yf <= SCALE
        invariant forall k :: i * CHAR_HEIGHT <= k < i * CHAR_HEIGHT + CHAR_HEIGHT ==>
          font[k] == old(font[k]) | Band(x, 1, y0, yf, k - i * CHAR_HEIGHT)
        invariant forall k :: 0 <= k < font.Length && !(i * CHAR_HEIGHT <= k < i * CHAR_HEIGHT + CHAR_HEIGHT) ==>
          font[k] == old(font[k])
      {
        var y := y0 + yf;
        ghost var prev := font[..];
        font[i * CHAR_HEIGHT + y] := font[i * CHAR_HEIGHT + y] | BitMask(x);
        forall k | i * CHAR_HEIGHT <= k < i * CHAR_HEIGHT + CHAR_HEIGHT
          ensures font[k] == old(font[k]) | Band(x, 1, y0, yf + 1, k - i * CHAR_HEIGHT)
        {
          BandRowUpdate(old(font[k]), prev[k], font[k], x, y0, yf, k - i * CHAR_HEIGHT);
        }
        yf := yf + 1;
      }
    }

    /**
     * font_clear_screen: the cursor goes home and the whole screen is
     * filled with the background colour.
     */
    method ClearScreen()
      modifies this`cursorX, this`cursorY, fb
      ensures cursorX == 0 && cursorY == 0
      ensures Pixels(fb) == FillRect(old(Pixels(fb)), 0, 0, fb.Length1, fb.Length0, BG)
    {
      cursorX, cursorY := 0, 0;
      SetArea(fb, 0, 0, fb.Length1, fb.Length0, BG);
    }

    /**
     * render_char(c): clear the cursor's cell to the background, then fill
     * a font_size square in the foreground for every set bit of glyph c,
     * column by column.
     */
    method RenderChar(c: u8)
      requires Ready()
      modifies fb
      ensures Pixels(fb) == RenderAt(old(Disp()), Table(), Geo(), c)
      ensures Table() == old(Table())
    {
      ghost var d, t := Disp(), Table();
      var baseX := ToU16(cursorX * outerWidth);
      var baseY := ToU16(cursorY * outerHeight);
      ghost var g := Glyph(t, c);
      SetArea(fb, baseX, baseY, outerWidth, outerHeight, BG);
      ghost var cleared := Pixels(fb);
      assert cleared == FillRect(d.img, baseX, baseY, CHAR_WIDTH * fontSize, CHAR_HEIGHT * fontSize, BG);
      PaintGlyphColumns(c, g, baseX, baseY);
      assert Pixels(fb) == RenderCell(d.img, g, baseX, baseY, fontSize);
      assert Table() == t;
    }

    /** render_char's outer loop: the columns of glyph c, left to right. */
    method PaintGlyphColumns(c: u8, ghost g: seq<bv8>, baseX: nat, baseY: nat)
      requires Valid() && |g| == CHAR_HEIGHT
      requires forall k :: 0 <= k < CHAR_HEIGHT ==> g[k] == font[c * CHAR_HEIGHT + k]
      modifies fb
      ensures Pixels(fb) == PaintGlyph(old(Pixels(fb)), g, baseX, baseY, fontSize, CHAR_WIDTH)
    {
      ghost var cleared := Pixels(fb);
      var x: nat := 0;
      while x < CHAR_WIDTH
        invariant x <= CHAR_WIDTH
        invariant forall k :: 0 <= k < CHAR_HEIGHT ==> g[k] == font[c * CHAR_HEIGHT + k]
        invariant Pixels(fb) == PaintGlyph(cleared, g, baseX, baseY, fontSize, x)
      {
        ghost var prev := PaintGlyph(cleared, g, baseX, baseY, fontSize, x);
        PaintGlyphStep(cleared, g, baseX, baseY, fontSize, x);
        PaintGlyphColumn(c, g, baseX, baseY, x);
        assert Pixels(fb) == PaintColumn(prev, g, baseX, baseY, fontSize, x, CHAR_HEIGHT);
        x := x + 1;
      }
    }

    /** render_char's inner loop: the set bits of column x of glyph c, top to bottom. */
    method PaintGlyphColumn(c: u8, ghost g: seq<bv8>, baseX: nat, baseY: nat, x: nat)
      requires Valid() && x < CHAR_WIDTH && |g| == CHAR_HEIGHT
      requires forall k :: 0 <= k < CHAR_HEIGHT ==> g[k] == font[c * CHAR_HEIGHT + k]
      modifies fb
      ensures Pixels(fb) == PaintColumn(old(Pixels(fb)), g, baseX, baseY, fontSize, x, CHAR_HEIGHT)
    {
      ghost var before := Pixels(fb);
      MulNonneg(x, fontSize);
      var y: nat := 0;
      while y < CHAR_HEIGHT
        invariant y <= CHAR_HEIGHT
        invariant forall k :: 0 <= k < CHAR_HEIGHT ==> g[k] == font[c * CHAR_HEIGHT + k]
        invariant Pixels(fb) == PaintColumn(before, g, baseX, baseY, fontSize, x, y)
      {
        PaintGlyphPixel(c, g, before, baseX, baseY, x, y);
        y := y + 1;
      }
    }

    /**
     * One step of render_char's inner loop: the block of pixel (x, y) of
     * glyph g is filled when that bit is set, extending the painted column
     * by one row.
     */
    method PaintGlyphPixel(c: u8, ghost g: seq<bv8>, ghost before: Image, baseX: nat, baseY: nat, x: nat, y: nat)
      requires Valid() && x < CHAR_WIDTH && y < CHAR_HEIGHT && |g| == CHAR_HEIGHT
      requires g[y] == font[c * CHAR_HEIGHT + y]
      requires Pixels(fb) == PaintColumn(before, g, baseX, baseY, fontSize, x, y)
      modifies fb
      ensures Pixels(fb) == PaintColumn(before, g, baseX, baseY, fontSize, x, y + 1)
    {
      MulNonneg(x, fontSize);
      MulNonneg(y, fontSize);
      var px: nat, py: nat := baseX + x * fontSize, baseY + y * fontSize;
      ghost var prev := PaintColumn(before, g, baseX, baseY, fontSize, x, y);
      ghost var next := PaintColumn(before, g, baseX, baseY, fontSize, x, y + 1);
      PaintColumnStep(before, g, baseX, baseY, fontSize, x, y);
      if font[c * CHAR_HEIGHT + y] & BitMask(x) != 0 {
        assert next == FillRect(prev, px, py, fontSize, fontSize, FG);
        SetArea(fb, px, py, fontSize, fontSize, FG);
      } else {
        assert next == prev;
      }
    }

    /**
     * update_cursor's first loop: carry whole screen widths of the column
     * into the (16-bit) row.
     */
    method WrapCursor()
      requires Ready()
      modifies this`cursorX, this`cursorY
      ensures GetCursor() == Wrap(old(GetCursor()), Geo())
    {
      GeometryBounds(Geo());
      ghost var p := GetCursor();
      ghost var k := 0;
      while cursorX >= screenWidth
        invariant p.x == cursorX + k * screenWidth
        invariant cursorY == ToU16(p.y + k)
        decreases cursorX
      {
        cursorX := cursorX - screenWidth;
        ToU16Succ(p.y + k);
        cursorY := ToU16(cursorY + 1);
        MulSucc(k, screenWidth);
        k := k + 1;
      }
      DivModUnique(p.x, screenWidth, k, cursorX);
    }

    /**
     * update_cursor's second loop: while the cursor is below the grid, move
     * it up a row and scroll the screen up one cell row (the bulk copy,
     * then clearing the bottom cell row).
     */
    method ScrollToCursor()
      requires Valid() && screenHeight > 0 && outerHeight <= fb.Length0
      modifies this`cursorY, fb
      ensures cursorY == old(cursorY) - ScrollCount(old(cursorY), screenHeight)
      ensures Pixels(fb) == Scrolls(old(Pixels(fb)), fb.Length1, outerHeight, ScrollCount(old(cursorY), screenHeight))
    {
      ghost var img, y0 := Pixels(fb), cursorY;
      while cursorY >= screenHeight
        invariant cursorY <= y0 && (if y0 >= screenHeight then cursorY + 1 >= screenHeight else cursorY == y0)
        invariant Pixels(fb) == Scrolls(img, fb.Length1, outerHeight, y0 - cursorY)
        decreases cursorY
      {
        cursorY := cursorY - 1;
        ScrollRow(img, y0 - cursorY - 1);
      }
      assert y0 - cursorY == ScrollCount(y0, screenHeight);
    }

    /** One pass of update_cursor's second loop on the screen: the s-th scroll by one cell row. */
    method ScrollRow(ghost img: Image, ghost s: nat)
      requires outerHeight <= fb.Length0 && outerHeight <= |img|
      requires Pixels(fb) == Scrolls(img, fb.Length1, outerHeight, s)
      modifies fb
      ensures Pixels(fb) == Scrolls(img, fb.Length1, outerHeight, s + 1)
    {
      ghost var prev := Scrolls(img, fb.Length1, outerHeight, s);
      ScrollsSucc(img, fb.Length1, outerHeight, s);
      ScrollBand(fb, outerHeight);
      assert Pixels(fb) == ScrollStep(prev, fb.Length1, outerHeight);
    }

    /**
     * update_cursor: normalize the cursor into the grid, scrolling as
     * needed, and draw the caret block.
     */
    method UpdateCursor()
      requires Ready()
      modifies this`cursorX, this`cursorY, fb
      ensures Disp() == Update(old(Disp()), Geo())
    {
      GeometryBounds(Geo());
      ghost var d := Disp();
      WrapCursor();
      ghost var w := GetCursor();
      ScrollToCursor();
      assert NormalizeCursor(d.cur, Geo()) == Pos(w.x, w.y - ScrollCount(w.y, screenHeight));
      MulNonneg(cursorX, outerWidth);
      MulNonneg(cursorY, outerHeight);
      SetArea(fb, cursorX * outerWidth, cursorY * outerHeight, outerWidth, outerHeight, FG);
    }

    /** print_char(c): the control-character switch, then update_cursor. */
    method PrintChar(c: Char8)
      requires Ready()
      modifies this`cursorX, this`cursorY, fb
      ensures Disp() == PrintCharSpec(old(Disp()), Table(), Geo(), c)
    {
      ghost var d, t := Disp(), Table();
      AdvanceChar(c);
      assert Disp() == Display(Pixels(fb), Pos(cursorX, cursorY));
      assert Disp() == Advance(d, t, Geo(), c);
      UpdateCursor();
      assert Table() == t;
    }

    /** print_char's switch: the effect of character c on the screen and the cursor. */
    method AdvanceChar(c: Char8)
      requires Ready()
      modifies this`cursorX, this`cursorY, fb
      ensures Pixels(fb) == AdvanceImage(old(Disp()), Table(), Geo(), c)
      ensures Pos(cursorX, cursorY) == AdvanceCursor(old(Pos(cursorX, cursorY)), c)
    {
      ghost var d, t, geo := Disp(), Table(), Geo();
      ghost var e := Display(AdvanceImage(d, t, geo, c), AdvanceCursor(d.cur, c));
      if c == '\n' || c == '\t' || c == BACKSPACE || c == '\r' {
        if c != BACKSPACE || cursorX > 0 {
          BlankAndMove(c, t, geo);
          assert e.img == RenderAt(d, t, geo, SPACE);
          assert Pixels(fb) == e.img;
        } else {
          assert e == d;
        }
      } else if c == VTAB || c == BELL {
        assert e == d;
      } else if c == FORMFEED {
        ClearScreen();
        assert e.img == FillRect(d.img, 0, 0, geo.width, geo.height, BG);
        assert Pixels(fb) == e.img;
      } else {
        PlainChar(c as int);
        assert e.img == RenderAt(d, t, geo, c as int);
        assert Pixels(fb) == e.img;
      }
      assert Table() == t && Geo() == geo;
    }

    /** A printable character: drawn in the cursor cell, then the cursor moves one column right. */
    method PlainChar(c: u8)
      requires Ready()
      modifies this`cursorX, fb
      ensures Pixels(fb) == RenderAt(old(Disp()), Table(), Geo(), c)
      ensures cursorX == ToU16(old(cursorX) + 1)
      ensures Geo() == old(Geo()) && Table() == old(Table())
    {
      RenderChar(c);
      cursorX := ToU16(cursorX + 1);
    }

    /**
     * The cases of print_char's switch that blank the cursor cell with a
     * space and move the cursor; '\b' in the first column does neither.
     */
    method BlankAndMove(c: Char8, ghost t: GlyphTable, ghost geo: Geometry)
      requires Ready() && (c == '\n' || c == '\t' || c == BACKSPACE || c == '\r')
      requires c == BACKSPACE ==> cursorX > 0
      requires t == Table() && geo == Geo()
      modifies this`cursorX, this`cursorY, fb
      ensures Pixels(fb) == RenderAt(old(Disp()), t, geo, SPACE)
      ensures Pos(cursorX, cursorY) == AdvanceCursor(old(Pos(cursorX, cursorY)), c)
      ensures Geo() == geo && Table() == t
    {
      RenderChar(SPACE);
      assert Geo() == geo;
      cursorX, cursorY := MoveCursor(c, cursorX, cursorY);
    }

    /** The cursor motion of '\n', '\t', '\b' and '\r', from the cursor at (x, y). */
    static method MoveCursor(c: Char8, x: u16, y: u16) returns (x': u16, y': u16)
      requires c == '\n' || c == '\t' || c == BACKSPACE || c == '\r'
      ensures Pos(x', y') == AdvanceCursor(Pos(x, y), c)
    {
      x', y' := x, y;
      if c == '\n' {
        y' := ToU16(y + 1);
        x' := 0;
      } else if c == '\t' {
        x' := TabStop(x);
      } else if c == BACKSPACE {
        if x > 0 {
          x' := x - 1;
        }
      } else {
        x' := 0;
      }
    }

    /** print(s): print_char for each character in order. */
    method Print(s: seq<Char8>)
      requires Ready()
      modifies this`cursorX, this`cursorY, fb
      ensures Disp() == PrintSpec(old(Disp()), Table(), Geo(), s)
    {
      ghost var d := Disp();
      for i := 0 to |s|
        invariant Disp() == PrintSpec(d, Table(), Geo(), s[..i])
      {
        PrintChar(s[i]);
        PrintPrefix(d, Table(), Geo(), s, i);
      }
      WholePrefix(s);
    }

    /** print_num_pad(x, base, pad_len, pad_char). */
    method PrintNumPad(x: u64, base: u8, padLen: u8, padChar: Char8)
      requires Ready() && base >= 2
      modifies this`cursorX, this`cursorY, fb
      ensures Disp() == PrintSpec(old(Disp()), Table(), Geo(), NumPad(x, base, padLen, padChar))
    {
      var text := FormatNumPad(x, base, padLen, padChar);
      Print(text);
    }

    /** print_num(x, base): the bare numeral, no padding. */
    method PrintNum(x: u64, base: u8)
      requires Ready() && base >= 2
      modifies this`cursorX, this`cursorY, fb
      ensures Disp() == PrintSpec(old(Disp()), Table(), Geo(), Digits(x, base))
    {
      PrintNumPad(x, base, 0, ' ');
      NumPadUnpadded(x, base, ' ');
    }

    /** print_dec(x). */
    method PrintDec(x: u64)
      requires Ready()
      modifies this`cursorX, this`cursorY, fb
      ensures Disp() == PrintSpec(old(Disp()), Table(), Geo(), Digits(x, 10))
    {
      PrintNum(x, 10);
    }

    /** print_hex(x). */
    method PrintHex(x: u64)
      requires Ready()
      modifies this`cursorX, this`cursorY, fb
      ensures Disp() == PrintSpec(old(Disp()), Table(), Geo(), Digits(x, 16))
    {
      PrintNum(x, 16);
    }

    /** print_char(c) as printing the one-character string. */
    method PrintOneChar(c: Char8)
      requires Ready()
      modifies this`cursorX, this`cursorY, fb
      ensures Disp() == PrintSpec(old(Disp()), Table(), Geo(), [c])
    {
      PrintOne(Disp(), Table(), Geo(), c);
      PrintChar(c);
    }

    /**
     * print_bytes(bytes): try the units from terabytes down and print in
     * the first one that is at most bytes, or in bytes.
     */
    method PrintBytes(bytes: u64)
      requires Ready()
      modifies this`cursorX, this`cursorY, fb
      ensures Disp() == PrintSpec(old(Disp()), Table(), Geo(), BytesText(bytes))
    {
      ghost var d := Disp();
      assert Pow(UNIT_STEP, 2) == 1000_000;
      assert Pow(UNIT_STEP, 4) == 1000_000_000_000 by {
        PowAdd(UNIT_STEP, 2, 2);
      }
      var unit: u64 := Pow(UNIT_STEP, LARGEST_UNIT);
      var i := 0;
      while i < |UNITS|
        invariant i <= LARGEST_UNIT
        invariant unit == Pow(UNIT_STEP, LARGEST_UNIT - i)
        invariant UnitExponent(bytes, LARGEST_UNIT) == UnitExponent(bytes, LARGEST_UNIT - i)
        invariant Disp() == d
      {
        if bytes >= unit || unit == 1 {
          assert UnitExponent(bytes, LARGEST_UNIT) == LARGEST_UNIT - i;
          PrintInUnit(bytes, unit, LARGEST_UNIT - i);
          return;
        }
        unit := unit / UNIT_STEP;
        i := i + 1;
      }
    }

    /** print_bytes' prints once the unit 1000^e is chosen. */
    method PrintInUnit(bytes: u64, unit: u64, e: nat)
      requires Ready() && e <= LARGEST_UNIT && unit == Pow(UNIT_STEP, e)
      modifies this`cursorX, this`cursorY, fb
      ensures Disp() == PrintSpec(old(Disp()), Table(), Geo(), InUnitText(bytes, e))
    {
      ghost var d := Disp();
      var whole, tenths := Whole(bytes, unit), Tenths(bytes, unit);
      PrintFixed(whole, tenths);
      PrintUnitSuffix(UNITS[e]);
      PrintAppend(d, Table(), Geo(), FixedText(whole, tenths), UnitSuffix(UNITS[e]));
    }

    /** The number part of print_bytes: print_num_pad, a point, print_dec. */
    method PrintFixed(whole: u64, tenths: u64)
      requires Ready()
      modifies this`cursorX, this`cursorY, fb
      ensures Disp() == PrintSpec(old(Disp()), Table(), Geo(), FixedText(whole, tenths))
    {
      ghost var d, t, geo := Disp(), Table(), Geo();
      ghost var s1, s2 := NumPad(whole, 10, 3, ' '), Digits(tenths, 10);
      PrintNumPad(whole, 10, 3, ' ');
      PrintOneChar('.');
      PrintAppend(d, t, geo, s1, ['.']);
      PrintDec(tenths);
      PrintAppend(d, t, geo, s1 + ['.'], s2);
      NumPadUnpadded(tenths, 10, ' ');
      assert FixedText(whole, tenths) == s1 + ['.'] + s2;
      assert Table() == t && Geo() == geo;
    }

    /** The unit part of print_bytes: a space, the unit letter and 'B', one print_char each. */
    method PrintUnitSuffix(letter: Char8)
      requires Ready()
      modifies this`cursorX, this`cursorY, fb
      ensures Disp() == PrintSpec(old(Disp()), Table(), Geo(), UnitSuffix(letter))
    {
      ghost var d := Disp();
      PrintOneChar(' ');
      PrintOneChar(letter);
      PrintAppend(d, Table(), Geo(), [' '], [letter]);
      PrintOneChar('B');
      PrintAppend(d, Table(), Geo(), [' '] + [letter], ['B']);
      assert [' '] + [letter] + ['B'] == UnitSuffix(letter);
    }
  }
}
