/**
 * The glyph table and its two pure views: how a glyph is rasterized into a
 * screen cell (render_char), and what the legacy-font conversion
 * (font_load_classic) writes into the table.
 *
 * A glyph is 16 bytes, one per pixel row; bit x of a row byte is the pixel in
 * column x. The table holds 256 glyphs, 4096 bytes.
 */
module Glyphs {
  import opened Machine
  import opened Gfx
  import opened Arith

  const CHAR_WIDTH: nat := 8
  const CHAR_HEIGHT: nat := 16
  const GLYPH_COUNT: nat := 256
  const TABLE_SIZE: nat := 4096

  type GlyphTable = t: seq<bv8> | |t| == TABLE_SIZE witness seq(TABLE_SIZE, _ => 0)

  /** `1 << x` on a byte, written out as a table (BitMaskShift). */
  function BitMask(x: nat): bv8
    requires x < CHAR_WIDTH
  {
    if x == 0 then 0x01 else if x == 1 then 0x02 else if x == 2 then 0x04 else if x == 3 then 0x08
    else if x == 4 then 0x10 else if x == 5 then 0x20 else if x == 6 then 0x40 else 0x80
  }

  /** The table is the shift `1 << x`. */
  lemma BitMaskShift(x: nat)
    requires x < CHAR_WIDTH
    ensures BitMask(x) == (1 as bv8) << x
  {
  }

  /** Bit x of b is set: `b & (1 << x)`. */
  predicate Bit(b: bv8, x: nat)
    requires x < CHAR_WIDTH
  {
    b & BitMask(x) != 0
  }

  lemma BitOr(a: bv8, b: bv8, x: nat)
    requires x < CHAR_WIDTH
    ensures Bit(a | b, x) <==> Bit(a, x) || Bit(b, x)
  {}

  lemma BitOfMask(s: nat, x: nat)
    requires s < CHAR_WIDTH && x < CHAR_WIDTH
    ensures Bit(BitMask(s), x) <==> x == s
  {}

  lemma BitZero(x: nat)
    requires x < CHAR_WIDTH
    ensures !Bit(0, x)
  {}

  /** A byte none of whose eight bits is set is zero. */
  lemma NoBitsZero(b: bv8)
    requires forall x :: 0 <= x < CHAR_WIDTH ==> !Bit(b, x)
    ensures b == 0
  {
    assert !Bit(b, 0) && !Bit(b, 1) && !Bit(b, 2) && !Bit(b, 3);
    assert !Bit(b, 4) && !Bit(b, 5) && !Bit(b, 6) && !Bit(b, 7);
  }

  /** The 16 row bytes of glyph c: `font[c * 16 .. c * 16 + 16]`. */
  function Glyph(font: GlyphTable, c: u8): (g: seq<bv8>)
    ensures |g| == CHAR_HEIGHT
    ensures forall y :: 0 <= y < CHAR_HEIGHT ==> g[y] == font[c * CHAR_HEIGHT + y]
  {
    font[c * CHAR_HEIGHT .. c * CHAR_HEIGHT + CHAR_HEIGHT]
  }

  // ---------------------------------------------------------------------------
  // Rasterization (render_char)
  // ---------------------------------------------------------------------------

  /**
   * Column x of glyph g painted row by row for rows < yLim: each set bit
   * (x, y) fills the fs-by-fs block at (left + x * fs, top + y * fs) with the
   * foreground colour, in the order render_char issues the fills.
   */
  function PaintColumn(img: Image, g: seq<bv8>, left: nat, top: nat, fs: nat, x: nat, yLim: nat): (res: Image)
    requires |g| == CHAR_HEIGHT && x < CHAR_WIDTH && yLim <= CHAR_HEIGHT
    ensures |res| == |img| && forall r :: 0 <= r < |img| ==> |res[r]| == |img[r]|
    decreases yLim
  {
    if yLim == 0 then img
    else
      var prev := PaintColumn(img, g, left, top, fs, x, yLim - 1);
      if Bit(g[yLim - 1], x) then FillRect(prev, left + x * fs, top + (yLim - 1) * fs, fs, fs, FG) else prev
  }

  /** One more row of a column: the fill for bit (x, y) when it is set. */
  lemma PaintColumnStep(img: Image, g: seq<bv8>, left: nat, top: nat, fs: nat, x: nat, y: nat)
    requires |g| == CHAR_HEIGHT && x < CHAR_WIDTH && y < CHAR_HEIGHT
    ensures var prev := PaintColumn(img, g, left, top, fs, x, y);
      PaintColumn(img, g, left, top, fs, x, y + 1) ==
        if Bit(g[y], x) then FillRect(prev, left + x * fs, top + y * fs, fs, fs, FG) else prev
  {
  }

  /** Columns < xLim of glyph g painted, column after column. */
  function PaintGlyph(img: Image, g: seq<bv8>, left: nat, top: nat, fs: nat, xLim: nat): (res: Image)
    requires |g| == CHAR_HEIGHT && xLim <= CHAR_WIDTH
    ensures |res| == |img| && forall r :: 0 <= r < |img| ==> |res[r]| == |img[r]|
    decreases xLim
  {
    if xLim == 0 then img
    else PaintColumn(PaintGlyph(img, g, left, top, fs, xLim - 1), g, left, top, fs, xLim - 1, CHAR_HEIGHT)
  }

  /** One more column of a glyph: column x painted over the columns before it. */
  lemma PaintGlyphStep(img: Image, g: seq<bv8>, left: nat, top: nat, fs: nat, x: nat)
    requires |g| == CHAR_HEIGHT && x < CHAR_WIDTH
    ensures PaintGlyph(img, g, left, top, fs, x + 1) ==
      PaintColumn(PaintGlyph(img, g, left, top, fs, x), g, left, top, fs, x, CHAR_HEIGHT)
  {
  }

  /**
   * render_char with the cell's top-left pixel at (left, top) and scale fs:
   * the whole cell is cleared to the background, then the glyph is painted.
   */
  function RenderCell(img: Image, g: seq<bv8>, left: nat, top: nat, fs: nat): (res: Image)
    requires |g| == CHAR_HEIGHT
    ensures |res| == |img| && forall r :: 0 <= r < |img| ==> |res[r]| == |img[r]|
  {
    PaintGlyph(FillRect(img, left, top, CHAR_WIDTH * fs, CHAR_HEIGHT * fs, BG), g, left, top, fs, CHAR_WIDTH)
  }

  /** Pixel (r, c) is in the cell at (left, top) of scale fs. */
  predicate InCell(r: int, c: int, left: nat, top: nat, fs: nat)
  {
    InRect(r, c, left, top, CHAR_WIDTH * fs, CHAR_HEIGHT * fs)
  }

  /** The glyph pixel that screen pixel (r, c) of the cell shows is set. */
  predicate GlyphPixel(g: seq<bv8>, left: nat, top: nat, fs: nat, r: int, c: int)
    requires |g| == CHAR_HEIGHT && fs > 0
  {
    InCell(r, c, left, top, fs) && ScaledBit(g, fs, r - top, c - left)
  }

  /** Offset (dr, dc) into a cell of scale fs magnifies a set bit of glyph g. */
  predicate ScaledBit(g: seq<bv8>, fs: nat, dr: int, dc: int)
    requires |g| == CHAR_HEIGHT && fs > 0
  {
    DivCellBounds(dr, dc, fs) && Bit(g[dr / fs], dc / fs)
  }

  /** Inside the cell, the glyph coordinates lie in 0..7 x 0..15. */
  predicate DivCellBounds(dr: int, dc: int, fs: nat)
    requires fs > 0
  {
    0 <= dr && 0 <= dc && dr / fs < CHAR_HEIGHT && dc / fs < CHAR_WIDTH
  }

  lemma {:induction false} PaintColumnAt(img: Image, g: seq<bv8>, left: nat, top: nat, fs: nat, x: nat, yLim: nat, r: nat, c: nat)
    requires |g| == CHAR_HEIGHT && x < CHAR_WIDTH && yLim <= CHAR_HEIGHT && fs > 0
    requires r < |img| && c < |img[r]|
    ensures PaintColumn(img, g, left, top, fs, x, yLim)[r][c] ==
      if c >= left && (c - left) / fs == x && r >= top && (r - top) / fs < yLim && Bit(g[(r - top) / fs], x)
      then FG else img[r][c]
    decreases yLim
  {
    if yLim > 0 {
      var y := yLim - 1;
      PaintColumnAt(img, g, left, top, fs, x, y, r, c);
      DivBlock(c - left, fs, x);
      DivBlock(r - top, fs, y);
    }
  }

  lemma {:induction false} PaintGlyphAt(img: Image, g: seq<bv8>, left: nat, top: nat, fs: nat, xLim: nat, r: nat, c: nat)
    requires |g| == CHAR_HEIGHT && xLim <= CHAR_WIDTH && fs > 0
    requires r < |img| && c < |img[r]|
    ensures PaintGlyph(img, g, left, top, fs, xLim)[r][c] ==
      if c >= left && (c - left) / fs < xLim && ScaledBit(g, fs, r - top, c - left) then FG else img[r][c]
    decreases xLim
  {
    if xLim > 0 {
      var prev := PaintGlyph(img, g, left, top, fs, xLim - 1);
      PaintGlyphAt(img, g, left, top, fs, xLim - 1, r, c);
      PaintColumnAt(prev, g, left, top, fs, xLim - 1, CHAR_HEIGHT, r, c);
    }
  }

  /**
   * The raster law of render_char: a pixel of the cell is foreground exactly
   * when the glyph bit it magnifies, bit (c - left) / fs of row (r - top) / fs,
   * is set, and background otherwise; a pixel outside the cell is unchanged.
   */
  lemma RenderCellAt(img: Image, g: seq<bv8>, left: nat, top: nat, fs: nat, r: nat, c: nat)
    requires |g| == CHAR_HEIGHT && fs > 0
    requires r < |img| && c < |img[r]|
    ensures RenderCell(img, g, left, top, fs)[r][c] ==
      if InCell(r, c, left, top, fs) then (if GlyphPixel(g, left, top, fs, r, c) then FG else BG) else img[r][c]
  {
    var cleared := FillRect(img, left, top, CHAR_WIDTH * fs, CHAR_HEIGHT * fs, BG);
    PaintGlyphAt(cleared, g, left, top, fs, CHAR_WIDTH, r, c);
    if c >= left { DivBelow(c - left, fs, CHAR_WIDTH); }
    if r >= top { DivBelow(r - top, fs, CHAR_HEIGHT); }
  }

  /** Rendering the same glyph twice into the same cell is the same as rendering it once. */
  lemma RenderCellIdempotent(img: Image, g: seq<bv8>, left: nat, top: nat, fs: nat, width: nat)
    requires |g| == CHAR_HEIGHT && fs > 0 && IsImage(img, width, |img|)
    ensures RenderCell(RenderCell(img, g, left, top, fs), g, left, top, fs) == RenderCell(img, g, left, top, fs)
  {
    var once := RenderCell(img, g, left, top, fs);
    var twice := RenderCell(once, g, left, top, fs);
    forall r, c | 0 <= r < |img| && 0 <= c < width ensures twice[r][c] == once[r][c] {
      RenderCellAt(img, g, left, top, fs, r, c);
      RenderCellAt(once, g, left, top, fs, r, c);
    }
    ImageExt(twice, once, width, |img|);
  }

  // ---------------------------------------------------------------------------
  // Legacy-font conversion (font_load_classic)
  // ---------------------------------------------------------------------------

  /** The magnification of legacy glyphs. */
  const SCALE: nat := 2
  /** font_load_classic converts glyphs 0..254; glyph 255 stays empty. */
  const CLASSIC_GLYPHS: nat := 255

  /**
   * Legacy glyph dimensions cw x ch keep every magnified pixel inside the
   * 8 x 16 destination: the centring padding is then non-negative and the
   * last block ends inside the glyph.
   */
  predicate ClassicFits(cw: nat, ch: nat)
  {
    cw * SCALE <= CHAR_WIDTH && ch * SCALE <= CHAR_HEIGHT
  }

  function XPad(cw: nat): nat
    requires cw * SCALE <= CHAR_WIDTH
  {
    (CHAR_WIDTH - cw * SCALE) / 2
  }

  function YPad(ch: nat): nat
    requires ch * SCALE <= CHAR_HEIGHT
  {
    (CHAR_HEIGHT - ch * SCALE) / 2
  }

  /** A legacy glyph: cw * ch pixels, row-major. */
  predicate IsClassicGlyph(src: seq<bool>, cw: nat, ch: nat)
  {
    |src| == cw * ch
  }

  lemma ClassicIndex(cw: nat, ch: nat, xc: nat, yc: nat)
    requires xc < cw && yc < ch
    ensures yc * cw + xc < cw * ch
  {
    MulMono(yc + 1, ch, cw);
    MulSucc(yc, cw);
  }

  /** Source pixel (xc, yc) of a legacy glyph is set: `data[yc * cw + xc]`. */
  predicate SourcePixel(src: seq<bool>, cw: nat, ch: nat, xc: nat, yc: nat)
    requires IsClassicGlyph(src, cw, ch) && xc < cw && yc < ch
  {
    ClassicIndex(cw, ch, xc, yc);
    src[yc * cw + xc]
  }

  /**
   * What source pixel (xc, yc) paints into destination row y: the two bits
   * xc * 2 + xpad and xc * 2 + xpad + 1, when the pixel is set and y is one
   * of its two destination rows.
   */
  function BlockRow(src: seq<bool>, cw: nat, ch: nat, xc: nat, yc: nat, y: nat): bv8
    requires ClassicFits(cw, ch) && IsClassicGlyph(src, cw, ch) && xc < cw && yc < ch
  {
    var x0 := xc * SCALE + XPad(cw);
    if SourcePixel(src, cw, ch, xc, yc) && yc * SCALE + YPad(ch) <= y < yc * SCALE + YPad(ch) + SCALE
    then BitMask(x0) | BitMask(x0 + 1)
    else 0
  }

  /** Destination row y after source pixels (xc, 0..ycLim-1) of one column. */
  function ColumnRow(src: seq<bool>, cw: nat, ch: nat, xc: nat, ycLim: nat, y: nat): bv8
    requires ClassicFits(cw, ch) && IsClassicGlyph(src, cw, ch) && xc < cw && ycLim <= ch
  {
    if ycLim == 0 then 0 else ColumnRow(src, cw, ch, xc, ycLim - 1, y) | BlockRow(src, cw, ch, xc, ycLim - 1, y)
  }

  /** Destination row y after source columns 0..xcLim-1. */
  function ColumnsRow(src: seq<bool>, cw: nat, ch: nat, xcLim: nat, y: nat): bv8
    requires ClassicFits(cw, ch) && IsClassicGlyph(src, cw, ch) && xcLim <= cw
  {
    if xcLim == 0 then 0 else ColumnsRow(src, cw, ch, xcLim - 1, y) | ColumnRow(src, cw, ch, xcLim - 1, ch, y)
  }

  /** Destination row y of a converted glyph. */
  function ClassicRow(src: seq<bool>, cw: nat, ch: nat, y: nat): bv8
    requires ClassicFits(cw, ch) && IsClassicGlyph(src, cw, ch)
  {
    ColumnsRow(src, cw, ch, cw, y)
  }

  /** The whole converted table: glyphs 0..254 converted, glyph 255 zero. */
  function ClassicTable(cfont: seq<seq<bool>>, cw: nat, ch: nat): (t: GlyphTable)
    requires ClassicFits(cw, ch) && |cfont| >= CLASSIC_GLYPHS
    requires forall i :: 0 <= i < |cfont| ==> IsClassicGlyph(cfont[i], cw, ch)
  {
    seq(TABLE_SIZE, k requires 0 <= k < TABLE_SIZE =>
      if k / CHAR_HEIGHT < CLASSIC_GLYPHS then ClassicRow(cfont[k / CHAR_HEIGHT], cw, ch, k % CHAR_HEIGHT) else 0)
  }

  /**
   * Destination pixel (x, y) is covered by the 2 x 2 block of a set source
   * pixel; the only candidate is ((x - xpad) / 2, (y - ypad) / 2).
   */
  predicate Covered(src: seq<bool>, cw: nat, ch: nat, x: nat, y: nat)
    requires ClassicFits(cw, ch) && IsClassicGlyph(src, cw, ch)
  {
    x >= XPad(cw) && y >= YPad(ch) &&
    (x - XPad(cw)) / SCALE < cw && (y - YPad(ch)) / SCALE < ch &&
    SourcePixel(src, cw, ch, (x - XPad(cw)) / SCALE, (y - YPad(ch)) / SCALE)
  }

  lemma BlockRowBit(src: seq<bool>, cw: nat, ch: nat, xc: nat, yc: nat, x: nat, y: nat)
    requires ClassicFits(cw, ch) && IsClassicGlyph(src, cw, ch) && xc < cw && yc < ch && x < CHAR_WIDTH
    ensures Bit(BlockRow(src, cw, ch, xc, yc, y), x) <==>
      SourcePixel(src, cw, ch, xc, yc) &&
      xc * SCALE + XPad(cw) <= x < xc * SCALE + XPad(cw) + SCALE &&
      yc * SCALE + YPad(ch) <= y < yc * SCALE + YPad(ch) + SCALE
  {
    var x0 := xc * SCALE + XPad(cw);
    BitZero(x);
    BitOr(BitMask(x0), BitMask(x0 + 1), x);
    BitOfMask(x0, x);
    BitOfMask(x0 + 1, x);
  }

  lemma {:induction false} ColumnRowBit(src: seq<bool>, cw: nat, ch: nat, xc: nat, ycLim: nat, x: nat, y: nat)
    requires ClassicFits(cw, ch) && IsClassicGlyph(src, cw, ch) && xc < cw && ycLim <= ch && x < CHAR_WIDTH
    ensures Bit(ColumnRow(src, cw, ch, xc, ycLim, y), x) <==>
      x >= XPad(cw) && (x - XPad(cw)) / SCALE == xc &&
      y >= YPad(ch) && (y - YPad(ch)) / SCALE < ycLim &&
      SourcePixel(src, cw, ch, xc, (y - YPad(ch)) / SCALE)
    decreases ycLim
  {
    if ycLim == 0 {
      BitZero(x);
    } else {
      var yc := ycLim - 1;
      ColumnRowBit(src, cw, ch, xc, yc, x, y);
      BitOr(ColumnRow(src, cw, ch, xc, yc, y), BlockRow(src, cw, ch, xc, yc, y), x);
      BlockRowBit(src, cw, ch, xc, yc, x, y);
      var xpad, ypad := XPad(cw), YPad(ch);
      var inBlock := xc * SCALE + xpad <= x < xc * SCALE + xpad + SCALE &&
        yc * SCALE + ypad <= y < yc * SCALE + ypad + SCALE;
      if x >= xpad {
        DivBlock(x - xpad, SCALE, xc);
      }
      if y >= ypad {
        DivBlock(y - ypad, SCALE, yc);
      }
      if inBlock {
        assert (x - xpad) / SCALE == xc && (y - ypad) / SCALE == yc;
        assert !Bit(ColumnRow(src, cw, ch, xc, yc, y), x);
      } else {
        assert !Bit(BlockRow(src, cw, ch, xc, yc, y), x);
      }
    }
  }

  lemma {:induction false} ColumnsRowBit(src: seq<bool>, cw: nat, ch: nat, xcLim: nat, x: nat, y: nat)
    requires ClassicFits(cw, ch) && IsClassicGlyph(src, cw, ch) && xcLim <= cw && x < CHAR_WIDTH
    ensures Bit(ColumnsRow(src, cw, ch, xcLim, y), x) <==>
      x >= XPad(cw) && (x - XPad(cw)) / SCALE < xcLim &&
      y >= YPad(ch) && (y - YPad(ch)) / SCALE < ch &&
      SourcePixel(src, cw, ch, (x - XPad(cw)) / SCALE, (y - YPad(ch)) / SCALE)
    decreases xcLim
  {
    if xcLim == 0 {
      BitZero(x);
    } else {
      ColumnsRowBit(src, cw, ch, xcLim - 1, x, y);
      BitOr(ColumnsRow(src, cw, ch, xcLim - 1, y), ColumnRow(src, cw, ch, xcLim - 1, ch, y), x);
      ColumnRowBit(src, cw, ch, xcLim - 1, ch, x, y);
    }
  }

  /**
   * The conversion law: a destination bit (x, y) of a converted glyph is set
   * exactly when it lies in the 2 x 2 block at (xc * 2 + xpad, yc * 2 + ypad)
   * of some set source pixel (xc, yc).
   */
  lemma ClassicRowBit(src: seq<bool>, cw: nat, ch: nat, x: nat, y: nat)
    requires ClassicFits(cw, ch) && IsClassicGlyph(src, cw, ch) && x < CHAR_WIDTH
    ensures Bit(ClassicRow(src, cw, ch, y), x) <==> Covered(src, cw, ch, x, y)
    ensures Bit(ClassicRow(src, cw, ch, y), x) <==>
      exists xc, yc :: 0 <= xc < cw && 0 <= yc < ch && SourcePixel(src, cw, ch, xc, yc) &&
        xc * SCALE + XPad(cw) <= x < xc * SCALE + XPad(cw) + SCALE &&
        yc * SCALE + YPad(ch) <= y < yc * SCALE + YPad(ch) + SCALE
  {
    ColumnsRowBit(src, cw, ch, cw, x, y);
    if Covered(src, cw, ch, x, y) {
      var xc, yc := (x - XPad(cw)) / SCALE, (y - YPad(ch)) / SCALE;
      assert SourcePixel(src, cw, ch, xc, yc);
    }
  }

  /**
   * The converted table, glyph by glyph: bit (x, y) of glyph c is set exactly
   * when c is one of the 255 converted glyphs and (x, y) is covered by a set
   * pixel of its legacy glyph. In particular glyph 255 is empty.
   */
  lemma ClassicTableBit(cfont: seq<seq<bool>>, cw: nat, ch: nat, c: u8, x: nat, y: nat)
    requires ClassicFits(cw, ch) && |cfont| >= CLASSIC_GLYPHS
    requires forall i :: 0 <= i < |cfont| ==> IsClassicGlyph(cfont[i], cw, ch)
    requires x < CHAR_WIDTH && y < CHAR_HEIGHT
    ensures Bit(Glyph(ClassicTable(cfont, cw, ch), c)[y], x) <==> c < CLASSIC_GLYPHS && Covered(cfont[c], cw, ch, x, y)
  {
    var k := c * CHAR_HEIGHT + y;
    DivModUnique(k, CHAR_HEIGHT, c, y);
    if c < CLASSIC_GLYPHS {
      ClassicRowBit(cfont[c], cw, ch, x, y);
    } else {
      BitZero(x);
    }
  }

  /** A destination row that no set source pixel reaches is zero. */
  lemma ClassicRowUnreached(src: seq<bool>, cw: nat, ch: nat, y: nat)
    requires ClassicFits(cw, ch) && IsClassicGlyph(src, cw, ch)
    requires forall x :: 0 <= x < CHAR_WIDTH ==> !Covered(src, cw, ch, x, y)
    ensures ClassicRow(src, cw, ch, y) == 0
  {
    forall x | 0 <= x < CHAR_WIDTH ensures !Bit(ClassicRow(src, cw, ch, y), x) {
      ClassicRowBit(src, cw, ch, x, y);
    }
    NoBitsZero(ClassicRow(src, cw, ch, y));
  }

  // ---------------------------------------------------------------------------
  // The 2 x 2 block font_load_classic writes for one set source pixel
  // ---------------------------------------------------------------------------

  /** Bits x0 .. x0 + n - 1 of a byte. */
  function RunMask(x0: nat, n: nat): bv8
    requires x0 + n <= CHAR_WIDTH
  {
    if n == 0 then 0 else RunMask(x0, n - 1) | BitMask(x0 + n - 1)
  }

  /** What rows y0 .. y0 + h - 1 of a glyph carry in bits x0 .. x0 + n - 1; other rows carry nothing. */
  function Band(x0: nat, n: nat, y0: nat, h: nat, y: nat): bv8
    requires x0 + n <= CHAR_WIDTH
  {
    if y0 <= y < y0 + h then RunMask(x0, n) else 0
  }

  /** One more row of the block's column x0 + xf: the `|= 1 << x` on row y0 + yf. */
  lemma BandRowStep(x0: nat, xf: nat, y0: nat, yf: nat, y: nat)
    requires x0 + xf < CHAR_WIDTH
    ensures Band(x0 + xf, 1, y0, yf + 1, y) ==
      Band(x0 + xf, 1, y0, yf, y) | (if y == y0 + yf then BitMask(x0 + xf) else 0)
  {
    assert RunMask(x0 + xf, 1) == BitMask(x0 + xf);
  }

  /** Row y of the glyph after one `|= 1 << x` of font_load_classic's innermost loop on row y0 + yf. */
  lemma BandRowUpdate(orig: bv8, prev: bv8, next: bv8, x: nat, y0: nat, yf: nat, y: nat)
    requires x < CHAR_WIDTH
    requires prev == orig | Band(x, 1, y0, yf, y)
    requires next == if y == y0 + yf then prev | BitMask(x) else prev
    ensures next == orig | Band(x, 1, y0, yf + 1, y)
  {
    BandRowStep(x, 0, y0, yf, y);
    var m := if y == y0 + yf then BitMask(x) else 0;
    OrAssoc(orig, Band(x, 1, y0, yf, y), m);
    OrZero(prev);
  }

  lemma OrAssoc(a: bv8, b: bv8, c: bv8)
    ensures a | (b | c) == (a | b) | c
  {
  }

  lemma OrZero(a: bv8)
    ensures a | 0 == a
  {
  }

  /** A finished column of the block widens the band by one bit. */
  lemma BandColumnStep(a: bv8, x0: nat, xf: nat, y0: nat, y: nat)
    requires x0 + xf < CHAR_WIDTH
    ensures a | Band(x0, xf, y0, SCALE, y) | Band(x0 + xf, 1, y0, SCALE, y) == a | Band(x0, xf + 1, y0, SCALE, y)
  {
    assert RunMask(x0 + xf, 1) == BitMask(x0 + xf);
  }

  /** A clear source pixel paints nothing. */
  lemma BlockRowUnset(a: bv8, src: seq<bool>, cw: nat, ch: nat, xc: nat, yc: nat, y: nat)
    requires ClassicFits(cw, ch) && IsClassicGlyph(src, cw, ch) && xc < cw && yc < ch
    requires !SourcePixel(src, cw, ch, xc, yc)
    ensures a | BlockRow(src, cw, ch, xc, yc, y) == a
  {
    OrZero(a);
  }

  /** The finished block of a set source pixel is what BlockRow says it paints. */
  lemma BlockRowBand(src: seq<bool>, cw: nat, ch: nat, xc: nat, yc: nat, y: nat)
    requires ClassicFits(cw, ch) && IsClassicGlyph(src, cw, ch) && xc < cw && yc < ch
    ensures xc * SCALE + XPad(cw) + SCALE <= CHAR_WIDTH
    ensures yc * SCALE + YPad(ch) + SCALE <= CHAR_HEIGHT
    ensures BlockRow(src, cw, ch, xc, yc, y) ==
      if SourcePixel(src, cw, ch, xc, yc)
      then Band(xc * SCALE + XPad(cw), SCALE, yc * SCALE + YPad(ch), SCALE, y)
      else 0
  {
    MulMono(xc + 1, cw, SCALE);
    MulMono(yc + 1, ch, SCALE);
    var x0 := xc * SCALE + XPad(cw);
    assert RunMask(x0, SCALE) == BitMask(x0) | BitMask(x0 + 1) by {
      assert RunMask(x0, 1) == BitMask(x0);
    }
  }
}
