/**
 * The console's character state machine as pure functions: what one
 * character does to the cursor and the screen image (print_char with its
 * final update_cursor), and what a string does (print).
 */
module Terminal {
  import opened Machine
  import opened Gfx
  import opened Glyphs
  import opened Arith

  /** TAB_SIZE must be a power of two: the tab stop is computed with a bit mask. */
  const TAB_SIZE: nat := 4
  const TAB_SHIFT: nat := 2

  const SPACE: u8 := 32
  const BELL: Char8 := 7 as char
  const BACKSPACE: Char8 := 8 as char
  const VTAB: Char8 := 11 as char
  const FORMFEED: Char8 := 12 as char

  /** `v & ~(2^k - 1)` for a non-negative v: v with its k lowest bits cleared. */
  function ClearLowBits(v: nat, k: nat): nat
  {
    if k == 0 then v else 2 * ClearLowBits(v / 2, k - 1)
  }

  lemma {:induction false} ClearLowBitsMod(v: nat, k: nat)
    ensures ClearLowBits(v, k) == v - v % Pow2(k)
  {
    if k > 0 {
      var p := Pow2(k - 1);
      ClearLowBitsMod(v / 2, k - 1);
      DivModDouble(v, p);
    }
  }

  /**
   * The column after a tab: `(x + TAB_SIZE) & ~(TAB_SIZE - 1)`, stored back
   * into the 16-bit cursor.
   */
  function TabStop(x: u16): (r: u16)
    ensures r % TAB_SIZE == 0
    ensures x + TAB_SIZE < 0x1_0000 ==> x < r <= x + TAB_SIZE
    ensures x + TAB_SIZE >= 0x1_0000 ==> r == 0
  {
    var v := x + TAB_SIZE;
    ClearLowBitsMod(v, TAB_SHIFT);
    assert Pow2(TAB_SHIFT) == TAB_SIZE;
    assert ClearLowBits(v, TAB_SHIFT) == v - v % TAB_SIZE;
    assert v >= 0x1_0000 ==> v - v % TAB_SIZE == 0x1_0000;
    ToU16(ClearLowBits(v, TAB_SHIFT))
  }

  /** The tab stops of 5, 4 and 0, and of a column so large that the 16-bit result wraps. */
  lemma TabStopExamples()
    ensures TabStop(5) == 8 && TabStop(4) == 8 && TabStop(0) == 4 && TabStop(0xFFFD) == 0
  {
  }

  /**
   * Screen geometry: scale, cell size in pixels, grid size in cells and the
   * frame-buffer size in pixels.
   */
  datatype Geometry = Geometry(fontSize: nat, outerWidth: nat, outerHeight: nat,
                               cols: nat, rows: nat, width: nat, height: nat)

  /**
   * The geometry font_set_size computes from a scale, for a frame buffer
   * whose grid is at least one cell in each direction.
   */
  predicate GeometryOk(g: Geometry)
  {
    g.fontSize > 0 &&
    g.outerWidth == CHAR_WIDTH * g.fontSize && g.outerHeight == CHAR_HEIGHT * g.fontSize &&
    g.cols == g.width / g.outerWidth && g.rows == g.height / g.outerHeight &&
    g.cols > 0 && g.rows > 0 && g.width < 0x1_0000 && g.height < 0x1_0000
  }

  /** The geometry font_set_size computes for scale size on a width x height screen. */
  function SizeGeometry(size: nat, width: nat, height: nat): Geometry
    requires size > 0
  {
    DivLe(width, CHAR_WIDTH * size);
    DivLe(height, CHAR_HEIGHT * size);
    Geometry(size, CHAR_WIDTH * size, CHAR_HEIGHT * size,
             width / (CHAR_WIDTH * size), height / (CHAR_HEIGHT * size), width, height)
  }

  /**
   * The grid is at most the screen size in pixels, and it is non-empty
   * (the geometry is usable) exactly when one cell fits in each direction.
   */
  lemma SizeGeometryOk(size: nat, width: nat, height: nat)
    requires size > 0 && width < 0x1_0000 && height < 0x1_0000
    ensures var g := SizeGeometry(size, width, height);
      g.cols <= width && g.rows <= height &&
      (GeometryOk(g) <==> CHAR_WIDTH * size <= width && CHAR_HEIGHT * size <= height)
  {
    var ow, oh := CHAR_WIDTH * size, CHAR_HEIGHT * size;
    DivLe(width, ow);
    DivLe(height, oh);
    DivBelow(width, ow, 1);
    DivBelow(height, oh, 1);
  }

  /** The grid fits the frame buffer, so cursor arithmetic never wraps on it. */
  lemma GeometryBounds(g: Geometry)
    requires GeometryOk(g)
    ensures g.outerHeight <= g.height && g.outerWidth <= g.width
    ensures g.cols * g.outerWidth <= g.width && g.rows * g.outerHeight <= g.height
    ensures g.cols < 0x1_0000 / CHAR_WIDTH && g.rows < 0x1_0000 / CHAR_HEIGHT
  {
    DivPos(g.height, g.outerHeight);
    DivPos(g.width, g.outerWidth);
    DivBlock(g.width, g.outerWidth, g.cols);
    DivBlock(g.height, g.outerHeight, g.rows);
    MulMono(CHAR_WIDTH, g.outerWidth, g.cols);
    MulMono(CHAR_HEIGHT, g.outerHeight, g.rows);
  }

  /** A `term_pos`: a cell position (the cursor) or a grid size in cells. */
  datatype Pos = Pos(x: u16, y: u16)

  /** The screen image with the cursor. */
  datatype Display = Display(img: Image, cur: Pos)

  /** The cursor is inside the grid. */
  predicate Normal(p: Pos, g: Geometry)
  {
    p.x < g.cols && p.y < g.rows
  }

  /** The effect of print_char's switch on the cursor, before normalization. */
  function AdvanceCursor(p: Pos, c: Char8): Pos
  {
    if c == '\n' then Pos(0, ToU16(p.y + 1))
    else if c == '\t' then Pos(TabStop(p.x), p.y)
    else if c == BACKSPACE then (if p.x > 0 then Pos(p.x - 1, p.y) else p)
    else if c == '\r' then Pos(0, p.y)
    else if c == VTAB || c == BELL then p
    else if c == FORMFEED then Pos(0, 0)
    else Pos(ToU16(p.x + 1), p.y)
  }

  /**
   * The first loop of update_cursor: every whole screen width the column is
   * past the edge becomes one more row (the row counter is 16 bits wide).
   */
  function Wrap(p: Pos, g: Geometry): Pos
    requires GeometryOk(g)
  {
    GeometryBounds(g);
    Pos(p.x % g.cols, ToU16(p.y + p.x / g.cols))
  }

  /** Without 16-bit overflow, wrapping moves x / cols rows down. */
  lemma WrapExact(p: Pos, g: Geometry)
    requires GeometryOk(g) && p.y + p.x / g.cols < 0x1_0000
    ensures Wrap(p, g) == Pos(p.x % g.cols, p.y + p.x / g.cols)
  {
  }

  /** How many times the second loop of update_cursor scrolls for row y. */
  function ScrollCount(y: nat, rows: nat): nat
  {
    if y >= rows then y - rows + 1 else 0
  }

  function Min(a: int, b: int): int
  {
    if a <= b then a else b
  }

  /**
   * The cursor after update_cursor's two loops: the wrapped column, and the
   * wrapped row held on the last row by scrolling. It is always inside the
   * grid, whatever the cursor was before.
   */
  function NormalizeCursor(p: Pos, g: Geometry): (q: Pos)
    requires GeometryOk(g)
    ensures Normal(q, g)
    ensures q.x == p.x % g.cols
    ensures q.y == Min(ToU16(p.y + p.x / g.cols), g.rows - 1)
  {
    var w := Wrap(p, g);
    Pos(w.x, w.y - ScrollCount(w.y, g.rows))
  }

  /** The cursor after print_char(c): inside the grid, whatever it was before. */
  function CursorStep(p: Pos, g: Geometry, c: Char8): (q: Pos)
    requires GeometryOk(g)
    ensures Normal(q, g)
  {
    NormalizeCursor(AdvanceCursor(p, c), g)
  }

  /** The cursor after print(s): inside the grid once a character has been printed. */
  function PrintCursor(p: Pos, g: Geometry, s: seq<Char8>): (q: Pos)
    requires GeometryOk(g)
    ensures |s| > 0 || Normal(p, g) ==> Normal(q, g)
    decreases |s|
  {
    if |s| == 0 then p else CursorStep(PrintCursor(p, g, s[..|s| - 1]), g, s[|s| - 1])
  }

  /**
   * render_char(c) at the cursor: the cell's corner is the cursor times the
   * cell size, truncated to 16 bits as `u16 base_x` is.
   */
  function RenderAt(d: Display, font: GlyphTable, g: Geometry, c: u8): (img: Image)
    requires GeometryOk(g)
    ensures |img| == |d.img|
  {
    RenderCell(d.img, Glyph(font, c), ToU16(d.cur.x * g.outerWidth), ToU16(d.cur.y * g.outerHeight), g.fontSize)
  }

  /** The effect of print_char's switch on the screen. */
  function AdvanceImage(d: Display, font: GlyphTable, g: Geometry, c: Char8): (img: Image)
    requires GeometryOk(g)
    ensures |img| == |d.img|
  {
    if c == '\n' || c == '\t' || c == '\r' then RenderAt(d, font, g, SPACE)
    else if c == BACKSPACE then (if d.cur.x > 0 then RenderAt(d, font, g, SPACE) else d.img)
    else if c == VTAB || c == BELL then d.img
    else if c == FORMFEED then FillRect(d.img, 0, 0, g.width, g.height, BG)
    else RenderAt(d, font, g, c as int)
  }

  /** print_char's switch. */
  function Advance(d: Display, font: GlyphTable, g: Geometry, c: Char8): (e: Display)
    requires GeometryOk(g)
    ensures |e.img| == |d.img|
  {
    Display(AdvanceImage(d, font, g, c), AdvanceCursor(d.cur, c))
  }

  /**
   * update_cursor: normalize the cursor, scroll one cell row for every row
   * past the bottom, then paint the caret block over the cursor cell.
   */
  function Update(d: Display, g: Geometry): (e: Display)
    requires GeometryOk(g) && |d.img| == g.height
    ensures |e.img| == |d.img|
    ensures e.cur == NormalizeCursor(d.cur, g)
  {
    GeometryBounds(g);
    var w := Wrap(d.cur, g);
    var s := ScrollCount(w.y, g.rows);
    var q := NormalizeCursor(d.cur, g);
    var img := Scrolls(d.img, g.width, g.outerHeight, s);
    MulNonneg(q.x, g.outerWidth);
    MulNonneg(q.y, g.outerHeight);
    Display(FillRect(img, q.x * g.outerWidth, q.y * g.outerHeight, g.outerWidth, g.outerHeight, FG), q)
  }

  /** print_char(c). */
  function PrintCharSpec(d: Display, font: GlyphTable, g: Geometry, c: Char8): (e: Display)
    requires GeometryOk(g) && |d.img| == g.height
    ensures |e.img| == |d.img|
    ensures e.cur == CursorStep(d.cur, g, c)
  {
    Update(Advance(d, font, g, c), g)
  }

  /** print(s): print_char applied to each character in order. */
  function PrintSpec(d: Display, font: GlyphTable, g: Geometry, s: seq<Char8>): (e: Display)
    requires GeometryOk(g) && |d.img| == g.height
    ensures |e.img| == |d.img|
    ensures e.cur == PrintCursor(d.cur, g, s)
    decreases |s|
  {
    if |s| == 0 then d
    else PrintCharSpec(PrintSpec(d, font, g, s[..|s| - 1]), font, g, s[|s| - 1])
  }

  // ---------------------------------------------------------------------------
  // Properties
  // ---------------------------------------------------------------------------

  /**
   * The pixel (r, c) of the screen after update_cursor, pixel by pixel: the
   * caret cell is foreground; every other pixel shows the pixel s *
   * outerHeight rows below it before the s scroll steps, or background where
   * the scrolling exposed the bottom.
   */
  function UpdatedPixel(d: Display, g: Geometry, r: nat, c: nat): u32
    requires GeometryOk(g) && IsImage(d.img, g.width, g.height)
    requires r < g.height && c < g.width
  {
    var q := NormalizeCursor(d.cur, g);
    var s := ScrollCount(Wrap(d.cur, g).y, g.rows);
    MulNonneg(s, g.outerHeight);
    var below := r + s * g.outerHeight;
    if InRect(r, c, q.x * g.outerWidth, q.y * g.outerHeight, g.outerWidth, g.outerHeight) then FG
    else if below < g.height then d.img[below][c]
    else BG
  }

  /** update_cursor's screen agrees with UpdatedPixel everywhere. */
  lemma UpdateImageAt(d: Display, g: Geometry, r: nat, c: nat)
    requires GeometryOk(g) && IsImage(d.img, g.width, g.height)
    requires r < g.height && c < g.width
    ensures IsImage(Update(d, g).img, g.width, g.height)
    ensures Update(d, g).img[r][c] == UpdatedPixel(d, g, r, c)
  {
    GeometryBounds(g);
    var s := ScrollCount(Wrap(d.cur, g).y, g.rows);
    ScrollsShape(d.img, g.width, g.outerHeight, s);
    ScrollsAt(d.img, g.width, g.outerHeight, s, r, c);
    ShiftedIsProduct(s, g.outerHeight);
  }

  /** Printing s then t is printing s + t. */
  lemma {:induction false} PrintAppend(d: Display, font: GlyphTable, g: Geometry, s: seq<Char8>, t: seq<Char8>)
    requires GeometryOk(g) && |d.img| == g.height
    ensures PrintSpec(d, font, g, s + t) == PrintSpec(PrintSpec(d, font, g, s), font, g, t)
    decreases |t|
  {
    if |t| == 0 {
      assert s + t == s;
    } else {
      var t', c := t[..|t| - 1], t[|t| - 1];
      PrintAppend(d, font, g, s, t');
      SplitLast(s, t);
      PrintSnoc(d, font, g, s + t', c);
      PrintSnoc(PrintSpec(d, font, g, s), font, g, t', c);
    }
  }

  /** A nonempty t is its front followed by its last element, also after a prefix s. */
  lemma SplitLast(s: seq<Char8>, t: seq<Char8>)
    requires |t| > 0
    ensures t == t[..|t| - 1] + [t[|t| - 1]]
    ensures s + t == (s + t[..|t| - 1]) + [t[|t| - 1]]
  {
  }

  /** Printing one more character is one more print_char. */
  lemma PrintSnoc(d: Display, font: GlyphTable, g: Geometry, s: seq<Char8>, c: Char8)
    requires GeometryOk(g) && |d.img| == g.height
    ensures PrintSpec(d, font, g, s + [c]) == PrintCharSpec(PrintSpec(d, font, g, s), font, g, c)
  {
    assert (s + [c])[..|s|] == s;
  }

  /** Printing the first i + 1 characters is printing the first i, then print_char of the next. */
  lemma PrintPrefix(d: Display, font: GlyphTable, g: Geometry, s: seq<Char8>, i: nat)
    requires GeometryOk(g) && |d.img| == g.height && i < |s|
    ensures PrintSpec(d, font, g, s[..i + 1]) == PrintCharSpec(PrintSpec(d, font, g, s[..i]), font, g, s[i])
  {
    PrefixSnoc(s, i);
    PrintSnoc(d, font, g, s[..i], s[i]);
  }

  /** The first i + 1 elements are the first i followed by element i. */
  lemma PrefixSnoc(s: seq<Char8>, i: nat)
    requires i < |s|
    ensures s[..i + 1] == s[..i] + [s[i]]
  {
  }

  /** The prefix of full length is the whole sequence. */
  lemma WholePrefix(s: seq<Char8>)
    ensures s[..|s|] == s
  {
  }

  /** Printing a one-character string is print_char. */
  lemma PrintOne(d: Display, font: GlyphTable, g: Geometry, c: Char8)
    requires GeometryOk(g) && |d.img| == g.height
    ensures PrintSpec(d, font, g, [c]) == PrintCharSpec(d, font, g, c)
  {
    assert [c][..0] == [];
  }

  /** A character print_char treats as a control character. */
  predicate IsControl(c: Char8)
  {
    c == '\n' || c == '\t' || c == BACKSPACE || c == '\r' || c == VTAB || c == BELL || c == FORMFEED
  }

  // The cursor after one character, from a cursor inside the grid.

  /** A newline moves to the start of the next row, or stays on the last row (the screen scrolls). */
  lemma StepNewline(p: Pos, g: Geometry)
    requires GeometryOk(g) && Normal(p, g)
    ensures var q := CursorStep(p, g, '\n');
      q.x == 0 && q.y == Min(p.y + 1, g.rows - 1)
  {
    GeometryBounds(g);
    DivModSmall(0, g.cols);
  }

  /** A tab moves to the next tab stop, wrapping into the next row past the right edge. */
  lemma StepTab(p: Pos, g: Geometry)
    requires GeometryOk(g) && Normal(p, g)
    ensures var q := CursorStep(p, g, '\t'); var t := TabStop(p.x);
      q.x == t % g.cols && q.y == Min(p.y + t / g.cols, g.rows - 1)
  {
    GeometryBounds(g);
    var t := TabStop(p.x);
    assert t <= p.x + TAB_SIZE;
    var a := AdvanceCursor(p, '\t');
    assert a == Pos(t, p.y);
    DivLe(t, g.cols);
    WrapExact(a, g);
  }

  /** Backspace moves one column back, except at column 0. */
  lemma StepBackspace(p: Pos, g: Geometry)
    requires GeometryOk(g) && Normal(p, g)
    ensures var q := CursorStep(p, g, BACKSPACE);
      q.x == (if p.x > 0 then p.x - 1 else 0) && q.y == p.y
  {
    GeometryBounds(g);
    var x := if p.x > 0 then p.x - 1 else 0;
    DivModSmall(x, g.cols);
  }

  /** A carriage return moves to column 0 of the same row. */
  lemma StepReturn(p: Pos, g: Geometry)
    requires GeometryOk(g) && Normal(p, g)
    ensures var q := CursorStep(p, g, '\r');
      q.x == 0 && q.y == p.y
  {
    GeometryBounds(g);
    DivModSmall(0, g.cols);
  }

  /** Vertical tab and bell leave the cursor where it is. */
  lemma StepStill(p: Pos, g: Geometry, c: Char8)
    requires GeometryOk(g) && Normal(p, g)
    requires c == VTAB || c == BELL
    ensures CursorStep(p, g, c) == p
  {
    GeometryBounds(g);
    DivModSmall(p.x, g.cols);
  }

  /** A form feed homes the cursor. */
  lemma StepFormFeed(p: Pos, g: Geometry)
    requires GeometryOk(g)
    ensures CursorStep(p, g, FORMFEED) == Pos(0, 0)
  {
    GeometryBounds(g);
    DivModSmall(0, g.cols);
  }

  /** Any other character moves one column on, wrapping into the next row at the right edge. */
  lemma StepPlain(p: Pos, g: Geometry, c: Char8)
    requires GeometryOk(g) && Normal(p, g) && !IsControl(c)
    ensures var q := CursorStep(p, g, c);
      q.x == (p.x + 1) % g.cols && q.y == Min(p.y + (p.x + 1) / g.cols, g.rows - 1)
  {
    GeometryBounds(g);
    var a := AdvanceCursor(p, c);
    assert a == Pos(p.x + 1, p.y);
    DivModSmall(p.x, g.cols);
    DivModSucc(p.x, g.cols);
    var k := (p.x + 1) / g.cols;
    assert k <= 1;
    assert Wrap(a, g) == Pos((p.x + 1) % g.cols, p.y + k);
  }

  /**
   * Form feed clears the screen and homes the cursor: afterwards every pixel
   * is background except the caret at cell (0, 0).
   */
  lemma FormFeedClears(d: Display, font: GlyphTable, g: Geometry, r: nat, c: nat)
    requires GeometryOk(g) && IsImage(d.img, g.width, g.height)
    requires r < g.height && c < g.width
    ensures var e := PrintCharSpec(d, font, g, FORMFEED);
      e.cur == Pos(0, 0) &&
      e.img[r][c] == if r < g.outerHeight && c < g.outerWidth then FG else BG
  {
    GeometryBounds(g);
    var a := Advance(d, font, g, FORMFEED);
    assert IsImage(a.img, g.width, g.height);
    DivModSmall(0, g.cols);
    assert a.cur == Pos(0, 0);
    assert ScrollCount(Wrap(a.cur, g).y, g.rows) == 0;
    UpdateImageAt(a, g, r, c);
  }

  /**
   * Printing L ordinary characters from a cursor (x0, y0) inside the grid
   * leaves the cursor at column (x0 + L) mod W and row
   * y0 + (x0 + L) / W, held on the last row by scrolling.
   */
  lemma {:induction false} PrintPlainCursor(p: Pos, g: Geometry, s: seq<Char8>)
    requires GeometryOk(g) && Normal(p, g)
    requires forall i :: 0 <= i < |s| ==> !IsControl(s[i])
    ensures var q := PrintCursor(p, g, s);
      q.x == (p.x + |s|) % g.cols && q.y == Min(p.y + (p.x + |s|) / g.cols, g.rows - 1)
    decreases |s|
  {
    if |s| == 0 {
      DivModSmall(p.x, g.cols);
    } else {
      var s' := s[..|s| - 1];
      PrintPlainCursor(p, g, s');
      var q := PrintCursor(p, g, s');
      assert Normal(q, g) by { if |s'| == 0 { assert q == p; } }
      StepPlain(q, g, s[|s| - 1]);
      var n := p.x + |s'|;
      assert q.x == n % g.cols;
      DivModSucc(n, g.cols);
      DivModSmall(n % g.cols, g.cols);
      DivModSucc(n % g.cols, g.cols);
      assert n + 1 == p.x + |s|;
    }
  }
}
