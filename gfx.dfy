/**
 * The graphics interface the console draws through: a frame buffer of 32-bit
 * ARGB pixels, the rectangle fill `gfx_set_area`, and the bulk copy that moves
 * pixel rows up when the console scrolls.
 *
 * The frame buffer is an `array2<u32>` indexed [row, column]; its abstract
 * value is an `Image`, a sequence of pixel rows.
 */
module Gfx {
  import opened Machine

  /** Background colour (opaque black). */
  const BG: u32 := 0xFF00_0000
  /** Foreground colour (opaque white). */
  const FG: u32 := 0xFFFF_FFFF

  type Image = seq<seq<u32>>

  /** img has `height` rows of `width` pixels each. */
  ghost predicate IsImage(img: Image, width: nat, height: nat)
  {
    |img| == height && forall r :: 0 <= r < height ==> |img[r]| == width
  }

  /** The contents of the frame buffer as an image. */
  ghost function Pixels(fb: array2<u32>): (img: Image)
    reads fb
    ensures IsImage(img, fb.Length1, fb.Length0)
    ensures forall r, c :: 0 <= r < fb.Length0 && 0 <= c < fb.Length1 ==> img[r][c] == fb[r, c]
  {
    PixelRows(fb, fb.Length0)
  }

  /** The first n rows of the frame buffer. */
  ghost function PixelRows(fb: array2<u32>, n: nat): (rows: Image)
    requires n <= fb.Length0
    reads fb
    ensures IsImage(rows, fb.Length1, n)
    ensures forall r, c :: 0 <= r < n && 0 <= c < fb.Length1 ==> rows[r][c] == fb[r, c]
    decreases n
  {
    if n == 0 then []
    else PixelRows(fb, n - 1) + [seq(fb.Length1, c requires 0 <= c < fb.Length1 reads fb => fb[n - 1, c])]
  }

  /** Two images of the same shape that agree on every pixel are equal. */
  lemma ImageExt(a: Image, b: Image, width: nat, height: nat)
    requires IsImage(a, width, height) && IsImage(b, width, height)
    requires forall r, c :: 0 <= r < height && 0 <= c < width ==> a[r][c] == b[r][c]
    ensures a == b
  {
    forall r | 0 <= r < height ensures a[r] == b[r] {
      assert |a[r]| == |b[r]| == width;
    }
  }

  /** Pixel (r, c) lies in the rectangle with corner (x, y), width w, height h. */
  predicate InRect(r: int, c: int, x: int, y: int, w: int, h: int)
  {
    x <= c < x + w && y <= r < y + h
  }

  /**
   * The image after filling a rectangle. Only pixels that exist change: a
   * rectangle reaching past the edge is clipped.
   */
  function FillRect(img: Image, x: nat, y: nat, w: nat, h: nat, col: u32): (res: Image)
    ensures |res| == |img|
    ensures forall r :: 0 <= r < |img| ==> |res[r]| == |img[r]|
  {
    seq(|img|, r requires 0 <= r < |img| =>
      seq(|img[r]|, c requires 0 <= c < |img[r]| =>
        if InRect(r, c, x, y, w, h) then col else img[r][c]))
  }

  /**
   * gfx_set_area(x, y, w, h, col): every pixel of the frame buffer inside the
   * rectangle becomes col, every other pixel keeps its value.
   */
  method SetArea(fb: array2<u32>, x: nat, y: nat, w: nat, h: nat, col: u32)
    modifies fb
    ensures Pixels(fb) == FillRect(old(Pixels(fb)), x, y, w, h, col)
  {
    var rowEnd := if y + h < fb.Length0 then y + h else fb.Length0;
    var colEnd := if x + w < fb.Length1 then x + w else fb.Length1;
    var r := y;
    while r < rowEnd
      invariant y <= r && (r <= rowEnd || r == y)
      invariant forall i, j :: 0 <= i < fb.Length0 && 0 <= j < fb.Length1 ==>
        fb[i, j] == if InRect(i, j, x, y, w, r - y) then col else old(fb[i, j])
    {
      var c := x;
      while c < colEnd
        invariant x <= c && (c <= colEnd || c == x)
        invariant forall i, j :: 0 <= i < fb.Length0 && 0 <= j < fb.Length1 ==>
          fb[i, j] == if InRect(i, j, x, y, w, r - y) || (i == r && x <= j < c) then col else old(fb[i, j])
      {
        fb[r, c] := col;
        c := c + 1;
      }
      r := r + 1;
    }
    ImageExt(Pixels(fb), FillRect(old(Pixels(fb)), x, y, w, h, col), fb.Length1, fb.Length0);
  }

  /**
   * The image after the bulk copy of the scroll step: rows n.. move to rows
   * 0..; the last n rows keep their old contents.
   */
  function ShiftUp(img: Image, n: nat): (res: Image)
    requires n <= |img|
    ensures |res| == |img|
  {
    seq(|img|, r requires 0 <= r < |img| => if r + n < |img| then img[r + n] else img[r])
  }

  /**
   * The copy `lmemcpy(fb, fb + pitch * n, pitch * (height - n))`: moves each
   * pixel row r + n to row r, front to back, which is safe although the two
   * regions overlap because the source lies above the destination.
   */
  method MoveRowsUp(fb: array2<u32>, n: nat)
    requires n <= fb.Length0
    modifies fb
    ensures Pixels(fb) == ShiftUp(old(Pixels(fb)), n)
  {
    var r := 0;
    while r + n < fb.Length0
      invariant 0 <= r <= fb.Length0
      invariant r + n <= fb.Length0 || r == 0
      invariant forall i, j :: 0 <= i < fb.Length0 && 0 <= j < fb.Length1 ==>
        fb[i, j] == if i < r then old(fb[i + n, j]) else old(fb[i, j])
    {
      CopyRowUp(fb, r, n);
      r := r + 1;
    }
    ghost var img := Pixels(fb);
    ghost var want := ShiftUp(old(Pixels(fb)), n);
    forall i, j | 0 <= i < fb.Length0 && 0 <= j < fb.Length1 ensures img[i][j] == want[i][j] {
      if i + n < fb.Length0 { assert i < r; }
    }
    ImageExt(img, want, fb.Length1, fb.Length0);
  }

  /** Pixel row r + n copied over pixel row r, left to right. */
  method CopyRowUp(fb: array2<u32>, r: nat, n: nat)
    requires r + n < fb.Length0
    modifies fb
    ensures forall i, j :: 0 <= i < fb.Length0 && 0 <= j < fb.Length1 ==>
      fb[i, j] == if i == r then old(fb[r + n, j]) else old(fb[i, j])
  {
    var c := 0;
    while c < fb.Length1
      invariant 0 <= c <= fb.Length1
      invariant forall i, j :: 0 <= i < fb.Length0 && 0 <= j < fb.Length1 ==>
        fb[i, j] == if i == r && j < c then old(fb[r + n, j]) else old(fb[i, j])
    {
      fb[r, c] := fb[r + n, c];
      c := c + 1;
    }
  }

  /**
   * One scroll step of n pixel rows: the bulk copy, then the exposed bottom
   * band of n rows is filled with the background colour.
   */
  function ScrollStep(img: Image, width: nat, n: nat): (res: Image)
    requires n <= |img|
    ensures |res| == |img|
  {
    FillRect(ShiftUp(img, n), 0, |img| - n, width, n, BG)
  }

  /** One pixel after a scroll step: the pixel n rows below it, or background in the bottom band. */
  lemma ScrollStepAt(img: Image, width: nat, n: nat, r: nat, c: nat)
    requires IsImage(img, width, |img|) && n <= |img|
    requires r < |img| && c < width
    ensures |ScrollStep(img, width, n)[r]| == width
    ensures ScrollStep(img, width, n)[r][c] == if r + n < |img| then img[r + n][c] else BG
  {
    assert InRect(r, c, 0, |img| - n, width, n) <==> r + n >= |img|;
  }

  /**
   * The row-shift law of one scroll step: row r above the band equals the old
   * row r + n, and every pixel of the bottom n rows is the background.
   */
  lemma ScrollStepRows(img: Image, width: nat, n: nat)
    requires IsImage(img, width, |img|) && n <= |img|
    ensures IsImage(ScrollStep(img, width, n), width, |img|)
    ensures forall r :: 0 <= r < |img| - n ==> ScrollStep(img, width, n)[r] == img[r + n]
    ensures forall r, c :: |img| - n <= r < |img| && 0 <= c < width ==> ScrollStep(img, width, n)[r][c] == BG
  {
    var res := ScrollStep(img, width, n);
    forall r | 0 <= r < |img| - n ensures res[r] == img[r + n] {
      assert |res[r]| == |img[r + n]|;
      forall c | 0 <= c < width ensures res[r][c] == img[r + n][c] {
        ScrollStepAt(img, width, n, r, c);
      }
    }
    forall r, c | |img| - n <= r < |img| && 0 <= c < width ensures res[r][c] == BG {
      ScrollStepAt(img, width, n, r, c);
    }
  }

  /** k successive scroll steps of n rows each: the first step, then k - 1 more. */
  function Scrolls(img: Image, width: nat, n: nat, k: nat): (res: Image)
    requires n <= |img|
    ensures |res| == |img|
    decreases k
  {
    if k == 0 then img else Scrolls(ScrollStep(img, width, n), width, n, k - 1)
  }

  /** The (k + 1)-th scroll step applies to the image after k steps. */
  lemma {:induction false} ScrollsSucc(img: Image, width: nat, n: nat, k: nat)
    requires n <= |img|
    ensures Scrolls(img, width, n, k + 1) == ScrollStep(Scrolls(img, width, n, k), width, n)
    decreases k
  {
    if k > 0 {
      ScrollsSucc(ScrollStep(img, width, n), width, n, k - 1);
    }
  }

  /**
   * One scroll step on the frame buffer: the bulk copy of the rows below the
   * top n rows up by n, then the background fill of the bottom n rows.
   */
  method ScrollBand(fb: array2<u32>, n: nat)
    requires n <= fb.Length0
    modifies fb
    ensures Pixels(fb) == ScrollStep(old(Pixels(fb)), fb.Length1, n)
  {
    ghost var img := Pixels(fb);
    var top := fb.Length0 - n;
    assert top == |img| - n;
    ghost var moved := ShiftUp(img, n);
    assert ScrollStep(img, fb.Length1, n) == FillRect(moved, 0, top, fb.Length1, n, BG);
    MoveRowsUp(fb, n);
    assert Pixels(fb) == moved;
    SetArea(fb, 0, top, fb.Length1, n, BG);
    assert Pixels(fb) == FillRect(moved, 0, top, fb.Length1, n, BG);
  }

  /** The number of pixel rows k scroll steps of n rows move the image by, k * n. */
  function Shifted(k: nat, n: nat): nat
  {
    if k == 0 then 0 else Shifted(k - 1, n) + n
  }

  lemma {:induction false} ShiftedIsProduct(k: nat, n: nat)
    ensures Shifted(k, n) == k * n
  {
    if k > 0 {
      ShiftedIsProduct(k - 1, n);
      assert k * n == (k - 1) * n + n;
    }
  }

  lemma {:induction false} ScrollsShape(img: Image, width: nat, n: nat, k: nat)
    requires IsImage(img, width, |img|) && n <= |img|
    ensures IsImage(Scrolls(img, width, n, k), width, |img|)
    decreases k
  {
    if k > 0 {
      ScrollStepRows(img, width, n);
      ScrollsShape(ScrollStep(img, width, n), width, n, k - 1);
    }
  }

  /**
   * After k scroll steps of n rows, pixel (r, c) shows the old pixel of row
   * r + k * n when there is one, and background otherwise.
   */
  lemma {:induction false} ScrollsAt(img: Image, width: nat, n: nat, k: nat, r: nat, c: nat)
    requires IsImage(img, width, |img|) && n <= |img|
    requires r < |img| && c < width
    ensures IsImage(Scrolls(img, width, n, k), width, |img|)
    ensures Scrolls(img, width, n, k)[r][c] == if r + Shifted(k, n) < |img| then img[r + Shifted(k, n)][c] else BG
    decreases k
  {
    ScrollsShape(img, width, n, k);
    if k > 0 {
      var next := ScrollStep(img, width, n);
      ScrollStepRows(img, width, n);
      ScrollsAt(next, width, n, k - 1, r, c);
      assert Scrolls(img, width, n, k) == Scrolls(next, width, n, k - 1);
      var m := Shifted(k - 1, n);
      assert Shifted(k, n) == m + n;
      if r + m < |img| {
        ScrollStepAt(img, width, n, r + m, c);
      }
    }
  }
}
