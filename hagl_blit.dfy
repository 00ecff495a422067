/** Bitmap blits (hagl/hagl_blit.cpp): a plain copy that either hands the
    whole bitmap to the display or falls back to clipped pixels, and a
    nearest-neighbour scaled copy. */
module HaglBlit {
  import opened CInt
  import opened HaglClip

  /** hagl_bitmap_t: width, height and the row-major colour buffer. */
  datatype Bitmap = Bitmap(width: int, height: int, buffer: seq<nat>)

  predicate BitmapOk(b: Bitmap)
  {
    IsUInt16(b.width) && IsUInt16(b.height) && |b.buffer| == b.width * b.height
  }

  lemma MulMonotone(a: int, b: int, w: int)
    requires 0 <= a <= b && w >= 0
    ensures a * w <= b * w
  {
  }

  lemma RowMajorIndex(x: int, y: int, w: int, h: int)
    requires 0 <= x < w && 0 <= y < h
    ensures 0 <= y * w + x < w * h
  {
    MulMonotone(y, h - 1, w);
    assert (h - 1) * w + w == w * h;
  }

  /** Where row y of a grid of width w starts in row-major order: y * w,
      one row at a time. */
  function RowStart(w: int, y: nat): int
  {
    if y == 0 then 0 else RowStart(w, y - 1) + w
  }

  /** Row y of a w x h grid starts at y * w, within the grid. */
  lemma {:induction false} RowStartBounds(w: int, y: nat, h: int)
    requires y <= h && w >= 0
    ensures RowStart(w, y) == y * w
    ensures 0 <= RowStart(w, y) <= w * h
    decreases y
  {
    if y > 0 {
      RowStartBounds(w, y - 1, h);
      assert (y - 1) * w + w == y * w;
    }
    MulMonotone(y, h, w);
  }

  /** The colour at source pixel (px, py): buffer[py * width + px]. */
  function Texel(b: Bitmap, px: int, py: int): nat
    requires BitmapOk(b) && 0 <= px < b.width && 0 <= py < b.height
  {
    RowMajorIndex(px, py, b.width, b.height);
    b.buffer[py * b.width + px]
  }

  /** Where the copy has got to: source pixel (x, y) is next, in row-major
      order; (0, height) is the end. */
  predicate CopyPos(b: Bitmap, y: int, x: int)
  {
    0 <= y <= b.height && 0 <= x <= b.width && (y == b.height ==> x == 0)
  }

  /** The pixel requests of the copy fallback before source pixel (x, y),
      row by row: source pixel (i, j) goes to (x0 + i, y0 + j), both stored
      into int16_t. */
  function CopyUpTo(x0: int, y0: int, b: Bitmap, y: int, x: int): (r: seq<Effect>)
    requires BitmapOk(b) && CopyPos(b, y, x)
    ensures Requests(r)
    decreases y, x
  {
    if x > 0 then CopyUpTo(x0, y0, b, y, x - 1) + [Pixel(ToInt16(x0 + x - 1), ToInt16(y0 + y), Texel(b, x - 1, y))]
    else if y > 0 then CopyUpTo(x0, y0, b, y - 1, b.width)
    else []
  }

  /** All pixel requests of the copy fallback. */
  function CopyPuts(x0: int, y0: int, b: Bitmap): (r: seq<Effect>)
    requires BitmapOk(b)
    ensures Requests(r)
  {
    CopyUpTo(x0, y0, b, b.height, 0)
  }

  /** Before (x, y) come y whole rows and x pixels of row y. */
  lemma {:induction false} CopyUpToLength(x0: int, y0: int, b: Bitmap, y: int, x: int)
    requires BitmapOk(b) && CopyPos(b, y, x)
    ensures |CopyUpTo(x0, y0, b, y, x)| == RowStart(b.width, y) + x
    decreases y, x
  {
    if x > 0 {
      CopyUpToLength(x0, y0, b, y, x - 1);
    } else if y > 0 {
      CopyUpToLength(x0, y0, b, y - 1, b.width);
    }
  }

  /** The fallback issues exactly width * height pixel requests. */
  lemma CopyPutsLength(x0: int, y0: int, b: Bitmap)
    requires BitmapOk(b)
    ensures |CopyPuts(x0, y0, b)| == b.width * b.height
  {
    CopyUpToLength(x0, y0, b, b.height, 0);
    RowStartBounds(b.width, b.height, b.height);
  }

  /** Source pixel (i, j) comes before (x, y) in row-major order. */
  predicate Before(j: int, i: int, y: int, x: int)
  {
    j < y || (j == y && i < x)
  }

  /** Each source pixel before (x, y) has its request at its row-major
      index. */
  lemma {:induction false} CopyUpToAt(x0: int, y0: int, b: Bitmap, y: int, x: int, j: int, i: int)
    requires BitmapOk(b) && CopyPos(b, y, x)
    requires 0 <= j < b.height && 0 <= i < b.width && Before(j, i, y, x)
    ensures 0 <= RowStart(b.width, j) + i < |CopyUpTo(x0, y0, b, y, x)|
    ensures CopyUpTo(x0, y0, b, y, x)[RowStart(b.width, j) + i] == Pixel(ToInt16(x0 + i), ToInt16(y0 + j), Texel(b, i, j))
    decreases y, x
  {
    if x > 0 {
      var s := CopyUpTo(x0, y0, b, y, x - 1);
      var p := Pixel(ToInt16(x0 + x - 1), ToInt16(y0 + y), Texel(b, x - 1, y));
      assert CopyUpTo(x0, y0, b, y, x) == s + [p];
      if j == y && i == x - 1 {
        CopyUpToLength(x0, y0, b, y, x - 1);
        RowStartBounds(b.width, y, b.height);
      } else {
        CopyUpToAt(x0, y0, b, y, x - 1, j, i);
        assert CopyUpTo(x0, y0, b, y, x)[RowStart(b.width, j) + i] == s[RowStart(b.width, j) + i];
      }
    } else {
      CopyUpToAt(x0, y0, b, y - 1, b.width, j, i);
    }
  }

  /** The fallback puts buffer[y * width + x] at (x0 + x, y0 + y), in
      row-major order: that request is the (y * width + x)-th. */
  lemma CopyPutsAt(x0: int, y0: int, b: Bitmap, x: int, y: int)
    requires BitmapOk(b) && 0 <= x < b.width && 0 <= y < b.height
    ensures y * b.width + x < |CopyPuts(x0, y0, b)|
    ensures CopyPuts(x0, y0, b)[y * b.width + x] == Pixel(ToInt16(x0 + x), ToInt16(y0 + y), b.buffer[y * b.width + x])
  {
    CopyUpToAt(x0, y0, b, b.height, 0, y, x);
    RowStartBounds(b.width, y, b.height);
  }

  /** The condition under which hagl_blit_xy hands the bitmap to the display
      whole. The right and bottom tests compare x0 + width, one past the
      last column, with the last visible column clip.x1. */
  predicate FastPath(c: Window, x0: int, y0: int, b: Bitmap)
  {
    !(x0 < c.x0 || y0 < c.y0 || x0 + b.width > c.x1 || y0 + b.height > c.y1)
  }

  /** hagl_blit_xy. */
  method BlitXY(c: Window, x0: int, y0: int, b: Bitmap) returns (t: seq<Effect>)
    requires WindowOk(c) && IsInt16(x0) && IsInt16(y0) && BitmapOk(b)
    ensures FastPath(c, x0, y0, b) ==> t == [Blit(x0, y0)]
    ensures !FastPath(c, x0, y0, b) ==> t == Visible(c, CopyPuts(x0, y0, b))
  {
    if x0 < c.x0 || y0 < c.y0 || x0 + b.width > c.x1 || y0 + b.height > c.y1 {
      t := CopyPixels(c, x0, y0, b);
    } else {
      t := [Blit(x0, y0)];
    }
  }

  /** The fallback of hagl_blit_xy: the buffer pointer walks the bitmap row
      by row and every colour goes through hagl_put_pixel. */
  method CopyPixels(c: Window, x0: int, y0: int, b: Bitmap) returns (t: seq<Effect>)
    requires WindowOk(c) && IsInt16(x0) && IsInt16(y0) && BitmapOk(b)
    ensures t == Visible(c, CopyPuts(x0, y0, b))
  {
    t := [];
    var ptr := 0;
    var y := 0;
    while y < b.height
      invariant 0 <= y <= b.height && ptr == RowStart(b.width, y)
      invariant t == Visible(c, CopyUpTo(x0, y0, b, y, 0))
    {
      RowStartBounds(b.width, y, b.height);
      var x := 0;
      while x < b.width
        invariant 0 <= x <= b.width && ptr == RowStart(b.width, y) + x
        invariant t == Visible(c, CopyUpTo(x0, y0, b, y, x))
      {
        RowMajorIndex(x, y, b.width, b.height);
        var color := b.buffer[ptr];
        assert color == Texel(b, x, y);
        CopyStep(c, x0, y0, b, y, x);
        t := t + Emit(PutPixel(c, ToInt16(x0 + x), ToInt16(y0 + y), color));
        ptr := ptr + 1;
        x := x + 1;
      }
      y := y + 1;
    }
  }

  /** Copying source pixel (x, y) appends what its hagl_put_pixel call draws. */
  lemma CopyStep(c: Window, x0: int, y0: int, b: Bitmap, y: int, x: int)
    requires WindowOk(c) && BitmapOk(b) && 0 <= y < b.height && 0 <= x < b.width
    ensures Visible(c, CopyUpTo(x0, y0, b, y, x + 1)) ==
      Visible(c, CopyUpTo(x0, y0, b, y, x)) + Emit(PutPixel(c, ToInt16(x0 + x), ToInt16(y0 + y), Texel(b, x, y)))
  {
    var p := Pixel(ToInt16(x0 + x), ToInt16(y0 + y), Texel(b, x, y));
    VisibleSnoc(c, CopyUpTo(x0, y0, b, y, x), p);
  }

  /** A bitmap inside the clip window whose last column is exactly clip.x1,
      or whose last row is exactly clip.y1, is not handed to the display
      whole: it goes through the fallback, which then forwards every one of
      its pixels. */
  lemma FlushRightTakesFallback(c: Window, x0: int, y0: int, b: Bitmap)
    requires WindowOk(c) && IsInt16(x0) && IsInt16(y0) && BitmapOk(b)
    requires b.width > 0 && b.height > 0 && BitmapInside(c, x0, y0, b)
    requires x0 + b.width - 1 == c.x1 || y0 + b.height - 1 == c.y1
    ensures !FastPath(c, x0, y0, b)
    ensures Visible(c, CopyPuts(x0, y0, b)) == CopyPuts(x0, y0, b)
  {
    CopyInsideForwarded(c, x0, y0, b, b.height, 0);
  }

  /** The bitmap lies inside the clip window. */
  predicate BitmapInside(c: Window, x0: int, y0: int, b: Bitmap)
  {
    c.x0 <= x0 && x0 + b.width - 1 <= c.x1 && c.y0 <= y0 && y0 + b.height - 1 <= c.y1
  }

  /** Every request before (x, y) lies inside the window, so clipping passes
      them all through. */
  lemma {:induction false} CopyInsideForwarded(c: Window, x0: int, y0: int, b: Bitmap, y: int, x: int)
    requires WindowOk(c) && IsInt16(x0) && IsInt16(y0) && BitmapOk(b) && BitmapInside(c, x0, y0, b)
    requires CopyPos(b, y, x)
    ensures Visible(c, CopyUpTo(x0, y0, b, y, x)) == CopyUpTo(x0, y0, b, y, x)
    decreases y, x
  {
    if x > 0 {
      CopyInsideForwarded(c, x0, y0, b, y, x - 1);
      var p := Pixel(x0 + x - 1, y0 + y, Texel(b, x - 1, y));
      var s := CopyUpTo(x0, y0, b, y, x - 1);
      assert CopyUpTo(x0, y0, b, y, x) == s + [p];
      VisibleSnoc(c, s, p);
      assert Emit(Clip(c, p)) == [p];
    } else if y > 0 {
      CopyInsideForwarded(c, x0, y0, b, y - 1, b.width);
      assert CopyUpTo(x0, y0, b, y, x) == CopyUpTo(x0, y0, b, y - 1, b.width);
    } else {
      assert CopyUpTo(x0, y0, b, y, x) == [];
    }
  }

  /** `(i * ((size << 16) / n)) >> 16` in uint32 arithmetic, stored into a
      uint16: the source coordinate sampled for destination coordinate i
      when n destination pixels cover size source pixels. */
  function Sample(i: int, n: int, size: int): (p: int)
    requires 0 <= i < n && n < TWO_16 && 0 < size < TWO_15
    ensures 0 <= p < size
    ensures n == size ==> p == i
  {
    var ratio := Quot(size * 0x1_0000, n);
    RatioBounds(i, n, size);
    SameSizeRatio(i, n, size);
    ToUInt16(ToUInt32(Mul(i, ToUInt32(ratio))) / 0x1_0000)
  }

  /** a / n for a >= 0 and n > 0, and i * r for i >= 0, spelled as repeated
      subtraction and addition, so that one step of either unfolds to linear
      arithmetic. QuotIsDiv and MulIsProduct tie them to the operators. */
  function Quot(a: int, n: int): int
    requires a >= 0 && n > 0
    decreases a
  {
    if a < n then 0 else Quot(a - n, n) + 1
  }

  function Mul(i: int, r: int): int
    requires i >= 0
    decreases i
  {
    if i == 0 then 0 else Mul(i - 1, r) + r
  }

  /** Quot(a, n) whole n's fit in a, and one more does not. */
  lemma {:induction false} QuotBounds(a: int, n: int)
    requires a >= 0 && n > 0
    ensures 0 <= Quot(a, n) && Quot(a, n) * n <= a < Quot(a, n) * n + n
    decreases a
  {
    if a >= n {
      QuotBounds(a - n, n);
      assert (Quot(a - n, n) + 1) * n == Quot(a - n, n) * n + n;
    }
  }

  /** Quot is Dafny's /, which agrees with C's on non-negative operands. */
  lemma QuotIsDiv(a: int, n: int)
    requires a >= 0 && n > 0
    ensures Quot(a, n) == a / n
  {
    QuotBounds(a, n);
    DivModUnique(a, n, Quot(a, n), a - Quot(a, n) * n);
  }

  lemma {:induction false} MulIsProduct(i: int, r: int)
    requires i >= 0
    ensures Mul(i, r) == i * r
    decreases i
  {
    if i > 0 {
      MulIsProduct(i - 1, r);
      assert (i - 1) * r + r == i * r;
    }
  }

  /** The 16.16 fixed-point ratio fits in 31 bits, and i times it stays
      below size << 16 for every i < n, so the uint32 product never wraps. */
  lemma RatioBounds(i: int, n: int, size: int)
    requires 0 <= i < n && 0 < size < TWO_15
    ensures 0 <= Quot(size * 0x1_0000, n) <= size * 0x1_0000 < TWO_31
    ensures 0 <= Mul(i, Quot(size * 0x1_0000, n)) < size * 0x1_0000
  {
    var a := size * 0x1_0000;
    var q := Quot(a, n);
    QuotBounds(a, n);
    MulIsProduct(i, q);
    MulMonotone(1, n, q);
    MulMonotone(i, n - 1, q);
    assert (n - 1) * q == n * q - q;
  }

  /** With as many destination as source pixels the ratio is exactly 1.0
      and the product is i << 16. */
  lemma SameSizeRatio(i: int, n: int, size: int)
    requires 0 <= i < n && 0 < size < TWO_15
    ensures n == size ==> Quot(size * 0x1_0000, n) == 0x1_0000 && Mul(i, 0x1_0000) == i * 0x1_0000
  {
    if n == size {
      QuotBounds(size * 0x1_0000, n);
      var q := Quot(size * 0x1_0000, n);
      if q < 0x1_0000 {
        MulMonotone(q + 1, 0x1_0000, n);
      } else if q > 0x1_0000 {
        MulMonotone(0x1_0000 + 1, q, n);
      }
      MulIsProduct(i, 0x1_0000);
    }
  }

  /** Sample is the uint32 expression of hagl_blit_xywh. */
  lemma SampleFormula(i: int, n: int, size: int)
    requires 0 <= i < n && n < TWO_16 && 0 < size < TWO_15
    ensures Sample(i, n, size) == ToUInt16(ToUInt32(i * ToUInt32((size * TWO_16) / n)) / TWO_16)
  {
    QuotIsDiv(size * 0x1_0000, n);
    MulIsProduct(i, ToUInt32(Quot(size * 0x1_0000, n)));
  }

  /** hagl_blit_xywh divides by w and h and reads the bitmap at least once. */
  predicate ScaleOk(w: int, h: int, b: Bitmap)
  {
    0 < w < TWO_16 && 0 < h < TWO_16 && BitmapOk(b) && 0 < b.width < TWO_15 && 0 < b.height < TWO_15
  }

  /** The colour hagl_blit_xywh puts at destination pixel (x, y): the source
      pixel its two samples pick. */
  function ScaledTexel(w: int, h: int, b: Bitmap, x: int, y: int): nat
    requires ScaleOk(w, h, b) && 0 <= x < w && 0 <= y < h
  {
    Texel(b, Sample(x, w, b.width), Sample(y, h, b.height))
  }

  /** Where the scaled copy has got to: destination pixel (x, y) of the
      w x h rectangle is next; (0, h) is the end. */
  predicate ScaledPos(w: int, h: int, y: int, x: int)
  {
    0 <= y <= h && 0 <= x <= w && (y == h ==> x == 0)
  }

  /** The pixel requests of hagl_blit_xywh before destination pixel (x, y),
      row by row. */
  function ScaledUpTo(x0: int, y0: int, w: int, h: int, b: Bitmap, y: int, x: int): (r: seq<Effect>)
    requires ScaleOk(w, h, b) && ScaledPos(w, h, y, x)
    ensures Requests(r)
    decreases y, x
  {
    if x > 0 then ScaledUpTo(x0, y0, w, h, b, y, x - 1) + [Pixel(ToInt16(x0 + x - 1), ToInt16(y0 + y), ScaledTexel(w, h, b, x - 1, y))]
    else if y > 0 then ScaledUpTo(x0, y0, w, h, b, y - 1, w)
    else []
  }

  /** All pixel requests of hagl_blit_xywh. */
  function ScaledPuts(x0: int, y0: int, w: int, h: int, b: Bitmap): (r: seq<Effect>)
    requires ScaleOk(w, h, b)
    ensures Requests(r)
  {
    ScaledUpTo(x0, y0, w, h, b, h, 0)
  }

  /** Before (x, y) come y whole rows of w requests and x more. */
  lemma {:induction false} ScaledUpToLength(x0: int, y0: int, w: int, h: int, b: Bitmap, y: int, x: int)
    requires ScaleOk(w, h, b) && ScaledPos(w, h, y, x)
    ensures |ScaledUpTo(x0, y0, w, h, b, y, x)| == RowStart(w, y) + x
    decreases y, x
  {
    if x > 0 {
      ScaledUpToLength(x0, y0, w, h, b, y, x - 1);
    } else if y > 0 {
      ScaledUpToLength(x0, y0, w, h, b, y - 1, w);
    }
  }

  /** hagl_blit_xywh issues exactly one pixel request per destination pixel. */
  lemma ScaledPutsLength(x0: int, y0: int, w: int, h: int, b: Bitmap)
    requires ScaleOk(w, h, b)
    ensures |ScaledPuts(x0, y0, w, h, b)| == w * h
  {
    ScaledUpToLength(x0, y0, w, h, b, h, 0);
    RowStartBounds(w, h, h);
  }

  /** Scaling to the bitmap's own size is the plain copy. */
  lemma ScaledSameSizeIsCopy(x0: int, y0: int, b: Bitmap)
    requires ScaleOk(b.width, b.height, b)
    ensures ScaledPuts(x0, y0, b.width, b.height, b) == CopyPuts(x0, y0, b)
  {
    ScaledUpToSameSize(x0, y0, b, b.height, 0);
  }

  lemma {:induction false} ScaledUpToSameSize(x0: int, y0: int, b: Bitmap, y: int, x: int)
    requires ScaleOk(b.width, b.height, b) && CopyPos(b, y, x)
    ensures ScaledUpTo(x0, y0, b.width, b.height, b, y, x) == CopyUpTo(x0, y0, b, y, x)
    decreases y, x
  {
    if x > 0 {
      ScaledUpToSameSize(x0, y0, b, y, x - 1);
      assert ScaledTexel(b.width, b.height, b, x - 1, y) == Texel(b, x - 1, y);
    } else if y > 0 {
      ScaledUpToSameSize(x0, y0, b, y - 1, b.width);
    }
  }

  /** hagl_blit_xywh with uint16 x0, y0, w, h. A zero w or h divides by
      zero, and an empty bitmap would be read out of bounds. */
  method BlitXYWH(c: Window, x0: int, y0: int, w: int, h: int, b: Bitmap) returns (t: seq<Effect>)
    requires WindowOk(c) && IsUInt16(x0) && IsUInt16(y0) && ScaleOk(w, h, b)
    ensures t == Visible(c, ScaledPuts(x0, y0, w, h, b))
  {
    var xRatio := FixedRatio(b.width, w);
    var yRatio := FixedRatio(b.height, h);
    t := [];
    var y := 0;
    while y < h
      invariant 0 <= y <= h
      invariant t == Visible(c, ScaledUpTo(x0, y0, w, h, b, y, 0))
    {
      var x := 0;
      while x < w
        invariant 0 <= x <= w
        invariant t == Visible(c, ScaledUpTo(x0, y0, w, h, b, y, x))
      {
        var px := SampleAt(x, w, b.width, xRatio);
        var py := SampleAt(y, h, b.height, yRatio);
        var color := Texel(b, px, py);
        assert color == ScaledTexel(w, h, b, x, y);
        ScaledStep(c, x0, y0, w, h, b, y, x);
        t := t + Emit(PutPixel(c, ToInt16(x0 + x), ToInt16(y0 + y), color));
        x := x + 1;
      }
      y := y + 1;
    }
  }

  /** Destination pixel (x, y) appends what its hagl_put_pixel call draws. */
  lemma ScaledStep(c: Window, x0: int, y0: int, w: int, h: int, b: Bitmap, y: int, x: int)
    requires WindowOk(c) && ScaleOk(w, h, b) && 0 <= y < h && 0 <= x < w
    ensures Visible(c, ScaledUpTo(x0, y0, w, h, b, y, x + 1)) ==
      Visible(c, ScaledUpTo(x0, y0, w, h, b, y, x)) + Emit(PutPixel(c, ToInt16(x0 + x), ToInt16(y0 + y), ScaledTexel(w, h, b, x, y)))
  {
    var p := Pixel(ToInt16(x0 + x), ToInt16(y0 + y), ScaledTexel(w, h, b, x, y));
    VisibleSnoc(c, ScaledUpTo(x0, y0, w, h, b, y, x), p);
  }

  /** The 16.16 step of the scaled copy along one axis: how many source
      pixels, in units of 2^-16, one destination pixel advances. */
  predicate IsRatio(ratio: int, n: int, size: int)
  {
    0 <= ratio && ratio * n <= size * TWO_16 < ratio * n + n
  }

  /** `(size << 16) / n` stored into a uint32. The result is the floor of
      the 16.16 quotient, and the uint32 store never wraps. */
  method FixedRatio(size: int, n: int) returns (ratio: int)
    requires 0 < n < TWO_16 && 0 < size < TWO_15
    ensures ratio < TWO_31 && IsRatio(ratio, n, size)
  {
    RatioBounds(0, n, size);
    QuotBounds(size * TWO_16, n);
    QuotIsDiv(size * TWO_16, n);
    ratio := ToUInt32((size * TWO_16) / n);
  }

  /** `(i * ratio) >> 16` in uint32 arithmetic, stored into a uint16: the
      source coordinate of destination coordinate i. */
  method SampleAt(i: int, n: int, size: int, ratio: int) returns (p: int)
    requires 0 <= i < n && n < TWO_16 && 0 < size < TWO_15
    requires IsRatio(ratio, n, size)
    ensures p == Sample(i, n, size)
  {
    DivModUnique(size * TWO_16, n, ratio, size * TWO_16 - ratio * n);
    p := ToUInt16(ToUInt32(i * ratio) / TWO_16);
    SampleFormula(i, n, size);
  }
}
