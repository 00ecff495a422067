/** HAGL's clipping of single pixels and straight lines against the display's
    clip window (hagl/hagl_pixel.cpp, hagl/hagl_hline.cpp, hagl/hagl_vline.cpp).
    Each drawing call is modelled by the display call it ends in: a clipped
    span, a pixel, or nothing. */
module HaglClip {
  import opened CInt
  import opened Wrappers

  /** hagl_window_t: inclusive corners of the clip window. */
  datatype Window = Window(x0: int, y0: int, x1: int, y1: int)

  /** A clip window on a screen whose coordinates fit an int16, such as the
      default {0, 0, WIDTH - 1, HEIGHT - 1}. */
  predicate WindowOk(c: Window)
  {
    0 <= c.x0 <= c.x1 < TWO_15 && 0 <= c.y0 <= c.y1 < TWO_15
  }

  predicate InClip(c: Window, x: int, y: int)
  {
    c.x0 <= x <= c.x1 && c.y0 <= y <= c.y1
  }

  /** A call that reaches the display: drawHlineInner, drawVlineInner,
      put_pixel or blit. */
  datatype Effect =
    | HSpan(x: int, y: int, len: int, color: nat)
    | VSpan(x: int, y: int, len: int, color: nat)
    | Pixel(x: int, y: int, color: nat)
    | Blit(x: int, y: int)

  /** The pixels an effect paints (a bitmap blit is not resolved to pixels). */
  predicate Covers(e: Effect, px: int, py: int)
  {
    match e
    case HSpan(x, y, len, _) => py == y && x <= px < x + len
    case VSpan(x, y, len, _) => px == x && y <= py < y + len
    case Pixel(x, y, _) => px == x && py == y
    case Blit(_, _) => false
  }

  /** Every pixel the effect paints lies in the clip window. */
  predicate Inside(c: Window, e: Effect)
  {
    match e
    case HSpan(x, y, len, _) => len >= 1 && c.x0 <= x && x + len - 1 <= c.x1 && c.y0 <= y <= c.y1
    case VSpan(x, y, len, _) => len >= 1 && c.y0 <= y && y + len - 1 <= c.y1 && c.x0 <= x <= c.x1
    case Pixel(x, y, _) => InClip(c, x, y)
    case Blit(_, _) => true
  }

  /** The effects of a call that may draw nothing. */
  function Emit(o: Option<Effect>): (t: seq<Effect>)
    ensures o.None? ==> t == []
    ensures o.Some? ==> t == [o.value]
  {
    if o.Some? then [o.value] else []
  }

  /** hagl_put_pixel: the pixel is forwarded or dropped. */
  function PutPixel(c: Window, x0: int, y0: int, color: nat): (r: Option<Effect>)
    ensures r.Some? <==> InClip(c, x0, y0)
    ensures r.Some? ==> r.value == Pixel(x0, y0, color)
  {
    if x0 < c.x0 || y0 < c.y0 then None
    else if x0 > c.x1 || y0 > c.y1 then None
    else Some(Pixel(x0, y0, color))
  }

  /** Black, hagl_color(0, 0, 0). */
  const BLACK: nat := 0

  /** hagl_get_pixel: reading back is not supported by the display, so every
      coordinate, inside the clip or not, reads as black. */
  function GetPixel(c: Window, x0: int, y0: int): (color: nat)
    ensures color == BLACK
  {
    if x0 < c.x0 || y0 < c.y0 then BLACK
    else if x0 > c.x1 || y0 > c.y1 then BLACK
    else BLACK
  }

  /** hagl_draw_hline_xyw with int16 x0, y0 and a uint16 width w. */
  function HLine(c: Window, x0: int, y0: int, w: int, color: nat): (r: Option<Effect>)
    requires WindowOk(c) && IsInt16(x0) && IsInt16(y0) && IsUInt16(w)
    ensures x0 > c.x1 || y0 > c.y1 || y0 < c.y0 ==> r.None?
    ensures r.Some? ==> r.value.HSpan? && r.value.y == y0 && r.value.color == color && Inside(c, r.value)
    ensures c.x0 <= x0 && 1 <= w < TWO_15 && x0 + w - 1 <= c.x1 && c.y0 <= y0 <= c.y1 ==>
      r == Some(HSpan(x0, y0, w, color))
  {
    var width := ToInt16(w);
    if x0 > c.x1 || y0 > c.y1 || y0 < c.y0 then None
    else
      var start := if x0 < c.x0 then c.x0 else x0;
      var width1 := if x0 < c.x0 then ToInt16(width + x0) else width;
      if width1 <= 0 then None
      else
        var width2 := if start + width1 > c.x1 then ToInt16(width1 - (start + width1 - 1 - c.x1)) else width1;
        Some(HSpan(start, y0, width2, color))
  }

  /** hagl_draw_vline_xyh with int16 x0, y0 and a uint16 height h. */
  function VLine(c: Window, x0: int, y0: int, h: int, color: nat): (r: Option<Effect>)
    requires WindowOk(c) && IsInt16(x0) && IsInt16(y0) && IsUInt16(h)
    ensures x0 > c.x1 || x0 < c.x0 || y0 > c.y1 ==> r.None?
    ensures r.Some? ==> r.value.VSpan? && r.value.x == x0 && r.value.color == color && Inside(c, r.value)
    ensures c.y0 <= y0 && 1 <= h < TWO_15 && y0 + h - 1 <= c.y1 && c.x0 <= x0 <= c.x1 ==>
      r == Some(VSpan(x0, y0, h, color))
  {
    var height := ToInt16(h);
    if x0 > c.x1 || x0 < c.x0 || y0 > c.y1 then None
    else
      var start := if y0 < c.y0 then c.y0 else y0;
      var height1 := if y0 < c.y0 then ToInt16(height + y0) else height;
      if height1 <= 0 then None
      else
        var height2 := if start + height1 > c.y1 then ToInt16(height1 - (start + height1 - 1 - c.y1)) else height1;
        Some(VSpan(x0, start, height2, color))
  }

  predicate CoveredBy(o: Option<Effect>, px: int, py: int)
  {
    o.Some? && Covers(o.value, px, py)
  }

  /** With the clip window starting at column 0 (the display's default), a
      horizontal line paints exactly the pixels of [x0, x0 + w) on row y0
      that lie in the clip window. */
  lemma HLineExact(c: Window, x0: int, y0: int, w: int, color: nat, px: int, py: int)
    requires WindowOk(c) && c.x0 == 0 && IsInt16(x0) && IsInt16(y0) && 0 <= w < TWO_15
    ensures CoveredBy(HLine(c, x0, y0, w, color), px, py) <==>
      py == y0 && x0 <= px < x0 + w && InClip(c, px, py)
  {
    if x0 < 0 {
      assert ToInt16(w + x0) == w + x0;
    }
  }

  /** With the clip window starting at row 0, a vertical line paints exactly
      the pixels of [y0, y0 + h) in column x0 that lie in the clip window. */
  lemma VLineExact(c: Window, x0: int, y0: int, h: int, color: nat, px: int, py: int)
    requires WindowOk(c) && c.y0 == 0 && IsInt16(x0) && IsInt16(y0) && 0 <= h < TWO_15
    ensures CoveredBy(VLine(c, x0, y0, h, color), px, py) <==>
      px == x0 && y0 <= py < y0 + h && InClip(c, px, py)
  {
    if y0 < 0 {
      assert ToInt16(h + y0) == h + y0;
    }
  }

  /** When the clip window does not start at column 0, a line starting left
      of it is shortened by -x0 rather than by clip.x0 - x0: from x0 = 5 with
      10 pixels and the window starting at 10, five pixels are visible but
      fifteen are painted. */
  lemma HLineLeftClipOverdraws()
    ensures HLine(Window(10, 0, 100, 100), 5, 0, 10, BLACK) == Some(HSpan(10, 0, 15, BLACK))
  {
  }

  /** The same for a vertical line starting above a window that does not
      start at row 0. */
  lemma VLineTopClipOverdraws()
    ensures VLine(Window(0, 10, 100, 100), 0, 5, 10, BLACK) == Some(VSpan(0, 10, 15, BLACK))
  {
  }

  /** A one-pixel line is the same test as a single pixel when the window
      starts at the origin. */
  lemma PixelIsUnitLine(c: Window, x0: int, y0: int, color: nat)
    requires WindowOk(c) && c.x0 == 0 && c.y0 == 0 && IsInt16(x0) && IsInt16(y0)
    ensures HLine(c, x0, y0, 1, color).Some? <==> PutPixel(c, x0, y0, color).Some?
    ensures VLine(c, x0, y0, 1, color).Some? <==> PutPixel(c, x0, y0, color).Some?
  {
    HLineExact(c, x0, y0, 1, color, x0, y0);
    VLineExact(c, x0, y0, 1, color, x0, y0);
  }

  /** A call as the drawing code makes it: hagl_draw_hline, hagl_draw_vline
      or hagl_put_pixel with int16 coordinates and a uint16 length. */
  predicate Request(e: Effect)
  {
    match e
    case HSpan(x, y, len, _) => IsInt16(x) && IsInt16(y) && IsUInt16(len)
    case VSpan(x, y, len, _) => IsInt16(x) && IsInt16(y) && IsUInt16(len)
    case Pixel(x, y, _) => IsInt16(x) && IsInt16(y)
    case Blit(_, _) => false
  }

  predicate Requests(reqs: seq<Effect>)
  {
    forall k :: 0 <= k < |reqs| ==> Request(reqs[k])
  }

  /** What one requested call hands to the display. */
  function Clip(c: Window, e: Effect): (r: Option<Effect>)
    requires WindowOk(c) && Request(e)
    ensures r.Some? ==> Inside(c, r.value)
  {
    match e
    case HSpan(x, y, len, color) => HLine(c, x, y, len, color)
    case VSpan(x, y, len, color) => VLine(c, x, y, len, color)
    case Pixel(x, y, color) => PutPixel(c, x, y, color)
    case Blit(_, _) => None
  }

  predicate AllInside(c: Window, t: seq<Effect>)
  {
    forall k :: 0 <= k < |t| ==> Inside(c, t[k])
  }

  /** What a sequence of requested calls hands to the display, in order. */
  function Visible(c: Window, reqs: seq<Effect>): (t: seq<Effect>)
    requires WindowOk(c) && Requests(reqs)
    ensures |t| <= |reqs| && AllInside(c, t)
  {
    VisibleTo(c, reqs, |reqs|)
  }

  /** What the first n requested calls hand to the display. */
  function VisibleTo(c: Window, reqs: seq<Effect>, n: nat): (t: seq<Effect>)
    requires WindowOk(c) && Requests(reqs) && n <= |reqs|
    ensures |t| <= n && AllInside(c, t)
  {
    if n == 0 then []
    else VisibleTo(c, reqs, n - 1) + Emit(Clip(c, reqs[n - 1]))
  }

  /** The first n calls draw the same whatever follows them. */
  lemma {:induction false} VisibleToPrefix(c: Window, a: seq<Effect>, b: seq<Effect>, n: nat)
    requires WindowOk(c) && Requests(a) && Requests(b) && n <= |a| && n <= |b|
    requires forall k :: 0 <= k < n ==> a[k] == b[k]
    ensures VisibleTo(c, a, n) == VisibleTo(c, b, n)
  {
    if n > 0 {
      VisibleToPrefix(c, a, b, n - 1);
    }
  }

  /** The last request of a non-empty batch is drawn last. */
  lemma VisibleInit(c: Window, reqs: seq<Effect>)
    requires WindowOk(c) && Requests(reqs) && reqs != []
    ensures Visible(c, reqs) == Visible(c, reqs[..|reqs| - 1]) + Emit(Clip(c, reqs[|reqs| - 1]))
  {
    VisibleToPrefix(c, reqs, reqs[..|reqs| - 1], |reqs| - 1);
  }

  /** One more request extends the trace by what that call draws. */
  lemma VisibleSnoc(c: Window, reqs: seq<Effect>, e: Effect)
    requires WindowOk(c) && Requests(reqs) && Request(e)
    ensures Requests(reqs + [e]) && Visible(c, reqs + [e]) == Visible(c, reqs) + Emit(Clip(c, e))
  {
    assert (reqs + [e])[..|reqs|] == reqs;
    VisibleInit(c, reqs + [e]);
  }

  /** The trace of two batches of requests is the trace of the first
      followed by the trace of the second. */
  lemma {:induction false} VisibleConcat(c: Window, a: seq<Effect>, b: seq<Effect>)
    requires WindowOk(c) && Requests(a) && Requests(b)
    ensures Requests(a + b) && Visible(c, a + b) == Visible(c, a) + Visible(c, b)
    decreases |b|
  {
    assert forall k :: 0 <= k < |a + b| ==> (a + b)[k] == if k < |a| then a[k] else b[k - |a|];
    if b == [] {
      assert a + b == a;
    } else {
      var init := b[..|b| - 1];
      VisibleConcat(c, a, init);
      VisibleInit(c, b);
      VisibleInit(c, a + b);
      assert (a + b)[..|a + b| - 1] == a + init;
      assert (a + b)[|a + b| - 1] == b[|b| - 1];
    }
  }

  /** A request the clip window leaves untouched: inside it, and for a line
      a length that is still positive as an int16. */
  predicate Unclipped(c: Window, e: Effect)
  {
    Inside(c, e) && (e.HSpan? || e.VSpan? ==> e.len < TWO_15)
  }

  /** Requests that all lie in the clip window reach the display unchanged
      and in order. */
  lemma {:induction false} VisibleUnclipped(c: Window, reqs: seq<Effect>)
    requires WindowOk(c) && Requests(reqs)
    requires forall k :: 0 <= k < |reqs| ==> Unclipped(c, reqs[k])
    ensures Visible(c, reqs) == reqs
    decreases |reqs|
  {
    if reqs != [] {
      var init := reqs[..|reqs| - 1];
      VisibleUnclipped(c, init);
      VisibleInit(c, reqs);
      assert reqs == init + [reqs[|reqs| - 1]];
    }
  }

  /** Some effect of the trace paints the pixel. */
  predicate Painted(t: seq<Effect>, px: int, py: int)
  {
    exists k :: 0 <= k < |t| && Covers(t[k], px, py)
  }

  /** A concatenated trace paints a pixel when either part does. */
  lemma PaintedConcat(a: seq<Effect>, b: seq<Effect>, px: int, py: int)
    ensures Painted(a + b, px, py) <==> Painted(a, px, py) || Painted(b, px, py)
  {
    if Painted(a + b, px, py) {
      var k :| 0 <= k < |a + b| && Covers((a + b)[k], px, py);
      if k < |a| {
        assert Covers(a[k], px, py);
      } else {
        assert Covers(b[k - |a|], px, py);
      }
    }
    if Painted(a, px, py) {
      var k :| 0 <= k < |a| && Covers(a[k], px, py);
      assert (a + b)[k] == a[k];
    }
    if Painted(b, px, py) {
      var k :| 0 <= k < |b| && Covers(b[k], px, py);
      assert (a + b)[|a| + k] == b[k];
    }
  }

  /** Some requested call, once clipped, paints the pixel. */
  predicate SomeRequestCovers(c: Window, reqs: seq<Effect>, px: int, py: int)
    requires WindowOk(c) && Requests(reqs)
  {
    exists k :: 0 <= k < |reqs| && CoveredBy(Clip(c, reqs[k]), px, py)
  }

  lemma SomeRequestCoversSnoc(c: Window, reqs: seq<Effect>, px: int, py: int)
    requires WindowOk(c) && Requests(reqs) && reqs != []
    ensures SomeRequestCovers(c, reqs, px, py) <==>
      SomeRequestCovers(c, reqs[..|reqs| - 1], px, py) || CoveredBy(Clip(c, reqs[|reqs| - 1]), px, py)
  {
    var init := reqs[..|reqs| - 1];
    if SomeRequestCovers(c, reqs, px, py) {
      var k :| 0 <= k < |reqs| && CoveredBy(Clip(c, reqs[k]), px, py);
      if k < |init| {
        assert init[k] == reqs[k];
      }
    }
    if SomeRequestCovers(c, init, px, py) {
      var k :| 0 <= k < |init| && CoveredBy(Clip(c, init[k]), px, py);
      assert init[k] == reqs[k];
    }
  }

  /** A pixel is painted by the trace exactly when one of the requested
      calls paints it. */
  lemma {:induction false} PaintedVisible(c: Window, reqs: seq<Effect>, px: int, py: int)
    requires WindowOk(c) && Requests(reqs)
    ensures Painted(Visible(c, reqs), px, py) <==>
      exists k :: 0 <= k < |reqs| && CoveredBy(Clip(c, reqs[k]), px, py)
    decreases |reqs|
  {
    if reqs != [] {
      var init := reqs[..|reqs| - 1];
      var o := Clip(c, reqs[|reqs| - 1]);
      PaintedVisible(c, init, px, py);
      VisibleInit(c, reqs);
      PaintedConcat(Visible(c, init), Emit(o), px, py);
      assert Painted(Emit(o), px, py) <==> CoveredBy(o, px, py) by {
        if o.Some? {
          assert Emit(o)[0] == o.value;
        }
      }
      SomeRequestCoversSnoc(c, reqs, px, py);
    }
  }
}
