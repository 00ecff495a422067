/** Rectangles (hagl/hagl_rectangle.cpp): corner ordering, rejection of
    rectangles outside the clip window, the outline, the fill, and the
    rounded variants. Every call is modelled by the display calls it makes. */
module HaglRectangle {
  import opened CInt
  import opened HaglClip
  import opened Wrappers

  /** The swap without a temporary, `a = a + b; b = a - b; a = a - b`, with
      every assignment stored back into an int16_t. */
  function Exchange(a: int, b: int): (int, int)
  {
    var a1 := ToInt16(a + b);
    var b1 := ToInt16(a1 - b);
    (ToInt16(a1 - b1), b1)
  }

  lemma SumOfMultiples(u: int, v: int)
    requires u % TWO_16 == 0 && v % TWO_16 == 0
    ensures (u + v) % TWO_16 == 0
  {
    var p := u / TWO_16;
    var q := v / TWO_16;
    assert u + v == (p + q) * TWO_16;
  }

  /** Two int16 values that agree modulo 2^16 are equal. */
  lemma Int16Unique(u: int, v: int)
    requires IsInt16(u) && IsInt16(v) && (u - v) % TWO_16 == 0
    ensures u == v
  {
  }

  /** The exchange swaps every pair of int16 values, even when the sum a + b
      overflows: each intermediate is kept modulo 2^16, and so is the
      difference that recovers the other operand. */
  lemma ExchangeSwaps(a: int, b: int)
    requires IsInt16(a) && IsInt16(b)
    ensures Exchange(a, b) == (b, a)
  {
    var a1 := ToInt16(a + b);
    var b1 := ToInt16(a1 - b);
    var a2 := ToInt16(a1 - b1);
    // a1 = a + b and b1 = a1 - b modulo 2^16, so b1 = a.
    SumOfMultiples((a1 - b) - b1, a + b - a1);
    assert (a - b1) == ((a1 - b) - b1) + (a + b - a1);
    Int16Unique(a, b1);
    // a2 = a1 - b1 = (a + b) - a = b modulo 2^16.
    SumOfMultiples((a1 - b1) - a2, a + b - a1);
    assert b - a2 == ((a1 - b1) - a2) + (a + b - a1);
    Int16Unique(b, a2);
  }

  /** `if (a > b) swap`: the pair in ascending order. */
  function Ordered(a: int, b: int): (r: (int, int))
    requires IsInt16(a) && IsInt16(b)
    ensures r.0 <= r.1
    ensures r == (a, b) || r == (b, a)
  {
    if a > b then
      ExchangeSwaps(a, b);
      Exchange(a, b)
    else
      (a, b)
  }

  /** Ordered corners of a rectangle. */
  datatype Rect = Rect(x0: int, y0: int, x1: int, y1: int)

  predicate RectOk(n: Rect)
  {
    IsInt16(n.x0) && IsInt16(n.y0) && IsInt16(n.x1) && IsInt16(n.y1) && n.x0 <= n.x1 && n.y0 <= n.y1
  }

  /** The corner normalisation each rectangle function starts with. */
  function Normalize(x0: int, y0: int, x1: int, y1: int): (n: Rect)
    requires IsInt16(x0) && IsInt16(y0) && IsInt16(x1) && IsInt16(y1)
    ensures RectOk(n)
    ensures (n.x0, n.x1) == (x0, x1) || (n.x0, n.x1) == (x1, x0)
    ensures (n.y0, n.y1) == (y0, y1) || (n.y0, n.y1) == (y1, y0)
  {
    var xs := Ordered(x0, x1);
    var ys := Ordered(y0, y1);
    Rect(xs.0, ys.0, xs.1, ys.1)
  }

  /** The early return: the ordered rectangle ends before or starts after the clip. */
  predicate Misses(c: Window, n: Rect)
  {
    n.x1 < c.x0 || n.y1 < c.y0 || n.x0 > c.x1 || n.y0 > c.y1
  }

  predicate InRect(n: Rect, px: int, py: int)
  {
    n.x0 <= px <= n.x1 && n.y0 <= py <= n.y1
  }

  /** The rectangle lies in the clip window; a missed rectangle has no pixel
      in it. */
  lemma MissesHasNoVisiblePixel(c: Window, n: Rect, px: int, py: int)
    requires Misses(c, n) && InRect(n, px, py)
    ensures !InClip(c, px, py)
  {
  }

  /** Pixels on the border of a rectangle. */
  predicate OnOutline(n: Rect, px: int, py: int)
  {
    (n.x0 <= px <= n.x1 && (py == n.y0 || py == n.y1)) ||
    (n.y0 <= py <= n.y1 && (px == n.x0 || px == n.x1))
  }

  /** The four calls of hagl_draw_rectangle_xyxy for ordered corners: lines
      at y0 and y1 of width x1 - x0 + 1 and at x0 and x1 of height
      y1 - y0 + 1, both stored into a uint16. */
  function Outline(n: Rect, color: nat): (reqs: seq<Effect>)
    requires RectOk(n)
    ensures |reqs| == 4 && Requests(reqs)
  {
    var width := ToUInt16(n.x1 - n.x0 + 1);
    var height := ToUInt16(n.y1 - n.y0 + 1);
    [HSpan(n.x0, n.y0, width, color), HSpan(n.x0, n.y1, width, color),
     VSpan(n.x0, n.y0, height, color), VSpan(n.x1, n.y0, height, color)]
  }

  /** hagl_draw_rectangle_xyxy: the four border lines, each clipped. */
  function DrawRectangle(c: Window, x0: int, y0: int, x1: int, y1: int, color: nat): (t: seq<Effect>)
    requires WindowOk(c) && IsInt16(x0) && IsInt16(y0) && IsInt16(x1) && IsInt16(y1)
    ensures |t| <= 4 && AllInside(c, t)
    ensures Misses(c, Normalize(x0, y0, x1, y1)) ==> t == []
  {
    var n := Normalize(x0, y0, x1, y1);
    if n.x1 < c.x0 || n.y1 < c.y0 then []
    else if n.x0 > c.x1 || n.y0 > c.y1 then []
    else Visible(c, Outline(n, color))
  }

  /** A rectangle inside the clip window is drawn as its two horizontal
      edges of width x1 - x0 + 1 and its two vertical edges of height
      y1 - y0 + 1, in that order. */
  lemma DrawRectangleInside(c: Window, x0: int, y0: int, x1: int, y1: int, color: nat)
    requires WindowOk(c) && IsInt16(x0) && IsInt16(y0) && IsInt16(x1) && IsInt16(y1)
    requires InClip(c, x0, y0) && InClip(c, x1, y1)
    requires var n := Normalize(x0, y0, x1, y1); n.x1 - n.x0 + 1 < TWO_15 && n.y1 - n.y0 + 1 < TWO_15
    ensures var n := Normalize(x0, y0, x1, y1);
      var w := n.x1 - n.x0 + 1;
      var h := n.y1 - n.y0 + 1;
      DrawRectangle(c, x0, y0, x1, y1, color) ==
        [HSpan(n.x0, n.y0, w, color), HSpan(n.x0, n.y1, w, color),
         VSpan(n.x0, n.y0, h, color), VSpan(n.x1, n.y0, h, color)]
  {
    var n := Normalize(x0, y0, x1, y1);
    VisibleUnclipped(c, Outline(n, color));
  }

  /** With the clip window at the origin, the outline paints exactly the
      border pixels of the ordered rectangle that are in the clip window,
      for every rectangle narrower and lower than 2^15 pixels. */
  lemma DrawRectangleExact(c: Window, x0: int, y0: int, x1: int, y1: int, color: nat, px: int, py: int)
    requires WindowOk(c) && c.x0 == 0 && c.y0 == 0
    requires IsInt16(x0) && IsInt16(y0) && IsInt16(x1) && IsInt16(y1)
    requires var n := Normalize(x0, y0, x1, y1); n.x1 - n.x0 + 1 < TWO_15 && n.y1 - n.y0 + 1 < TWO_15
    ensures var n := Normalize(x0, y0, x1, y1);
      Painted(DrawRectangle(c, x0, y0, x1, y1, color), px, py) <==> OnOutline(n, px, py) && InClip(c, px, py)
  {
    var n := Normalize(x0, y0, x1, y1);
    if !Misses(c, n) {
      OutlineExact(c, n, color, px, py);
    }
  }

  lemma OutlineExact(c: Window, n: Rect, color: nat, px: int, py: int)
    requires WindowOk(c) && c.x0 == 0 && c.y0 == 0 && RectOk(n)
    requires n.x1 - n.x0 + 1 < TWO_15 && n.y1 - n.y0 + 1 < TWO_15
    ensures Painted(Visible(c, Outline(n, color)), px, py) <==> OnOutline(n, px, py) && InClip(c, px, py)
  {
    var reqs := Outline(n, color);
    PaintedVisible(c, reqs, px, py);
    SomeOfFour(c, reqs, px, py);
    OutlineRows(c, n, color, px, py);
    OutlineColumns(c, n, color, px, py);
  }

  lemma OutlineRows(c: Window, n: Rect, color: nat, px: int, py: int)
    requires WindowOk(c) && c.x0 == 0 && c.y0 == 0 && RectOk(n)
    requires n.x1 - n.x0 + 1 < TWO_15 && n.y1 - n.y0 + 1 < TWO_15
    ensures var reqs := Outline(n, color);
      CoveredBy(Clip(c, reqs[0]), px, py) || CoveredBy(Clip(c, reqs[1]), px, py) <==>
      (py == n.y0 || py == n.y1) && n.x0 <= px <= n.x1 && InClip(c, px, py)
  {
    var w := n.x1 - n.x0 + 1;
    HLineExact(c, n.x0, n.y0, w, color, px, py);
    HLineExact(c, n.x0, n.y1, w, color, px, py);
  }

  lemma OutlineColumns(c: Window, n: Rect, color: nat, px: int, py: int)
    requires WindowOk(c) && c.x0 == 0 && c.y0 == 0 && RectOk(n)
    requires n.x1 - n.x0 + 1 < TWO_15 && n.y1 - n.y0 + 1 < TWO_15
    ensures var reqs := Outline(n, color);
      CoveredBy(Clip(c, reqs[2]), px, py) || CoveredBy(Clip(c, reqs[3]), px, py) <==>
      (px == n.x0 || px == n.x1) && n.y0 <= py <= n.y1 && InClip(c, px, py)
  {
    var h := n.y1 - n.y0 + 1;
    VLineExact(c, n.x0, n.y0, h, color, px, py);
    VLineExact(c, n.x1, n.y0, h, color, px, py);
  }

  lemma SomeOfFour(c: Window, reqs: seq<Effect>, px: int, py: int)
    requires WindowOk(c) && Requests(reqs) && |reqs| == 4
    ensures (exists k :: 0 <= k < |reqs| && CoveredBy(Clip(c, reqs[k]), px, py)) <==>
      CoveredBy(Clip(c, reqs[0]), px, py) || CoveredBy(Clip(c, reqs[1]), px, py) ||
      CoveredBy(Clip(c, reqs[2]), px, py) || CoveredBy(Clip(c, reqs[3]), px, py)
  {
  }

  /** The ordered rectangle after clamping it to the clip window. */
  function ClampTo(c: Window, n: Rect): Rect
  {
    Rect(if n.x0 > c.x0 then n.x0 else c.x0, if n.y0 > c.y0 then n.y0 else c.y0,
         if n.x1 < c.x1 then n.x1 else c.x1, if n.y1 < c.y1 then n.y1 else c.y1)
  }

  /** What hagl_fill_rectangle_xyxy hands to the display: one span per row of
      the clamped rectangle, top to bottom, each as wide as the clamped
      rectangle. */
  function FillRows(c: Window, x0: int, y0: int, x1: int, y1: int, color: nat): (t: seq<Effect>)
    requires WindowOk(c) && IsInt16(x0) && IsInt16(y0) && IsInt16(x1) && IsInt16(y1)
  {
    var n := Normalize(x0, y0, x1, y1);
    if Misses(c, n) then []
    else
      var m := ClampTo(c, n);
      seq(m.y1 - m.y0 + 1, i => HSpan(m.x0, m.y0 + i, m.x1 - m.x0 + 1, color))
  }

  /** The fill paints exactly the pixels of the ordered rectangle that lie in
      the clip window, whatever the window, and every span is inside it. */
  lemma FillRowsExact(c: Window, x0: int, y0: int, x1: int, y1: int, color: nat, px: int, py: int)
    requires WindowOk(c) && IsInt16(x0) && IsInt16(y0) && IsInt16(x1) && IsInt16(y1)
    ensures AllInside(c, FillRows(c, x0, y0, x1, y1, color))
    ensures Painted(FillRows(c, x0, y0, x1, y1, color), px, py) <==>
      InRect(Normalize(x0, y0, x1, y1), px, py) && InClip(c, px, py)
  {
    var n := Normalize(x0, y0, x1, y1);
    var t := FillRows(c, x0, y0, x1, y1, color);
    if !Misses(c, n) {
      var m := ClampTo(c, n);
      if InRect(n, px, py) && InClip(c, px, py) {
        assert Covers(t[py - m.y0], px, py);
      }
    }
  }

  /** hagl_fill_rectangle_xyxy. */
  method FillRectangle(c: Window, x0: int, y0: int, x1: int, y1: int, color: nat) returns (t: seq<Effect>)
    requires WindowOk(c) && IsInt16(x0) && IsInt16(y0) && IsInt16(x1) && IsInt16(y1)
    ensures t == FillRows(c, x0, y0, x1, y1, color)
  {
    var n := Normalize(x0, y0, x1, y1);
    t := [];
    if n.x1 < c.x0 || n.y1 < c.y0 {
      return;
    }
    if n.x0 > c.x1 || n.y0 > c.y1 {
      return;
    }
    var left := if n.x0 > c.x0 then n.x0 else c.x0;
    var top := if n.y0 > c.y0 then n.y0 else c.y0;
    var right := if n.x1 < c.x1 then n.x1 else c.x1;
    var bottom := if n.y1 < c.y1 then n.y1 else c.y1;
    var width := ToUInt16(right - left + 1);
    var height := ToUInt16(bottom - top + 1);
    ghost var spec := FillRows(c, x0, y0, x1, y1, color);
    var i := 0;
    while i < height
      invariant 0 <= i <= height && |spec| == height
      invariant t == spec[..i]
    {
      t := t + [HSpan(left, ToInt16(top + i), width, color)];
      i := i + 1;
    }
    assert spec[..height] == spec;
  }

  /** `r = MIN(r, MIN(width / 2, height / 2))`: the radius is at most half of
      the shorter side and never grows. */
  function ClampRadius(r: int, width: int, height: int): (rr: int)
    requires IsInt16(r) && IsUInt16(width) && IsUInt16(height)
    ensures IsInt16(rr)
    ensures rr <= r && rr <= width / 2 && rr <= height / 2
    ensures rr == r || rr == width / 2 || rr == height / 2
  {
    var half := if width / 2 < height / 2 then width / 2 else height / 2;
    ToInt16(if r < half then r else half)
  }

  /** The clamped radius of a rounded rectangle. */
  function Radius(n: Rect, r: int): int
    requires RectOk(n) && IsInt16(r)
  {
    ClampRadius(r, ToUInt16(n.x1 - n.x0 + 1), ToUInt16(n.y1 - n.y0 + 1))
  }

  /** The four straight-edge calls of a rounded rectangle, each r pixels
      shorter at both ends. */
  function EdgeRequests(n: Rect, rr: int, color: nat): (reqs: seq<Effect>)
    requires RectOk(n) && IsInt16(rr)
    ensures |reqs| == 4 && Requests(reqs)
  {
    var width := ToUInt16(n.x1 - n.x0 + 1);
    var height := ToUInt16(n.y1 - n.y0 + 1);
    [HSpan(ToInt16(n.x0 + rr), n.y0, ToUInt16(width - 2 * rr), color),
     HSpan(ToInt16(n.x0 + rr), n.y1, ToUInt16(width - 2 * rr), color),
     VSpan(n.x0, ToInt16(n.y0 + rr), ToUInt16(height - 2 * rr), color),
     VSpan(n.x1, ToInt16(n.y0 + rr), ToUInt16(height - 2 * rr), color)]
  }

  /** Inside the clip window, the straight edges run from x0 + r to x1 - r
      along the top and bottom, and from y0 + r to y1 - r along the sides. */
  lemma RoundedEdgesInside(c: Window, n: Rect, rr: int, color: nat)
    requires WindowOk(c) && RectOk(n) && InClip(c, n.x0, n.y0) && InClip(c, n.x1, n.y1)
    requires n.x1 - n.x0 + 1 < TWO_15 && n.y1 - n.y0 + 1 < TWO_15
    requires 0 <= rr && 2 * rr < n.x1 - n.x0 + 1 && 2 * rr < n.y1 - n.y0 + 1
    ensures Visible(c, EdgeRequests(n, rr, color)) ==
      [HSpan(n.x0 + rr, n.y0, (n.x1 - rr) - (n.x0 + rr) + 1, color),
       HSpan(n.x0 + rr, n.y1, (n.x1 - rr) - (n.x0 + rr) + 1, color),
       VSpan(n.x0, n.y0 + rr, (n.y1 - rr) - (n.y0 + rr) + 1, color),
       VSpan(n.x1, n.y0 + rr, (n.y1 - rr) - (n.y0 + rr) + 1, color)]
  {
    VisibleUnclipped(c, EdgeRequests(n, rr, color));
  }

  /** One pass of the midpoint loop over the int16 counters x, y and the
      decision variable d: x always advances, y steps down when d > 0. */
  function MidpointStep(x: int, y: int, d: int): (r: (int, int, int))
    requires 0 <= x <= y < TWO_15 - 1
    ensures r.0 == x + 1 && (r.1 == y || r.1 == y - 1) && IsInt16(r.2)
    ensures r.1 == y - 1 <==> d > 0
  {
    var x1 := ToInt16(x + 1);
    if d > 0 then
      var y1 := ToInt16(y - 1);
      (x1, y1, ToInt16(d + 4 * (x1 - y1) + 10))
    else
      (x1, y, ToInt16(d + 4 * x1 + 6))
  }

  /** The eight hagl_put_pixel calls of one step of the corner arcs: the
      midpoint circle's octant point (x, y) mirrored into the four corners. */
  function ArcRequests(n: Rect, rr: int, x: int, y: int, color: nat): (reqs: seq<Effect>)
    ensures |reqs| == 8 && Requests(reqs)
  {
    [Pixel(ToInt16(n.x1 - rr + x), ToInt16(n.y0 + rr - y), color),
     Pixel(ToInt16(n.x1 - rr + y), ToInt16(n.y0 + rr - x), color),
     Pixel(ToInt16(n.x0 + rr - x), ToInt16(n.y0 + rr - y), color),
     Pixel(ToInt16(n.x0 + rr - y), ToInt16(n.y0 + rr - x), color),
     Pixel(ToInt16(n.x1 - rr + x), ToInt16(n.y1 - rr + y), color),
     Pixel(ToInt16(n.x1 - rr + y), ToInt16(n.y1 - rr + x), color),
     Pixel(ToInt16(n.x0 + rr - x), ToInt16(n.y1 - rr + y), color),
     Pixel(ToInt16(n.x0 + rr - y), ToInt16(n.y1 - rr + x), color)]
  }

  /** hagl_draw_rounded_rectangle_xyxy. The radius is clamped, the straight
      edges are drawn, then the midpoint loop plots the corner arcs; it runs
      at most r + 1 times. Every pixel reaching the display is in the clip
      window. */
  method DrawRoundedRectangle(c: Window, x0: int, y0: int, x1: int, y1: int, r: int, color: nat)
    returns (t: seq<Effect>)
    requires WindowOk(c) && IsInt16(x0) && IsInt16(y0) && IsInt16(x1) && IsInt16(y1) && IsInt16(r)
    requires Radius(Normalize(x0, y0, x1, y1), r) < TWO_15 - 1
    ensures var n := Normalize(x0, y0, x1, y1);
      var rr := Radius(n, r);
      (Misses(c, n) ==> t == []) &&
      (!Misses(c, n) ==>
        |Visible(c, EdgeRequests(n, rr, color))| <= |t| <= |Visible(c, EdgeRequests(n, rr, color))| + 8 * (if rr < 0 then 0 else rr + 1) &&
        t[..|Visible(c, EdgeRequests(n, rr, color))|] == Visible(c, EdgeRequests(n, rr, color)))
    ensures AllInside(c, t)
  {
    var n := Normalize(x0, y0, x1, y1);
    t := [];
    if n.x1 < c.x0 || n.y1 < c.y0 {
      return;
    }
    if n.x0 > c.x1 || n.y0 > c.y1 {
      return;
    }
    var rr := Radius(n, r);
    var edges := Visible(c, EdgeRequests(n, rr, color));
    var arcs := CornerArcs(c, n, rr, color);
    t := edges + arcs;
    assert t[..|edges|] == edges;
  }

  /** The midpoint loop of hagl_draw_rounded_rectangle_xyxy: at most r + 1
      passes of eight clipped pixels. */
  method CornerArcs(c: Window, n: Rect, rr: int, color: nat) returns (t: seq<Effect>)
    requires WindowOk(c) && RectOk(n) && IsInt16(rr) && rr < TWO_15 - 1
    ensures |t| <= 8 * (if rr < 0 then 0 else rr + 1)
    ensures AllInside(c, t)
  {
    t := [];
    var x := 0;
    var y := rr;
    var d := ToInt16(3 - 2 * rr);
    while y >= x
      invariant (x == 0 && y == rr) || (0 < x <= rr + 1 && y <= rr && x <= y + 2)
      invariant |t| <= 8 * x
      invariant AllInside(c, t)
      decreases y - x + 2
    {
      var step := MidpointStep(x, y, d);
      x, y, d := step.0, step.1, step.2;
      var arc := Visible(c, ArcRequests(n, rr, x, y, color));
      t := t + arc;
    }
  }

  /** The four hagl_draw_hline calls of one step of the filled corners.
      Each span starts at rx0 and is rx1 - rx0 pixels wide. */
  function CapRequests(n: Rect, rr: int, x: int, y: int, color: nat): (reqs: seq<Effect>)
    ensures |reqs| == 4 && Requests(reqs)
  {
    var top1 := ToInt16(n.y0 + rr - x);
    var left1 := ToInt16(n.x0 + rr - y);
    var right1 := ToInt16(n.x1 - rr + y);
    var top2 := ToInt16(n.y0 + rr - y);
    var left2 := ToInt16(n.x0 + rr - x);
    var right2 := ToInt16(n.x1 - rr + x);
    var bottom1 := ToInt16(n.y1 - rr + y);
    var bottom2 := ToInt16(n.y1 - rr + x);
    [HSpan(left1, top1, ToUInt16(right1 - left1), color),
     HSpan(left2, top2, ToUInt16(right2 - left2), color),
     HSpan(left2, bottom1, ToUInt16(right2 - left2), color),
     HSpan(left1, bottom2, ToUInt16(right1 - left1), color)]
  }

  /** The trace ends with the band, preceded by at most maxCaps effects
      inside the clip window. */
  predicate CapsThenBand(c: Window, t: seq<Effect>, band: seq<Effect>, maxCaps: int)
  {
    |band| <= |t| <= |band| + maxCaps && t[|t| - |band|..] == band && AllInside(c, t[..|t| - |band|])
  }

  lemma CapsThenBandConcat(c: Window, caps: seq<Effect>, band: seq<Effect>, maxCaps: int)
    requires AllInside(c, caps) && |caps| <= maxCaps
    ensures CapsThenBand(c, caps + band, band, maxCaps)
  {
    assert (caps + band)[..|caps|] == caps;
    assert (caps + band)[|caps|..] == band;
  }

  /** hagl_fill_rounded_rectangle_xyxy: spans for the corner caps, then the
      centre band from y0 + r to y1 - r filled by the rectangle fill. */
  method FillRoundedRectangle(c: Window, x0: int, y0: int, x1: int, y1: int, r: int, color: nat)
    returns (t: seq<Effect>)
    requires WindowOk(c) && IsInt16(x0) && IsInt16(y0) && IsInt16(x1) && IsInt16(y1) && IsInt16(r)
    requires Radius(Normalize(x0, y0, x1, y1), r) < TWO_15 - 1
    ensures var n := Normalize(x0, y0, x1, y1);
      var rr := Radius(n, r);
      var band := FillRows(c, n.x0, ToInt16(n.y0 + rr), n.x1, ToInt16(n.y1 - rr), color);
      (Misses(c, n) ==> t == []) &&
      (!Misses(c, n) ==>
        CapsThenBand(c, t, band, 4 * (if rr < 0 then 0 else rr + 1)))
  {
    var n := Normalize(x0, y0, x1, y1);
    t := [];
    if n.x1 < c.x0 || n.y1 < c.y0 {
      return;
    }
    if n.x0 > c.x1 || n.y0 > c.y1 {
      return;
    }
    var rr := Radius(n, r);
    t := CapsAndBand(c, n, rr, color);
  }

  /** The corner caps followed by the centre band y0 + r .. y1 - r. */
  method CapsAndBand(c: Window, n: Rect, rr: int, color: nat) returns (t: seq<Effect>)
    requires WindowOk(c) && RectOk(n) && IsInt16(rr) && rr < TWO_15 - 1
    ensures CapsThenBand(c, t, FillRows(c, n.x0, ToInt16(n.y0 + rr), n.x1, ToInt16(n.y1 - rr), color),
      4 * (if rr < 0 then 0 else rr + 1))
  {
    var caps := CornerCaps(c, n, rr, color);
    var band := FillRectangle(c, n.x0, ToInt16(n.y0 + rr), n.x1, ToInt16(n.y1 - rr), color);
    t := caps + band;
    CapsThenBandConcat(c, caps, band, 4 * (if rr < 0 then 0 else rr + 1));
  }

  /** The midpoint loop of hagl_fill_rounded_rectangle_xyxy: at most r + 1
      passes of four clipped spans. */
  method CornerCaps(c: Window, n: Rect, rr: int, color: nat) returns (t: seq<Effect>)
    requires WindowOk(c) && RectOk(n) && IsInt16(rr) && rr < TWO_15 - 1
    ensures |t| <= 4 * (if rr < 0 then 0 else rr + 1)
    ensures AllInside(c, t)
  {
    t := [];
    var x := 0;
    var y := rr;
    var d := ToInt16(3 - 2 * rr);
    while y >= x
      invariant (x == 0 && y == rr) || (0 < x <= rr + 1 && y <= rr && x <= y + 2)
      invariant |t| <= 4 * x
      invariant AllInside(c, t)
      decreases y - x + 2
    {
      var step := MidpointStep(x, y, d);
      x, y, d := step.0, step.1, step.2;
      var caps := Visible(c, CapRequests(n, rr, x, y, color));
      t := t + caps;
    }
  }
}
