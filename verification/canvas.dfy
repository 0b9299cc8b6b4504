/**
 * The canvas widget's drawing surface and its raster primitives. The
 * source keeps one row-major buffer of `canvasWidth * canvasHeight` words
 * and writes word `y * canvasWidth + x` for pixel (x, y); here the buffer
 * is a sequence of rows, so pixel (x, y) is `rows[y][x]`.
 *
 * The outline primitives (line, rectangle, circle) are modelled as the
 * list of points they pass to `setPixel`, in order, and `Plot` applies
 * such a list to the surface.
 */
module Canvas {
  import opened Common

  datatype Surface = Surface(width: int, height: int, rows: seq<seq<Uint32>>)

  datatype Point = Point(x: int, y: int)

  predicate Valid(c: Surface) {
    c.width >= 1 && c.height >= 1 && |c.rows| == c.height &&
    forall y :: 0 <= y < |c.rows| ==> |c.rows[y]| == c.width
  }

  predicate InCanvas(c: Surface, x: int, y: int) {
    0 <= x < c.width && 0 <= y < c.height
  }

  function Pixel(c: Surface, x: int, y: int): Uint32
    requires Valid(c) && InCanvas(c, x, y)
  {
    c.rows[y][x]
  }

  /** Two surfaces of the same size. */
  predicate SameShape(c: Surface, d: Surface) {
    Valid(d) && d.width == c.width && d.height == c.height
  }

  /**
   * The constructor: the surface is the widget minus a one-pixel border on
   * each side, at least 1 x 1, filled with the background colour.
   */
  function New(widgetWidth: int, widgetHeight: int, background: Uint32): (c: Surface)
    ensures Valid(c)
    ensures c.width == Max(widgetWidth - 2, 1) && c.height == Max(widgetHeight - 2, 1)
    ensures forall x, y :: InCanvas(c, x, y) ==> Pixel(c, x, y) == background
  {
    var w := Max(widgetWidth - 2, 1);
    var h := Max(widgetHeight - 2, 1);
    Surface(w, h, Repeat(Repeat(background, w), h))
  }

  /** `clear`: every pixel takes the colour. */
  function Clear(c: Surface, color: Uint32): (r: Surface)
    requires Valid(c)
    ensures SameShape(c, r)
    ensures forall x, y :: InCanvas(r, x, y) ==> Pixel(r, x, y) == color
  {
    Surface(c.width, c.height, Repeat(Repeat(color, c.width), c.height))
  }

  /** `setPixel`: a write inside the surface, otherwise nothing. */
  function SetPixel(c: Surface, x: int, y: int, color: Uint32): (r: Surface)
    requires Valid(c)
    ensures SameShape(c, r)
    ensures forall qx, qy :: InCanvas(c, qx, qy) ==>
      Pixel(r, qx, qy) == if qx == x && qy == y then color else Pixel(c, qx, qy)
    ensures !InCanvas(c, x, y) ==> r == c
  {
    if 0 <= x < c.width && 0 <= y < c.height then
      var row: seq<Uint32> := c.rows[y][x := color];
      c.(rows := c.rows[y := row])
    else c
  }

  /** `setPixel` at each point in turn. */
  function Plot(c: Surface, pts: seq<Point>, color: Uint32): (r: Surface)
    requires Valid(c)
    ensures SameShape(c, r)
    decreases |pts|
  {
    if |pts| == 0 then c
    else Plot(SetPixel(c, pts[0].x, pts[0].y, color), pts[1..], color)
  }

  /** A pixel is painted iff some point of the list hits it; every other pixel keeps its colour. */
  lemma {:induction false} PlotPixels(c: Surface, pts: seq<Point>, color: Uint32, x: int, y: int)
    requires Valid(c) && InCanvas(c, x, y)
    ensures Pixel(Plot(c, pts, color), x, y) == if Point(x, y) in pts then color else Pixel(c, x, y)
    decreases |pts|
  {
    if |pts| > 0 {
      var d := SetPixel(c, pts[0].x, pts[0].y, color);
      PlotPixels(d, pts[1..], color, x, y);
      assert Point(x, y) in pts <==> Point(x, y) == pts[0] || Point(x, y) in pts[1..] by {
        assert pts == [pts[0]] + pts[1..];
      }
    }
  }

  /** The part of the rectangle [x, x+w) x [y, y+h) that `fillRect` paints. */
  predicate InRect(px: int, py: int, x: int, y: int, w: int, h: int) {
    x <= px < x + w && y <= py < y + h
  }

  /** `fillRect`: the rectangle clipped to the surface, row by row. */
  method FillRect(c: Surface, x: int, y: int, w: int, h: int, color: Uint32) returns (r: Surface)
    requires Valid(c)
    ensures SameShape(c, r)
    ensures forall qx, qy :: InCanvas(c, qx, qy) ==>
      Pixel(r, qx, qy) == if InRect(qx, qy, x, y, w, h) then color else Pixel(c, qx, qy)
  {
    var endX := Min(x + w, c.width);
    var endY := Min(y + h, c.height);
    var startX := Max(x, 0);
    var startY := Max(y, 0);
    var rows: seq<seq<Uint32>> := c.rows;
    var py := startY;
    while py < endY
      invariant py == startY || startY <= py <= endY
      invariant |rows| == c.height
      invariant forall qy :: 0 <= qy < c.height ==> |rows[qy]| == c.width
      invariant forall qx, qy :: 0 <= qx < c.width && 0 <= qy < c.height ==>
        rows[qy][qx] == if startY <= qy < py && startX <= qx < endX then color else c.rows[qy][qx]
    {
      var row := FillSpan(rows[py], startX, endX, color);
      rows := rows[py := row];
      py := py + 1;
    }
    r := Surface(c.width, c.height, rows);
  }

  /** The inner loop of `fillRect`: one row's columns [from, to). */
  method FillSpan(row: seq<Uint32>, from: int, to: int, color: Uint32) returns (r: seq<Uint32>)
    requires 0 <= from && to <= |row|
    ensures |r| == |row|
    ensures forall i :: 0 <= i < |row| ==> r[i] == if from <= i < to then color else row[i]
  {
    r := row;
    var px: int := from;
    while px < to
      invariant px == from || from <= px <= to
      invariant |r| == |row|
      invariant forall i :: 0 <= i < |row| ==> r[i] == if from <= i < px then color else row[i]
    {
      r := r[px := color];
      px := px + 1;
    }
  }

  /*
   * drawRect.
   */

  /** The points `drawRect` plots: top and bottom edges, then left and right edges. */
  function RectPoints(x: int, y: int, w: int, h: int): (pts: seq<Point>)
  {
    HorizontalEdges(x, y, w, h, 0) + VerticalEdges(x, y, w, h, 0)
  }

  function HorizontalEdges(x: int, y: int, w: int, h: int, i: nat): (pts: seq<Point>)
    ensures forall p :: p in pts ==> (p.y == y || p.y == y + h - 1) && x + i <= p.x < x + w
    decreases if i < w then w - i else 0
  {
    if i >= w then []
    else [Point(x + i, y), Point(x + i, y + h - 1)] + HorizontalEdges(x, y, w, h, i + 1)
  }

  function VerticalEdges(x: int, y: int, w: int, h: int, i: nat): (pts: seq<Point>)
    ensures forall p :: p in pts ==> (p.x == x || p.x == x + w - 1) && y + i <= p.y < y + h
    decreases if i < h then h - i else 0
  {
    if i >= h then []
    else [Point(x, y + i), Point(x + w - 1, y + i)] + VerticalEdges(x, y, w, h, i + 1)
  }

  /** On the outline of the rectangle [x, x+w) x [y, y+h). */
  predicate OnOutline(px: int, py: int, x: int, y: int, w: int, h: int) {
    ((py == y || py == y + h - 1) && x <= px < x + w) ||
    ((px == x || px == x + w - 1) && y <= py < y + h)
  }

  /** Every column of the top and bottom edges from `x + i` on is plotted. */
  lemma {:induction false} HorizontalEdgesCover(x: int, y: int, w: int, h: int, i: nat, px: int)
    requires x + i <= px < x + w
    ensures Point(px, y) in HorizontalEdges(x, y, w, h, i)
    ensures Point(px, y + h - 1) in HorizontalEdges(x, y, w, h, i)
    decreases w - i
  {
    if px > x + i {
      HorizontalEdgesCover(x, y, w, h, i + 1, px);
    }
  }

  /** Every row of the left and right edges from `y + i` on is plotted. */
  lemma {:induction false} VerticalEdgesCover(x: int, y: int, w: int, h: int, i: nat, py: int)
    requires y + i <= py < y + h
    ensures Point(x, py) in VerticalEdges(x, y, w, h, i)
    ensures Point(x + w - 1, py) in VerticalEdges(x, y, w, h, i)
    decreases h - i
  {
    if py > y + i {
      VerticalEdgesCover(x, y, w, h, i + 1, py);
    }
  }

  /** `drawRect` plots exactly the outline. */
  lemma RectPointsAreOutline(x: int, y: int, w: int, h: int, p: Point)
    ensures p in RectPoints(x, y, w, h) <==> OnOutline(p.x, p.y, x, y, w, h)
  {
    if (p.y == y || p.y == y + h - 1) && x <= p.x < x + w {
      HorizontalEdgesCover(x, y, w, h, 0, p.x);
    }
    if (p.x == x || p.x == x + w - 1) && y <= p.y < y + h {
      VerticalEdgesCover(x, y, w, h, 0, p.y);
    }
  }

  /** `drawRect`. */
  function DrawRect(c: Surface, x: int, y: int, w: int, h: int, color: Uint32): (r: Surface)
    requires Valid(c)
    ensures SameShape(c, r)
    ensures forall qx, qy :: InCanvas(c, qx, qy) ==>
      Pixel(r, qx, qy) == if OnOutline(qx, qy, x, y, w, h) then color else Pixel(c, qx, qy)
  {
    var r := Plot(c, RectPoints(x, y, w, h), color);
    assert forall qx, qy :: InCanvas(c, qx, qy) ==>
      Pixel(r, qx, qy) == if OnOutline(qx, qy, x, y, w, h) then color else Pixel(c, qx, qy) by {
      forall qx, qy | InCanvas(c, qx, qy)
        ensures Pixel(r, qx, qy) == if OnOutline(qx, qy, x, y, w, h) then color else Pixel(c, qx, qy)
      {
        PlotPixels(c, RectPoints(x, y, w, h), color, qx, qy);
        RectPointsAreOutline(x, y, w, h, Point(qx, qy));
      }
    }
    r
  }

  /*
   * drawLine.
   */

  /** One coordinate of a line step: stays, or moves by one toward the target. */
  predicate Toward(a: int, b: int, target: int) {
    b == a || (b == a + 1 && a < target) || (b == a - 1 && a > target)
  }

  /** A step of the line: a different point, each coordinate moving toward the end point. */
  predicate LineStep(p: Point, q: Point, end: Point) {
    p != q && Toward(p.x, q.x, end.x) && Toward(p.y, q.y, end.y)
  }

  lemma MulAtLeast(a: int, b: int)
    requires a >= 0 && b >= 1
    ensures a * b >= a
  {
  }

  datatype Tracer = Tracer(x: int, y: int, err: int)

  /** The state of Bresenham's loop: between the end points, with its error term balanced. */
  predicate LineInv(x1: int, y1: int, x2: int, y2: int, t: Tracer) {
    (if x1 < x2 then x1 <= t.x <= x2 else x2 <= t.x <= x1) &&
    (if y1 < y2 then y1 <= t.y <= y2 else y2 <= t.y <= y1) &&
    t.err == Abs(x2 - x1) - Abs(y2 - y1) + Abs(y2 - y1) * Abs(x2 - t.x) - Abs(x2 - x1) * Abs(y2 - t.y)
  }

  /** One pass of the loop of `drawLine` after the point is plotted. */
  function LineAdvance(x1: int, y1: int, x2: int, y2: int, t: Tracer): Tracer {
    var dx: int, dy: int := Abs(x2 - x1), Abs(y2 - y1);
    var sx := if x1 < x2 then 1 else -1;
    var sy := if y1 < y2 then 1 else -1;
    var e2 := 2 * t.err;
    var t1 := if e2 > -dy then Tracer(t.x + sx, t.y, t.err - dy) else t;
    if e2 < dx then Tracer(t1.x, t1.y + sy, t1.err + dx) else t1
  }

  /**
   * Bresenham's error term with dx, dy the spans of the line and rdx, rdy
   * the distances still to go: a coordinate moves only while it has
   * distance left, and some coordinate always moves.
   */
  lemma LineErrorMoves(dx: int, dy: int, rdx: int, rdy: int, err: int)
    requires 0 <= rdx <= dx && 0 <= rdy <= dy && (rdx > 0 || rdy > 0)
    requires err == dx - dy + dy * rdx - dx * rdy
    ensures 2 * err > -dy ==> rdx > 0
    ensures 2 * err < dx ==> rdy > 0
    ensures 2 * err > -dy || 2 * err < dx
  {
    if rdx == 0 { MulAtLeast(dx, rdy); }
    if rdy == 0 { MulAtLeast(dy, rdx); }
  }

  /** The error term after the moves, in terms of the new distances. */
  lemma LineErrorUpdate(dx: int, dy: int, rdx: int, rdy: int, err: int, mx: int, my: int)
    requires err == dx - dy + dy * rdx - dx * rdy
    ensures err - mx * dy + my * dx == dx - dy + dy * (rdx - mx) - dx * (rdy - my)
  {
    assert dy * (rdx - mx) == dy * rdx - mx * dy;
    assert dx * (rdy - my) == dx * rdy - my * dx;
  }

  /** Each pass moves toward the end point, one coordinate at least, and keeps the error term balanced. */
  lemma LineAdvanceSound(x1: int, y1: int, x2: int, y2: int, t: Tracer)
    requires LineInv(x1, y1, x2, y2, t) && !(t.x == x2 && t.y == y2)
    ensures LineInv(x1, y1, x2, y2, LineAdvance(x1, y1, x2, y2, t))
    ensures LineStep(Point(t.x, t.y), Point(LineAdvance(x1, y1, x2, y2, t).x, LineAdvance(x1, y1, x2, y2, t).y), Point(x2, y2))
    ensures Abs(x2 - LineAdvance(x1, y1, x2, y2, t).x) + Abs(y2 - LineAdvance(x1, y1, x2, y2, t).y) <
            Abs(x2 - t.x) + Abs(y2 - t.y)
  {
    var dx: int, dy: int := Abs(x2 - x1), Abs(y2 - y1);
    var rdx: int, rdy: int := Abs(x2 - t.x), Abs(y2 - t.y);
    LineErrorMoves(dx, dy, rdx, rdy, t.err);
    var mx := if 2 * t.err > -dy then 1 else 0;
    var my := if 2 * t.err < dx then 1 else 0;
    LineErrorUpdate(dx, dy, rdx, rdy, t.err, mx, my);
    var n := LineAdvance(x1, y1, x2, y2, t);
    assert n.err == t.err - mx * dy + my * dx;
    assert Abs(x2 - n.x) == rdx - mx;
    assert Abs(y2 - n.y) == rdy - my;
  }

  /** Consecutive points of a line are line steps toward its end. */
  predicate LineSteps(pts: seq<Point>, end: Point) {
    forall k :: 0 <= k < |pts| - 1 ==> LineStep(pts[k], pts[k + 1], end)
  }

  /**
   * The points `drawLine` plots (Bresenham's algorithm for all octants),
   * from the start point to the end point.
   */
  method LinePoints(x1: int, y1: int, x2: int, y2: int) returns (pts: seq<Point>)
    ensures |pts| >= 1 && pts[0] == Point(x1, y1) && pts[|pts| - 1] == Point(x2, y2)
    ensures LineSteps(pts, Point(x2, y2))
    ensures |pts| <= Abs(x2 - x1) + Abs(y2 - y1) + 1
  {
    var t := Tracer(x1, y1, Abs(x2 - x1) - Abs(y2 - y1));
    LineStart(x1, y1, x2, y2);
    pts := [Point(t.x, t.y)];
    while !(t.x == x2 && t.y == y2)
      invariant LineInv(x1, y1, x2, y2, t)
      invariant |pts| >= 1 && pts[0] == Point(x1, y1) && pts[|pts| - 1] == Point(t.x, t.y)
      invariant LineSteps(pts, Point(x2, y2))
      invariant |pts| + Abs(x2 - t.x) + Abs(y2 - t.y) <= Abs(x2 - x1) + Abs(y2 - y1) + 1
      decreases Abs(x2 - t.x) + Abs(y2 - t.y)
    {
      LinePointsStep(x1, y1, x2, y2, t, pts);
      t := LineAdvance(x1, y1, x2, y2, t);
      pts := pts + [Point(t.x, t.y)];
    }
  }

  /** The loop of `LinePoints` starts balanced at the start point. */
  lemma LineStart(x1: int, y1: int, x2: int, y2: int)
    ensures LineInv(x1, y1, x2, y2, Tracer(x1, y1, Abs(x2 - x1) - Abs(y2 - y1)))
  {
    var dx, dy := Abs(x2 - x1), Abs(y2 - y1);
    assert dy * dx == dx * dy;
  }

  /** One pass of the loop of `LinePoints` keeps its invariant and shortens the distance to go. */
  lemma LinePointsStep(x1: int, y1: int, x2: int, y2: int, t: Tracer, pts: seq<Point>)
    requires LineInv(x1, y1, x2, y2, t) && !(t.x == x2 && t.y == y2)
    requires |pts| >= 1 && pts[0] == Point(x1, y1) && pts[|pts| - 1] == Point(t.x, t.y)
    requires LineSteps(pts, Point(x2, y2))
    requires |pts| + Abs(x2 - t.x) + Abs(y2 - t.y) <= Abs(x2 - x1) + Abs(y2 - y1) + 1
    ensures var n := LineAdvance(x1, y1, x2, y2, t); var ps := pts + [Point(n.x, n.y)];
      LineInv(x1, y1, x2, y2, n) &&
      ps[0] == Point(x1, y1) && ps[|ps| - 1] == Point(n.x, n.y) &&
      LineSteps(ps, Point(x2, y2)) &&
      |ps| + Abs(x2 - n.x) + Abs(y2 - n.y) <= Abs(x2 - x1) + Abs(y2 - y1) + 1 &&
      Abs(x2 - n.x) + Abs(y2 - n.y) < Abs(x2 - t.x) + Abs(y2 - t.y)
  {
    var n := LineAdvance(x1, y1, x2, y2, t);
    var ps := pts + [Point(n.x, n.y)];
    LineAdvanceSound(x1, y1, x2, y2, t);
    assert LineSteps(ps, Point(x2, y2)) by {
      forall k | 0 <= k < |ps| - 1
        ensures LineStep(ps[k], ps[k + 1], Point(x2, y2))
      {
        if k < |pts| - 1 {
          assert ps[k] == pts[k] && ps[k + 1] == pts[k + 1];
        }
      }
    }
  }

  /** `drawLine`. */
  method DrawLine(c: Surface, x1: int, y1: int, x2: int, y2: int, color: Uint32) returns (r: Surface, pts: seq<Point>)
    requires Valid(c)
    ensures SameShape(c, r)
    ensures |pts| >= 1 && pts[0] == Point(x1, y1) && pts[|pts| - 1] == Point(x2, y2)
    ensures LineSteps(pts, Point(x2, y2))
    ensures forall x, y :: InCanvas(c, x, y) ==>
      Pixel(r, x, y) == if Point(x, y) in pts then color else Pixel(c, x, y)
    ensures InCanvas(c, x1, y1) ==> Pixel(r, x1, y1) == color
    ensures InCanvas(c, x2, y2) ==> Pixel(r, x2, y2) == color
  {
    pts := LinePoints(x1, y1, x2, y2);
    r := Plot(c, pts, color);
    forall x, y | InCanvas(c, x, y)
      ensures Pixel(r, x, y) == if Point(x, y) in pts then color else Pixel(c, x, y)
    {
      PlotPixels(c, pts, color, x, y);
    }
    if InCanvas(c, x1, y1) {
      PlotPixels(c, pts, color, x1, y1);
    }
    if InCanvas(c, x2, y2) {
      PlotPixels(c, pts, color, x2, y2);
    }
  }

  /*
   * drawCircle.
   */

  /** The eight points `drawCircle` plots for one offset (x, y), in the source's order. */
  function Octants(cx: int, cy: int, o: Point): (pts: seq<Point>)
    ensures |pts| == 8
  {
    var x, y := o.x, o.y;
    [Point(cx + x, cy + y), Point(cx + y, cy + x), Point(cx - y, cy + x), Point(cx - x, cy + y),
     Point(cx - x, cy - y), Point(cx - y, cy - x), Point(cx + y, cy - x), Point(cx + x, cy - y)]
  }

  /** All points plotted for a list of offsets. */
  function CirclePoints(cx: int, cy: int, offs: seq<Point>): (pts: seq<Point>)
    ensures |pts| == 8 * |offs|
    decreases |offs|
  {
    if |offs| == 0 then [] else Octants(cx, cy, offs[0]) + CirclePoints(cx, cy, offs[1..])
  }

  /** A midpoint step: y rises by at most one, x falls by at most one, and the point changes. */
  predicate MidpointStep(p: Point, q: Point) {
    q != p && p.y <= q.y <= p.y + 1 && p.x - 1 <= q.x <= p.x
  }

  /** One pass of the midpoint loop of `drawCircle` after the eight points are plotted. */
  function CircleAdvance(t: Tracer): (n: Tracer)
    ensures MidpointStep(Point(t.x, t.y), Point(n.x, n.y))
  {
    var t1 := if t.err <= 0 then Tracer(t.x, t.y + 1, t.err + 2 * (t.y + 1) + 1) else t;
    if t1.err > 0 then Tracer(t1.x - 1, t1.y, t1.err - (2 * (t1.x - 1) + 1)) else t1
  }

  /** Offsets in the first octant, below the radius, each a midpoint step after the previous one. */
  predicate OffsetSteps(offs: seq<Point>, radius: int) {
    (forall k :: 0 <= k < |offs| ==> 0 <= offs[k].y <= offs[k].x <= radius) &&
    forall k :: 0 <= k < |offs| - 1 ==> MidpointStep(offs[k], offs[k + 1])
  }

  lemma OffsetStepsAppend(offs: seq<Point>, p: Point, radius: int)
    requires OffsetSteps(offs, radius) && 0 <= p.y <= p.x <= radius
    requires |offs| > 0 ==> MidpointStep(offs[|offs| - 1], p)
    ensures OffsetSteps(offs + [p], radius)
  {
    var o := offs + [p];
    forall k | 0 <= k < |o| - 1
      ensures MidpointStep(o[k], o[k + 1])
    {
      if k < |offs| - 1 {
        assert o[k] == offs[k] && o[k + 1] == offs[k + 1];
      }
    }
  }

  /**
   * The offsets the midpoint loop of `drawCircle` visits: it starts at
   * (radius, 0), each step raises y or lowers x by one (or both), and it
   * runs while x >= y.
   */
  method CircleOffsets(radius: int) returns (offs: seq<Point>)
    ensures radius >= 0 ==> |offs| >= 1 && offs[0] == Point(radius, 0)
    ensures radius < 0 ==> offs == []
    ensures OffsetSteps(offs, radius)
  {
    var t := Tracer(radius, 0, 0);
    offs := [];
    while t.x >= t.y
      invariant t.y >= 0 && t.x <= radius
      invariant OffsetSteps(offs, radius)
      invariant |offs| > 0 ==> MidpointStep(offs[|offs| - 1], Point(t.x, t.y))
      invariant |offs| == 0 ==> t.x == radius && t.y == 0
      invariant |offs| >= 1 ==> offs[0] == Point(radius, 0)
      invariant radius < 0 ==> offs == []
      decreases t.x - t.y + 1
    {
      OffsetStepsAppend(offs, Point(t.x, t.y), radius);
      offs := offs + [Point(t.x, t.y)];
      t := CircleAdvance(t);
    }
  }

  /** The reflections of a point about the centre through the diagonal and the two axes. */
  function SwapAxes(cx: int, cy: int, p: Point): Point {
    Point(cx + (p.y - cy), cy + (p.x - cx))
  }

  function MirrorX(cx: int, p: Point): Point {
    Point(cx - (p.x - cx), p.y)
  }

  function MirrorY(cy: int, p: Point): Point {
    Point(p.x, cy - (p.y - cy))
  }

  /** The points of `drawCircle` are closed under the symmetries of the circle. */
  lemma {:induction false} CircleSymmetric(cx: int, cy: int, offs: seq<Point>, p: Point)
    requires p in CirclePoints(cx, cy, offs)
    ensures SwapAxes(cx, cy, p) in CirclePoints(cx, cy, offs)
    ensures MirrorX(cx, p) in CirclePoints(cx, cy, offs)
    ensures MirrorY(cy, p) in CirclePoints(cx, cy, offs)
    decreases |offs|
  {
    var head := Octants(cx, cy, offs[0]);
    var rest := CirclePoints(cx, cy, offs[1..]);
    assert CirclePoints(cx, cy, offs) == head + rest;
    if p in head {
      var k :| 0 <= k < 8 && head[k] == p;
      assert SwapAxes(cx, cy, p) in head;
      assert MirrorX(cx, p) in head;
      assert MirrorY(cy, p) in head;
    } else {
      CircleSymmetric(cx, cy, offs[1..], p);
    }
  }

  /** `drawCircle`: every painted pixel's mirror images inside the surface are painted too. */
  method DrawCircle(c: Surface, cx: int, cy: int, radius: int, color: Uint32) returns (r: Surface, pts: seq<Point>)
    requires Valid(c)
    ensures SameShape(c, r)
    ensures |pts| % 8 == 0 && (radius >= 0 <==> |pts| > 0)
    ensures forall x, y :: InCanvas(c, x, y) ==>
      Pixel(r, x, y) == if Point(x, y) in pts then color else Pixel(c, x, y)
    ensures radius >= 0 ==> (Point(cx + radius, cy) in pts && Point(cx, cy + radius) in pts &&
      Point(cx - radius, cy) in pts && Point(cx, cy - radius) in pts)
    ensures forall p :: p in pts ==>
      SwapAxes(cx, cy, p) in pts && MirrorX(cx, p) in pts && MirrorY(cy, p) in pts
  {
    var offs := CircleOffsets(radius);
    pts := CirclePoints(cx, cy, offs);
    forall p | p in pts
      ensures SwapAxes(cx, cy, p) in pts && MirrorX(cx, p) in pts && MirrorY(cy, p) in pts
    {
      CircleSymmetric(cx, cy, offs, p);
    }
    r := Plot(c, pts, color);
    forall x, y | InCanvas(c, x, y)
      ensures Pixel(r, x, y) == if Point(x, y) in pts then color else Pixel(c, x, y)
    {
      PlotPixels(c, pts, color, x, y);
    }
    if radius >= 0 {
      assert pts[..8] == Octants(cx, cy, Point(radius, 0));
      assert pts[0] == Point(cx + radius, cy);
      assert pts[1] == Point(cx, cy + radius);
      assert pts[3] == Point(cx - radius, cy);
      assert pts[5] == Point(cx, cy - radius);
    }
  }
}
