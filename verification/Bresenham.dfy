/**
 The line of `GRAPHICS_DrawLine`: integer stepping from one end point to the other.
 */
module Bresenham {
  import opened Arith

  datatype Point = Point(x: int, y: int)

  function Abs(n: int): (a: int)
    ensures a >= 0 && (a == n || a == -n)
  {
    if n < 0 then -n else n
  }

  function Max(a: int, b: int): (m: int)
    ensures m >= a && m >= b && (m == a || m == b)
  {
    if a < b then b else a
  }

  /** `from < to ? 1 : -1` */
  function Sign(from: int, to: int): (s: int)
    ensures s == 1 || s == -1
  {
    if from < to then 1 else -1
  }

  predicate Fits32(n: int) { -0x8000_0000 <= n < 0x8000_0000 }

  /** Three times the longer axis fits in 32 bits: `2 * err` can come that close to the limit. */
  predicate Drawable(x1: int, y1: int, x2: int, y2: int) {
    Fits32(x1) && Fits32(y1) && Fits32(x2) && Fits32(y2) && Fits32(3 * Max(Abs(x2 - x1), Abs(y2 - y1)))
  }

  /** How far p is along the line on one axis, counted from its start in the line's direction. */
  function Along(from: int, to: int, c: int): int {
    (c - from) * Sign(from, to)
  }

  /** The deviation of p from the ideal line, scaled by dx times dy: 0 on the line itself. */
  function Deviation(x1: int, y1: int, x2: int, y2: int, p: Point): int {
    Along(x1, x2, p.x) * Abs(y2 - y1) - Along(y1, y2, p.y) * Abs(x2 - x1)
  }

  /** The point that is a and b steps along the two axes. */
  function At(x1: int, y1: int, x2: int, y2: int, a: int, b: int): (p: Point)
    ensures Along(x1, x2, p.x) == a && Along(y1, y2, p.y) == b
  {
    Point(x1 + Sign(x1, x2) * a, y1 + Sign(y1, y2) * b)
  }

  /** Along the longer axis each point is one step further; across, it is the pixel nearest to the ideal line. */
  ghost predicate OnLine(x1: int, y1: int, x2: int, y2: int, k: int, p: Point) {
    var dx, dy := Abs(x2 - x1), Abs(y2 - y1);
    && k == (if dx >= dy then Along(x1, x2, p.x) else Along(y1, y2, p.y))
    && 2 * Abs(Deviation(x1, y1, x2, y2, p)) <= Max(dx, dy)
  }

  /** What one iteration does to the steps taken and the deviation. */
  lemma StepKeepsClose(dx: int, dy: int, dev: int)
    requires dx >= 0 && dy >= 0 && 2 * Abs(dev) <= Max(dx, dy)
    ensures var e2 := 2 * (dx - dy - dev); var goX, goY := e2 >= -dy, e2 <= dx;
      && (if dx >= dy then goX else goY)
      && 2 * Abs(dev + (if goX then dy else 0) - (if goY then dx else 0)) <= Max(dx, dy)
      && (Fits32(3 * Max(dx, dy)) ==> Fits32(e2) && Fits32(dx - dy - dev))
  {
  }

  /** A point of the line that has gone the whole longer axis is the end point. */
  lemma EndReached(dx: int, dy: int, a: int, b: int, dev: int)
    requires dx >= 0 && dy >= 0 && dev == a * dy - b * dx && 2 * Abs(dev) <= Max(dx, dy)
    requires if dx >= dy then a == dx else b == dy
    requires Max(dx, dy) > 0
    ensures a == dx && b == dy
  {
    if dx >= dy {
      Distribute(dy, -b, dx);
      Negate(b, dx);
      assert (dy - b) * dx == dx * dy - b * dx;
      Close(dx, dy - b, dev);
    } else {
      Distribute(a, -dx, dy);
      Negate(dx, dy);
      assert (a - dx) * dy == a * dy - dy * dx;
      Close(dy, a - dx, dev);
    }
  }

  lemma Close(d: int, n: int, dev: int)
    requires d >= 0 && dev == n * d && 2 * Abs(dev) <= d && d > 0
    ensures n == 0
  {
    Negate(n, d);
    if n > 0 {
      MulMonotone(1, n, d);
    } else if n < 0 {
      MulMonotone(1, -n, d);
    }
  }

  lemma SignedDistance(from: int, to: int)
    ensures from + Sign(from, to) * Abs(to - from) == to
  {
  }

  /** The deviation after a and b steps. */
  function Dev(dx: int, dy: int, a: int, b: int): int {
    a * dy - b * dx
  }

  lemma DevSteps(dx: int, dy: int, a: int, b: int)
    ensures Dev(dx, dy, 0, 0) == 0
    ensures Dev(dx, dy, a + 1, b) == Dev(dx, dy, a, b) + dy
    ensures Dev(dx, dy, a, b + 1) == Dev(dx, dy, a, b) - dx
  {
    Distribute(a, 1, dy);
    Distribute(b, 1, dx);
  }

  lemma AtSteps(x1: int, y1: int, x2: int, y2: int, a: int, b: int)
    ensures At(x1, y1, x2, y2, 0, 0) == Point(x1, y1)
    ensures At(x1, y1, x2, y2, a + 1, b) == Point(At(x1, y1, x2, y2, a, b).x + Sign(x1, x2), At(x1, y1, x2, y2, a, b).y)
    ensures At(x1, y1, x2, y2, a, b + 1) == Point(At(x1, y1, x2, y2, a, b).x, At(x1, y1, x2, y2, a, b).y + Sign(y1, y2))
  {
  }

  /** The state of the loop after a and b steps, when n pixels are drawn. */
  predicate Progress(x1: int, y1: int, x2: int, y2: int, a: int, b: int, x: int, y: int, err: int, n: int) {
    var dx, dy := Abs(x2 - x1), Abs(y2 - y1);
    && a >= 0 && b >= 0 && Point(x, y) == At(x1, y1, x2, y2, a, b) && n == (if dx >= dy then a else b) && n <= Max(dx, dy)
    && err == dx - dy - Dev(dx, dy, a, b) && 2 * Abs(Dev(dx, dy, a, b)) <= Max(dx, dy) && (n == 0 ==> a == b == 0)
  }

  lemma Started(x1: int, y1: int, x2: int, y2: int)
    ensures Progress(x1, y1, x2, y2, 0, 0, x1, y1, Abs(x2 - x1) - Abs(y2 - y1), 0)
  {
    hide At, Dev;
    DevSteps(Abs(x2 - x1), Abs(y2 - y1), 0, 0);
    AtSteps(x1, y1, x2, y2, 0, 0);
  }

  /** The two conditional steps of an iteration, from a point that is not the end. */
  lemma Stepped(x1: int, y1: int, x2: int, y2: int, a: int, b: int, x: int, y: int, err: int, n: int)
    requires Progress(x1, y1, x2, y2, a, b, x, y, err, n) && n < Max(Abs(x2 - x1), Abs(y2 - y1))
    ensures var dx, dy, e2 := Abs(x2 - x1), Abs(y2 - y1), 2 * err;
      var goX, goY := e2 >= -dy, e2 <= dx;
      && Progress(x1, y1, x2, y2, if goX then a + 1 else a, if goY then b + 1 else b,
                  if goX then x + Sign(x1, x2) else x, if goY then y + Sign(y1, y2) else y,
                  err + (if goX then -dy else 0) + (if goY then dx else 0), n + 1)
      && (Fits32(3 * Max(dx, dy)) ==> Fits32(e2))
  {
    hide At, Dev, Sign;
    var dx, dy, e2 := Abs(x2 - x1), Abs(y2 - y1), 2 * err;
    StepKeepsClose(dx, dy, Dev(dx, dy, a, b));
    DevSteps(dx, dy, a, b);
    AtSteps(x1, y1, x2, y2, a, b);
    var a' := if e2 >= -dy then a + 1 else a;
    DevSteps(dx, dy, a', b);
    AtSteps(x1, y1, x2, y2, a', b);
  }

  /** The point reached lies on the line, and it is the end point exactly after the whole longer axis. */
  lemma PointOnLine(x1: int, y1: int, x2: int, y2: int, a: int, b: int, x: int, y: int, err: int, n: int)
    requires Progress(x1, y1, x2, y2, a, b, x, y, err, n)
    ensures OnLine(x1, y1, x2, y2, n, Point(x, y)) && 0 <= n && (n == 0 ==> x == x1 && y == y1)
    ensures x == x2 && y == y2 <==> n == Max(Abs(x2 - x1), Abs(y2 - y1))
  {
    var dx, dy := Abs(x2 - x1), Abs(y2 - y1);
    SignedDistance(x1, x2);
    SignedDistance(y1, y2);
    if n == Max(dx, dy) && Max(dx, dy) > 0 {
      EndReached(dx, dy, a, b, Dev(dx, dy, a, b));
    }
  }

  /** `GRAPHICS_DrawLine`, as the sequence of pixels it draws */
  method DrawLine(x1: int, y1: int, x2: int, y2: int) returns (drawn: seq<Point>)
    requires Drawable(x1, y1, x2, y2)
    ensures |drawn| == Max(Abs(x2 - x1), Abs(y2 - y1)) + 1
    ensures drawn[0] == Point(x1, y1) && drawn[|drawn| - 1] == Point(x2, y2)
    ensures forall k :: 0 <= k < |drawn| ==> OnLine(x1, y1, x2, y2, k, drawn[k])
  {
    hide OnLine, Progress, Sign;
    var dx, sx := Abs(x2 - x1), Sign(x1, x2);
    var dy, sy := -Abs(y2 - y1), Sign(y1, y2);
    var err := dx + dy;
    var x, y := x1, y1;
    drawn := [];
    ghost var a, b := 0, 0;
    Started(x1, y1, x2, y2);
    while true
      invariant Progress(x1, y1, x2, y2, a, b, x, y, err, |drawn|) && |drawn| <= Max(dx, -dy)
      invariant forall k :: 0 <= k < |drawn| ==> OnLine(x1, y1, x2, y2, k, drawn[k])
      invariant |drawn| > 0 ==> drawn[0] == Point(x1, y1)
      decreases Max(dx, -dy) - |drawn|
    {
      PointOnLine(x1, y1, x2, y2, a, b, x, y, err, |drawn|);
      ghost var n := |drawn|;
      drawn := drawn + [Point(x, y)];
      if x == x2 && y == y2 {
        break;
      }
      Stepped(x1, y1, x2, y2, a, b, x, y, err, n);
      var e2 := 2 * err;
      assert Fits32(e2);
      if e2 >= dy {
        err, x, a := err + dy, x + sx, a + 1;
      }
      if e2 <= dx {
        err, y, b := err + dx, y + sy, b + 1;
      }
    }
  }
}
