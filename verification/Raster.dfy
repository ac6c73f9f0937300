// Line and circle drawing of kernel/graphics/graphics.c: the points that
// gfx_draw_line and gfx_draw_circle visit, how many, and how far from the ideal
// curve.  The methods return the points in the order they are drawn.
module Raster {
  import opened Bits

  const INT_MAX := 0x7fff_ffff

  predicate IsInt(v: int) { -INT_MAX - 1 <= v <= INT_MAX }

  datatype Point = Point(x: int, y: int)

  function Abs(v: int): nat { if v < 0 then -v else v }

  function Max(a: int, b: int): int { if a < b then b else a }

  // ------------------------------------------------------------------------
  // Lines
  // ------------------------------------------------------------------------

  // After i steps in x and j in y, how far the point is off the ideal line, as a
  // multiple of the reciprocal of the longer side.
  function Off(dx: int, dy: int, i: int, j: int): int { j * dx - i * dy }

  // The point reached after k turns: one step along the longer side each turn,
  // and within half a pixel of the line along the shorter.
  ghost predicate OnLine(dx: int, dy: int, i: int, j: int, k: int) {
    && 0 <= i <= dx && 0 <= j <= dy
    && (dx >= dy ==> i == k && -dx <= 2 * Off(dx, dy, i, j) <= dx)
    && (dx < dy ==> j == k && -dy <= 2 * Off(dx, dy, i, j) <= dy)
    && (dx == dy ==> i == j)
  }

  lemma OffStep(dx: int, dy: int, i: int, j: int)
    ensures Off(dx, dy, i + 1, j) == Off(dx, dy, i, j) - dy
    ensures Off(dx, dy, i, j + 1) == Off(dx, dy, i, j) + dx
    ensures Off(dx, dy, i + 1, j + 1) == Off(dx, dy, i, j) - dy + dx
  {}

  // Less than one step off at the far end is not off at all.
  lemma LandsInside(d: int, e: int, i: int, j: int)
    requires 0 < d && 0 <= e && 0 <= i <= d && 0 <= j && -d <= 2 * (j * d - i * e) <= d
    ensures j <= e
    ensures i == d ==> j == e
  {
    MulMono(e, i, d);
    assert i * e == e * i && d * e == e * d && j * d == d * j;
    assert d * (e + 1) == d * e + d && d * (j + 1) == d * j + d;
    if j > e {
      MulMono(d, e + 1, j);
      assert false;
    }
    if i == d && j < e {
      MulMono(d, j + 1, e);
      assert false;
    }
  }

  // One turn of the loop keeps to the line.
  lemma TurnAlongX(dx: int, dy: int, i: int, j: int, err: int)
    requires dx >= dy >= 0 && OnLine(dx, dy, i, j, i) && err == dx - dy + Off(dx, dy, i, j) && i < dx
    ensures 2 * err > -dy
    ensures OnLine(dx, dy, i + 1, if 2 * err < dx then j + 1 else j, i + 1)
  {
    OffStep(dx, dy, i, j);
    var j' := if 2 * err < dx then j + 1 else j;
    LandsInside(dx, dy, i + 1, j');
  }

  lemma TurnAlongY(dx: int, dy: int, i: int, j: int, err: int)
    requires dy > dx >= 0 && OnLine(dx, dy, i, j, j) && err == dx - dy + Off(dx, dy, i, j) && j < dy
    ensures 2 * err < dx
    ensures OnLine(dx, dy, if 2 * err > -dy then i + 1 else i, j + 1, j + 1)
  {
    OffStep(dx, dy, i, j);
    var i' := if 2 * err > -dy then i + 1 else i;
    assert j * dx - i * dy == -(i * dy - j * dx);
    LandsInside(dy, dx, j + 1, i');
  }

  // The turn as the source decides it: both tests look at the same error.
  lemma Turn(dx: int, dy: int, i: int, j: int, k: int, err: int, i': int, j': int, err': int)
    requires 0 <= dx && 0 <= dy && OnLine(dx, dy, i, j, k) && k < Max(dx, dy)
    requires err == dx - dy + Off(dx, dy, i, j)
    requires i' == (if 2 * err > -dy then i + 1 else i) && j' == (if 2 * err < dx then j + 1 else j)
    requires err' == err - (if 2 * err > -dy then dy else 0) + (if 2 * err < dx then dx else 0)
    ensures OnLine(dx, dy, i', j', k + 1) && err' == dx - dy + Off(dx, dy, i', j')
  {
    OffStep(dx, dy, i, j);
    if dx >= dy {
      TurnAlongX(dx, dy, i, j, err);
    } else {
      TurnAlongY(dx, dy, i, j, err);
    }
  }

  // The endpoint is reached exactly at the last turn.
  lemma EndsAt(dx: int, dy: int, i: int, j: int, k: int)
    requires 0 <= dx && 0 <= dy && OnLine(dx, dy, i, j, k)
    ensures i == dx && j == dy <==> k == Max(dx, dy)
  {
    if dx >= dy && dx > 0 {
      LandsInside(dx, dy, i, j);
    } else if dx < dy {
      assert j * dx - i * dy == -(i * dy - j * dx);
      LandsInside(dy, dx, j, i);
    }
  }

  // The doubled error of a line with these sides stays in the range of an int:
  // it is at most twice the longer side on a straight line and at most three
  // times the longer less twice the shorter side otherwise.
  predicate ErrorBound(dx: int, dy: int) {
    && 0 <= dx && 0 <= dy
    && (if dx == 0 || dy == 0 then 2 * Max(dx, dy) <= INT_MAX
        else 3 * dx - 2 * dy <= INT_MAX && 3 * dy - 2 * dx <= INT_MAX)
  }

  lemma ErrorFits(dx: int, dy: int, i: int, j: int, k: int)
    requires ErrorBound(dx, dy) && OnLine(dx, dy, i, j, k)
    ensures IsInt(2 * (dx - dy + Off(dx, dy, i, j)))
  {
    if dx == 0 {
      assert Off(dx, dy, i, j) == 0;
    } else if dy == 0 {
      assert j == 0 && Off(dx, dy, i, j) == 0;
    }
  }

  // How far v lies from a on the side of b.
  function Along(a: int, b: int, v: int): int { if a < b then v - a else a - v }

  ghost predicate Drawn(x1: int, y1: int, x2: int, y2: int, p: Point, k: int) {
    OnLine(Abs(x2 - x1), Abs(y2 - y1), Along(x1, x2, p.x), Along(y1, y2, p.y), k)
  }

  ghost predicate AllDrawn(x1: int, y1: int, x2: int, y2: int, points: seq<Point>) {
    forall k :: 0 <= k < |points| ==> Drawn(x1, y1, x2, y2, points[k], k)
  }

  lemma OneMore(x1: int, y1: int, x2: int, y2: int, points: seq<Point>, p: Point)
    requires AllDrawn(x1, y1, x2, y2, points) && Drawn(x1, y1, x2, y2, p, |points|)
    ensures AllDrawn(x1, y1, x2, y2, points + [p])
  {}

  // One turn of the loop, and what it does to the point and the error.
  method LineTurn(dx: int, dy: int, sx: int, sy: int, x: int, y: int, err: int, ghost i: int, ghost j: int,
                  ghost k: int)
    returns (x': int, y': int, err': int, ghost i': int, ghost j': int)
    requires ErrorBound(dx, dy) && OnLine(dx, dy, i, j, k) && k < Max(dx, dy)
    requires err == dx - dy + Off(dx, dy, i, j)
    ensures OnLine(dx, dy, i', j', k + 1) && err' == dx - dy + Off(dx, dy, i', j')
    ensures x' == (if i' > i then x + sx else x) && y' == (if j' > j then y + sy else y)
    ensures i <= i' <= i + 1 && j <= j' <= j + 1
  {
    ErrorFits(dx, dy, i, j, k);
    x', y', err', i', j' := x, y, err, i, j;
    var e2 := 2 * err;
    if e2 > -dy {
      err' := err' - dy;
      x' := x' + sx;
      i' := i' + 1;
    }
    if e2 < dx {
      err' := err' + dx;
      y' := y' + sy;
      j' := j' + 1;
    }
    Turn(dx, dy, i, j, k, err, i', j', err');
  }

  method DrawLine(x1: nat, y1: nat, x2: nat, y2: nat) returns (points: seq<Point>)
    requires ErrorBound(Abs(x2 - x1), Abs(y2 - y1))
    ensures |points| == Max(Abs(x2 - x1), Abs(y2 - y1)) + 1
    ensures points[0] == Point(x1, y1) && points[|points| - 1] == Point(x2, y2)
    ensures AllDrawn(x1, y1, x2, y2, points)
  {
    var dx: int := if x2 > x1 then x2 - x1 else x1 - x2;
    var dy: int := if y2 > y1 then y2 - y1 else y1 - y2;
    var sx := if x1 < x2 then 1 else -1;
    var sy := if y1 < y2 then 1 else -1;
    var err := dx - dy;
    var x: int, y: int := x1, y1;
    points := [];
    ghost var i, j, k := 0, 0, 0;
    while true
      invariant OnLine(dx, dy, i, j, k) && k <= Max(dx, dy) && err == dx - dy + Off(dx, dy, i, j)
      invariant i == Along(x1, x2, x) && j == Along(y1, y2, y)
      invariant |points| == k && (k > 0 ==> points[0] == Point(x1, y1)) && (k == 0 ==> x == x1 && y == y1)
      invariant AllDrawn(x1, y1, x2, y2, points)
      decreases Max(dx, dy) - k
    {
      OneMore(x1, y1, x2, y2, points, Point(x, y));
      points := points + [Point(x, y)];
      EndsAt(dx, dy, i, j, k);
      if x == x2 && y == y2 {
        break;
      }
      x, y, err, i, j := LineTurn(dx, dy, sx, sy, x, y, err, i, j, k);
      k := k + 1;
    }
  }

  // ------------------------------------------------------------------------
  // Circles
  // ------------------------------------------------------------------------

  // By how much a point lies outside the circle of radius r, squared.
  function Excess(px: int, py: int, r: int): int { px * px + py * py - r * r }

  ghost predicate OnCircle(px: int, py: int, r: int) {
    -py <= Excess(px, py, r) < py
  }

  lemma ExcessStep(px: int, py: int, r: int)
    ensures Excess(px + 1, py, r) == Excess(px, py, r) + 2 * px + 1
    ensures Excess(px + 1, py - 1, r) == Excess(px, py, r) + 2 * px + 1 - 2 * py + 1
  {}

  // Half a pixel along the column: the row drawn is the square root rounded.
  lemma NearestRow(px: int, py: int, r: int)
    requires OnCircle(px, py, r)
    ensures var t := r * r - px * px; (2 * py - 1) * (2 * py - 1) < 4 * t < (2 * py + 1) * (2 * py + 1)
  {
    assert (2 * py - 1) * (2 * py - 1) == 4 * (py * py) - 4 * py + 1;
    assert (2 * py + 1) * (2 * py + 1) == 4 * (py * py) + 4 * py + 1;
  }

  // The points of one octant, from the top to the diagonal; a circle of radius
  // 0 is its centre.
  method DrawCircle(r: nat) returns (points: seq<Point>)
    requires r <= 0x3fff_fffe
    ensures |points| > 0 && points[0] == Point(0, r) && (r == 0 ==> |points| == 1)
    ensures forall k :: 0 <= k < |points| ==> points[k].x == k && 0 <= points[k].y <= r
    ensures forall k :: 0 <= k < |points| && points[k].x <= points[k].y && r > 0 ==>
              OnCircle(points[k].x, points[k].y, r)
    ensures forall k :: 0 <= k < |points| - 1 ==> points[k].x < points[k].y
    ensures points[|points| - 1].x >= points[|points| - 1].y
  {
    var px: int, py: int := 0, r;
    var d := 1 - r;
    points := [Point(px, py)];
    while px < py
      invariant 0 <= px && 0 <= py <= r && px <= py + 1 && (r == 0 ==> px == 0)
      invariant px <= py && r > 0 ==> OnCircle(px, py, r) && d == Excess(px, py, r) + 2 * px + 1 - py
      invariant |points| == px + 1 && points[0] == Point(0, r) && points[px] == Point(px, py)
      invariant forall k :: 0 <= k < |points| ==> points[k].x == k && 0 <= points[k].y <= r
      invariant forall k :: 0 <= k < |points| && points[k].x <= points[k].y && r > 0 ==>
                  OnCircle(points[k].x, points[k].y, r)
      invariant forall k :: 0 <= k < px ==> points[k].x < points[k].y
      decreases py - px
    {
      ExcessStep(px, py, r);
      assert IsInt(d) && IsInt(2 * px + 3) && IsInt(2 * (px - py) + 5);
      if d < 0 {
        d := d + 2 * px + 3;
      } else {
        d := d + 2 * (px - py) + 5;
        py := py - 1;
      }
      px := px + 1;
      points := points + [Point(px, py)];
    }
  }
}
