/** draw_line: Bresenham's algorithm over all octants.  The points it
    returns go to draw_pixel one by one (Display.DrawPixels gives the bus
    trace). */
module Line {
  import opened Bits

  function Abs(v: int): nat
  {
    if v < 0 then -v else v
  }

  function Max(a: int, b: int): int
  {
    if a >= b then a else b
  }

  /** One step of the line: each coordinate moves by 0 or by its step
      direction, and at least one moves. */
  predicate LineStep(a: (int, int), b: (int, int), sx: int, sy: int)
  {
    (b.0 == a.0 || b.0 == a.0 + sx) && (b.1 == a.1 || b.1 == a.1 + sy) && a != b
  }

  /** Consecutive points of pts are LineSteps apart. */
  predicate Steps(pts: seq<(int, int)>, sx: int, sy: int)
  {
    forall k :: 0 <= k < |pts| - 1 ==> LineStep(pts[k], pts[k + 1], sx, sy)
  }

  lemma StepsAppend(pts: seq<(int, int)>, p: (int, int), sx: int, sy: int)
    requires |pts| > 0 && Steps(pts, sx, sy) && LineStep(pts[|pts| - 1], p, sx, sy)
    ensures Steps(pts + [p], sx, sy)
  {
    var q := pts + [p];
    forall k | 0 <= k < |q| - 1
      ensures LineStep(q[k], q[k + 1], sx, sy)
    {
      if k < |pts| - 1 {
        assert q[k] == pts[k] && q[k + 1] == pts[k + 1];
      }
    }
  }

  /** Once x has reached its end while y has not, F = j*dx - i*dy is at
      most -dx. */
  lemma XEndGap(dx: int, dy: int, i: int, j: int)
    requires dx >= 0 && 0 <= j <= dy
    ensures i == dx && j < dy ==> j * dx - i * dy <= -dx
  {
    if i == dx && j < dy {
      MulAtLeast(dy - j, dx);
      assert j * dx - i * dy == -((dy - j) * dx);
    }
  }

  /** Once y has reached its end while x has not, F is at least dy. */
  lemma YEndGap(dx: int, dy: int, i: int, j: int)
    requires dy >= 0 && 0 <= i <= dx
    ensures j == dy && i < dx ==> j * dx - i * dy >= dy
  {
    if j == dy && i < dx {
      MulAtLeast(dx - i, dy);
      assert j * dx - i * dy == (dx - i) * dy;
    }
  }

  /** The error-term invariant of the loop: i and j steps taken along x
      and y, f = j*dx - i*dy the scaled distance from the ideal line. */
  predicate ErrorBound(dx: int, dy: int, i: int, j: int, f: int)
  {
    && 0 <= i <= dx && 0 <= j <= dy
    && f == j * dx - i * dy
    && (dx >= dy && dx > 0 ==> -dx <= 2 * f < dx)
    && (dy > dx ==> -dy < 2 * f <= dy)
    && (dx == dy ==> i == j)
  }

  /** The x and y tests of one loop iteration, from e2 = 2*err. */
  predicate XMoves(dx: int, dy: int, f: int) { 2 * (dx - dy + f) > -dy }
  predicate YMoves(dx: int, dy: int, f: int) { 2 * (dx - dy + f) < dx }

  /** f after one iteration. */
  function NextF(dx: int, dy: int, f: int): int
  {
    f - (if XMoves(dx, dy, f) then dy else 0) + (if YMoves(dx, dy, f) then dx else 0)
  }

  /** Mostly-horizontal lines: x moves on every iteration, y never passes
      its end, and the bound is kept. */
  lemma StepMajorX(dx: int, dy: int, i: int, j: int, f: int)
    requires ErrorBound(dx, dy, i, j, f) && !(i == dx && j == dy) && dx >= dy
    ensures XMoves(dx, dy, f)
    ensures ErrorBound(dx, dy, i + 1, if YMoves(dx, dy, f) then j + 1 else j, NextF(dx, dy, f))
  {
    XEndGap(dx, dy, i, j);
    YEndGap(dx, dy, i, j);
  }

  /** Mostly-vertical lines: y moves on every iteration. */
  lemma StepMajorY(dx: int, dy: int, i: int, j: int, f: int)
    requires ErrorBound(dx, dy, i, j, f) && !(i == dx && j == dy) && dy > dx
    ensures YMoves(dx, dy, f)
    ensures ErrorBound(dx, dy, if XMoves(dx, dy, f) then i + 1 else i, j + 1, NextF(dx, dy, f))
  {
    XEndGap(dx, dy, i, j);
    YEndGap(dx, dy, i, j);
  }

  /** One loop iteration from a point short of the end: the major axis
      always moves, neither passes its end, and the bound is kept. */
  lemma BresenhamStep(dx: int, dy: int, i: int, j: int, f: int)
    requires ErrorBound(dx, dy, i, j, f) && !(i == dx && j == dy)
    ensures if dx >= dy then XMoves(dx, dy, f) else YMoves(dx, dy, f)
    ensures ErrorBound(dx, dy, if XMoves(dx, dy, f) then i + 1 else i,
      if YMoves(dx, dy, f) then j + 1 else j, NextF(dx, dy, f))
  {
    if dx >= dy {
      StepMajorX(dx, dy, i, j, f);
    } else {
      StepMajorY(dx, dy, i, j, f);
    }
  }

  /** The moving state of the source loop: the current point and err. */
  datatype Pen = Pen(x: int, y: int, err: int)

  /** One pass of the loop after the point is drawn: e2 = 2*err; step x
      when e2 > -dy, step y when e2 < dx (both tests use the old e2). */
  function Next(dx: int, dy: int, sx: int, sy: int, p: Pen): Pen
  {
    var e2 := p.err * 2;
    var a := if e2 > -dy then Pen(p.x + sx, p.y, p.err - dy) else p;
    if e2 < dx then Pen(a.x, a.y + sy, a.err + dx) else a
  }

  /** The pen is i steps along x and j along y from (x0, y0), with err the
      initial dx - dy plus f = j*dx - i*dy. */
  predicate Tracks(x0: int, y0: int, x1: int, y1: int, p: Pen, i: int, j: int)
  {
    var dx := Abs(x1 - x0);
    var dy := Abs(y1 - y0);
    && p.x == (if x0 < x1 then x0 + i else x0 - i)
    && p.y == (if y0 < y1 then y0 + j else y0 - j)
    && ErrorBound(dx, dy, i, j, p.err - dx + dy)
  }

  /** The loop stops exactly when both coordinates have taken all their
      steps. */
  lemma TracksEnd(x0: int, y0: int, x1: int, y1: int, p: Pen, i: int, j: int)
    requires Tracks(x0, y0, x1, y1, p, i, j)
    ensures (p.x == x1 && p.y == y1) <==> (i == Abs(x1 - x0) && j == Abs(y1 - y0))
  {
  }

  /** One pass of the loop keeps Tracks, moves the point by one LineStep
      and advances the major axis by one. */
  lemma NextTracks(x0: int, y0: int, x1: int, y1: int, p: Pen, i: int, j: int)
    returns (i': int, j': int)
    requires Tracks(x0, y0, x1, y1, p, i, j) && !(p.x == x1 && p.y == y1)
    ensures var dx := Abs(x1 - x0);
      var dy := Abs(y1 - y0);
      var q := Next(dx, dy, if x0 < x1 then 1 else -1, if y0 < y1 then 1 else -1, p);
      && Tracks(x0, y0, x1, y1, q, i', j')
      && LineStep((p.x, p.y), (q.x, q.y), if x0 < x1 then 1 else -1, if y0 < y1 then 1 else -1)
      && (if dx >= dy then i' == i + 1 else j' == j + 1)
      && (dx - i') + (dy - j') < (dx - i) + (dy - j)
  {
    var dx := Abs(x1 - x0);
    var dy := Abs(y1 - y0);
    var sx := if x0 < x1 then 1 else -1;
    var sy := if y0 < y1 then 1 else -1;
    var f := p.err - dx + dy;
    TracksEnd(x0, y0, x1, y1, p, i, j);
    BresenhamStep(dx, dy, i, j, f);
    var xs := XMoves(dx, dy, f);
    var ys := YMoves(dx, dy, f);
    i' := if xs then i + 1 else i;
    j' := if ys then j + 1 else j;
    var q := Next(dx, dy, sx, sy, p);
    assert q.x == (if xs then p.x + sx else p.x);
    assert q.y == (if ys then p.y + sy else p.y);
    assert q.err - dx + dy == NextF(dx, dy, f);
  }

  /** The points draw_line hands to draw_pixel, in order: from (x0, y0) to
      (x1, y1), one per step along the major axis, each step moving toward
      the end point. */
  method DrawLine(x0: int, y0: int, x1: int, y1: int)
    returns (pts: seq<(int, int)>)
    ensures |pts| == Max(Abs(x1 - x0), Abs(y1 - y0)) + 1
    ensures pts[0] == (x0, y0) && pts[|pts| - 1] == (x1, y1)
    ensures Steps(pts, if x0 < x1 then 1 else -1, if y0 < y1 then 1 else -1)
  {
    var dx := Abs(x1 - x0);
    var dy := Abs(y1 - y0);
    var sx := if x0 < x1 then 1 else -1;
    var sy := if y0 < y1 then 1 else -1;
    var pen := Pen(x0, y0, dx - dy);
    ghost var i: int, j: int := 0, 0;
    pts := [(pen.x, pen.y)];
    while !(pen.x == x1 && pen.y == y1)
      invariant Tracks(x0, y0, x1, y1, pen, i, j)
      invariant |pts| == 1 + (if dx >= dy then i else j)
      invariant pts[0] == (x0, y0) && pts[|pts| - 1] == (pen.x, pen.y)
      invariant Steps(pts, sx, sy)
      decreases (dx - i) + (dy - j)
    {
      i, j := NextTracks(x0, y0, x1, y1, pen, i, j);
      pen := Next(dx, dy, sx, sy, pen);
      StepsAppend(pts, (pen.x, pen.y), sx, sy);
      pts := pts + [(pen.x, pen.y)];
    }
    TracksEnd(x0, y0, x1, y1, pen, i, j);
  }
}
