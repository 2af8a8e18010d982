/** The touch calibration script's arithmetic: from the nine ADC readings
    taken at a 3 x 3 grid of targets (row by row, top left first), the
    direction in which one axis grows and the range it spans. */
module Calibration {
  import opened Results

  /** Direction codes, in the order find_direct prefers them on a tie. */
  const Up := 0
  const Right := 1
  const Down := 2
  const Left := 3

  /** The three grid cells along each edge. */
  function Side(d: int): (cells: seq<nat>)
    requires 0 <= d < 4
    ensures |cells| == 3 && forall k :: 0 <= k < 3 ==> cells[k] < 9
  {
    if d == Up then [0, 1, 2]
    else if d == Right then [2, 5, 8]
    else if d == Down then [6, 7, 8]
    else [0, 3, 6]
  }

  /** The edge facing the given one. */
  function Opposite(d: int): (o: int)
    requires 0 <= d < 4
    ensures 0 <= o < 4 && o != d && (o + 2) % 4 == d
  {
    (d + 2) % 4
  }

  /** The floor average of the readings along an edge. */
  function Avg(target: seq<int>, d: int): int
    requires |target| == 9 && 0 <= d < 4
  {
    var c := Side(d);
    (target[c[0]] + target[c[1]] + target[c[2]]) / 3
  }

  function Max3(a: int, b: int, c: int): (m: int)
    ensures m >= a && m >= b && m >= c && (m == a || m == b || m == c)
  {
    if a >= b && a >= c then a else if b >= c then b else c
  }

  function Min3(a: int, b: int, c: int): (m: int)
    ensures m <= a && m <= b && m <= c && (m == a || m == b || m == c)
  {
    if a <= b && a <= c then a else if b <= c then b else c
  }

  function Max4(a: int, b: int, c: int, d: int): (m: int)
    ensures m >= a && m >= b && m >= c && m >= d && (m == a || m == b || m == c || m == d)
  {
    var m3 := Max3(a, b, c);
    if m3 >= d then m3 else d
  }

  /** find_direct: the edge with the largest average, up before right
      before down before left on a tie.  The source falls off its last
      test (returning None) when no edge matches; that never happens. */
  function FindDirect(target: seq<int>): (r: Option<int>)
    requires |target| == 9
    ensures r.Some? && 0 <= r.value < 4
    ensures forall e :: 0 <= e < 4 ==> Avg(target, e) <= Avg(target, r.value)
    ensures forall e :: 0 <= e < r.value ==> Avg(target, e) < Avg(target, r.value)
  {
    var up, down, left, right := Avg(target, Up), Avg(target, Down), Avg(target, Left), Avg(target, Right);
    var maxd := Max4(up, down, left, right);
    if maxd == up then Some(Up)
    else if maxd == right then Some(Right)
    else if maxd == down then Some(Down)
    else if maxd == left then Some(Left)
    else None
  }

  /** get_min_max: the smallest reading along the edge facing `direct`
      and the largest along `direct`.  Any other code leaves the source's
      `mint` unbound and raises. */
  function GetMinMax(target: seq<int>, direct: int): (r: Option<(int, int)>)
    requires |target| == 9
    ensures r.Some? <==> 0 <= direct < 4
    ensures r.Some? ==>
      var lo, hi := Side(Opposite(direct)), Side(direct);
      && (forall k :: 0 <= k < 3 ==> r.value.0 <= target[lo[k]])
      && (r.value.0 == target[lo[0]] || r.value.0 == target[lo[1]] || r.value.0 == target[lo[2]])
      && (forall k :: 0 <= k < 3 ==> r.value.1 >= target[hi[k]])
      && (r.value.1 == target[hi[0]] || r.value.1 == target[hi[1]] || r.value.1 == target[hi[2]])
  {
    if direct == Up then
      Some((Min3(target[6], target[7], target[8]), Max3(target[0], target[1], target[2])))
    else if direct == Right then
      Some((Min3(target[0], target[3], target[6]), Max3(target[2], target[5], target[8])))
    else if direct == Down then
      Some((Min3(target[0], target[1], target[2]), Max3(target[6], target[7], target[8])))
    else if direct == Left then
      Some((Min3(target[2], target[5], target[8]), Max3(target[0], target[3], target[6])))
    else None
  }

  datatype Axes = Axes(xMin: int, xMax: int, xDir: int, yMin: int, yMax: int, yDir: int)

  /** calibrate_touch: each axis's direction, then its range, which is
      never empty. */
  function CalibrateTouch(targetX: seq<int>, targetY: seq<int>): (r: Option<Axes>)
    requires |targetX| == 9 && |targetY| == 9
    ensures r.Some?
    ensures r.value.xDir == FindDirect(targetX).value && r.value.yDir == FindDirect(targetY).value
    ensures (r.value.xMin, r.value.xMax) == GetMinMax(targetX, r.value.xDir).value
    ensures (r.value.yMin, r.value.yMax) == GetMinMax(targetY, r.value.yDir).value
    ensures r.value.xMin <= r.value.xMax && r.value.yMin <= r.value.yMax
  {
    RangeOrdered(targetX);
    RangeOrdered(targetY);
    match (FindDirect(targetX), FindDirect(targetY))
    case (Some(xd), Some(yd)) =>
      match (GetMinMax(targetX, xd), GetMinMax(targetY, yd))
      case (Some((xMin, xMax)), Some((yMin, yMax))) => Some(Axes(xMin, xMax, xd, yMin, yMax, yd))
  }

  /** The edge with the largest average holds a reading at least that
      average, and the facing edge one at most its own average, so the
      range get_min_max returns for find_direct's edge is never empty. */
  lemma RangeOrdered(target: seq<int>)
    requires |target| == 9
    ensures var d := FindDirect(target).value;
      GetMinMax(target, d).value.0 <= GetMinMax(target, d).value.1
  {
    var d := FindDirect(target).value;
    var o := Opposite(d);
    var r := GetMinMax(target, d).value;
    var lo, hi := Side(o), Side(d);
    assert r.0 <= Avg(target, o) by {
      assert 3 * r.0 <= target[lo[0]] + target[lo[1]] + target[lo[2]];
    }
    assert Avg(target, d) <= r.1 by {
      assert target[hi[0]] + target[hi[1]] + target[hi[2]] <= 3 * r.1;
    }
  }

  /** Readings that grow from left to right make find_direct pick the
      right edge, with the range from the left column to the right one. */
  lemma GrowingRightward(base: int, step: int)
    requires step > 0
    ensures var target := seq(9, k => base + (k % 3) * step);
      && FindDirect(target) == Some(Right)
      && GetMinMax(target, Right) == Some((base, base + 2 * step))
  {
    var target := seq(9, k => base + (k % 3) * step);
    assert Avg(target, Up) == base + step;
    assert Avg(target, Right) == base + 2 * step;
    assert Avg(target, Down) == base + step;
    assert Avg(target, Left) == base;
  }

  /** Readings that grow from top to bottom make it pick the bottom edge. */
  lemma GrowingDownward(base: int, step: int)
    requires step > 0
    ensures var target := seq(9, k => base + (k / 3) * step);
      && FindDirect(target) == Some(Down)
      && GetMinMax(target, Down) == Some((base, base + 2 * step))
  {
    var target := seq(9, k => base + (k / 3) * step);
    assert Avg(target, Up) == base;
    assert Avg(target, Right) == base + step;
    assert Avg(target, Down) == base + 2 * step;
    assert Avg(target, Left) == base + step;
  }

  /** Equal readings everywhere tie every edge, and up wins. */
  lemma FlatPrefersUp(v: int)
    ensures FindDirect(seq(9, _ => v)) == Some(Up)
  {
    var target := seq(9, _ => v);
    assert Avg(target, Up) == v;
  }
}
