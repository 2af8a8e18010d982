/** The resistive touch screen: the integer decisions of resist_touch_rp2.py.
    ADC readings arrive as parameters (one pressure pair and eleven samples
    per axis per reading); the floating-point pixel transform is not
    modelled. */
module Touch {
  import opened Results

  const MinLevel := 6500
  const MaxLevel := 59000
  const NoisePress := 2000
  const NoiseLevel := 8000
  const NumSamples := 11

  /** The sorted sample read_touch keeps: NUM_SAMPLES // 2 + 1. */
  const Pick := NumSamples / 2 + 1

  /** One axis of the calibration: the ADC range and the direction code. */
  datatype Calib = Calib(min: int, max: int, dir: int)

  datatype Screen = Screen(
    xCalib: Calib, yCalib: Calib, autoCalibration: bool,
    width: int, height: int, rotation: int, prevX: int, prevY: int)

  /** The constructor's state. */
  function New(width: int, height: int): (t: Screen)
    ensures t.xCalib == Calib(8017, 55965, 3) && t.yCalib == Calib(8177, 58398, 0)
    ensures !t.autoCalibration && t.rotation == 0 && t.prevX == -1 && t.prevY == -1
    ensures t.width == width && t.height == height
  {
    Screen(Calib(8017, 55965, 3), Calib(8177, 58398, 0), false, width, height, 0, -1, -1)
  }

  /** read_z: the pressure from the two ADC readings. */
  function Pressure(z1: int, z2: int): (z: int)
    requires 0 <= z1 < 0x1_0000 && 0 <= z2 < 0x1_0000
    ensures 0 <= z < 2 * 0x1_0000 - 1
    ensures z < NoisePress <==> z2 - z1 > 0xFFFF - NoisePress
  {
    65535 - z2 + z1
  }

  // ---- sorting the samples -------------------------------------------

  predicate Sorted(s: seq<int>)
  {
    forall i, j :: 0 <= i < j < |s| ==> s[i] <= s[j]
  }

  function Insert(v: int, t: seq<int>): (r: seq<int>)
    requires Sorted(t)
    ensures |r| == |t| + 1 && (r[0] == v || (|t| > 0 && r[0] == t[0]))
    ensures Sorted(r) && multiset(r) == multiset(t) + multiset{v}
  {
    if |t| == 0 then [v]
    else if v <= t[0] then [v] + t
    else
      var rest := Insert(v, t[1..]);
      assert t == [t[0]] + t[1..];
      assert forall k :: 0 <= k < |rest| ==> t[0] <= rest[0] <= rest[k];
      [t[0]] + rest
  }

  /** list.sort() */
  function Sort(s: seq<int>): (t: seq<int>)
    ensures Sorted(t) && multiset(t) == multiset(s) && |t| == |s|
  {
    if |s| == 0 then []
    else
      assert s == [s[0]] + s[1..];
      Insert(s[0], Sort(s[1..]))
  }

  /** How many of s are at most x, and at least x. */
  function CountAtMost(s: seq<int>, x: int): nat
  {
    if |s| == 0 then 0 else (if s[0] <= x then 1 else 0) + CountAtMost(s[1..], x)
  }

  function CountAtLeast(s: seq<int>, x: int): nat
  {
    if |s| == 0 then 0 else (if s[0] >= x then 1 else 0) + CountAtLeast(s[1..], x)
  }

  lemma {:induction false} InsertCounts(v: int, t: seq<int>, x: int)
    requires Sorted(t)
    ensures CountAtMost(Insert(v, t), x) == CountAtMost(t, x) + (if v <= x then 1 else 0)
    ensures CountAtLeast(Insert(v, t), x) == CountAtLeast(t, x) + (if v >= x then 1 else 0)
  {
    var r := Insert(v, t);
    if |t| > 0 && v > t[0] {
      assert r[0] == t[0] && r[1..] == Insert(v, t[1..]);
      InsertCounts(v, t[1..], x);
    } else if |t| > 0 {
      assert r[0] == v && r[1..] == t;
    }
  }

  /** Sorting keeps how many samples lie on each side of any value. */
  lemma {:induction false} SortCounts(s: seq<int>, x: int)
    ensures CountAtMost(Sort(s), x) == CountAtMost(s, x)
    ensures CountAtLeast(Sort(s), x) == CountAtLeast(s, x)
  {
    if |s| > 0 {
      SortCounts(s[1..], x);
      InsertCounts(s[0], Sort(s[1..]), x);
    }
  }

  /** In a sorted list every element up to index k is at most s[k], and
      every element from k on is at least s[k]. */
  lemma {:induction false} SortedCounts(s: seq<int>, k: nat)
    requires Sorted(s) && k < |s|
    ensures CountAtMost(s, s[k]) >= k + 1
    ensures CountAtLeast(s, s[k]) >= |s| - k
  {
    if k > 0 {
      SortedCounts(s[1..], k - 1);
      assert s[0] <= s[k];
    } else {
      AtLeastAll(s, s[0]);
    }
  }

  lemma {:induction false} AtLeastAll(s: seq<int>, x: int)
    requires forall i :: 0 <= i < |s| ==> s[i] >= x
    ensures CountAtLeast(s, x) == |s|
  {
    if |s| > 0 {
      AtLeastAll(s[1..], x);
    }
  }

  /** The sample read_touch keeps from one axis. */
  function Select(samples: seq<int>): (x: int)
    requires |samples| == NumSamples
    ensures x in samples
  {
    var t := Sort(samples);
    assert t[Pick] in multiset(t);
    t[Pick]
  }

  /** The kept sample is one above the median: at least seven of the
      eleven samples are at most it and at least five at least it. */
  lemma SelectRank(samples: seq<int>)
    requires |samples| == NumSamples
    ensures CountAtMost(samples, Select(samples)) >= Pick + 1
    ensures CountAtLeast(samples, Select(samples)) >= NumSamples - Pick
  {
    var t := Sort(samples);
    SortedCounts(t, Pick);
    SortCounts(samples, t[Pick]);
  }

  // ---- read_touch ----------------------------------------------------

  predicate InRange(v: int)
  {
    MinLevel < v < MaxLevel
  }

  function Abs(v: int): nat
  {
    if v < 0 then -v else v
  }

  /** The point moved less than NOISE_LEVEL in x + y since the previous
      in-range sample. */
  predicate Steady(t: Screen, x: int, y: int)
  {
    Abs((x + y) - (t.prevX + t.prevY)) < NoiseLevel
  }

  /** read_u16 readings. */
  predicate Adc(samples: seq<int>)
  {
    forall k :: 0 <= k < |samples| ==> 0 <= samples[k] < 0x1_0000
  }

  datatype Reading = Reading(screen: Screen, x: int, y: int)

  /** A press hard enough, with both selected samples in range and steady
      against the previous point: the samples read_touch returns. */
  predicate Accepts(t: Screen, z: int, x: int, y: int)
  {
    z >= NoisePress && InRange(x) && InRange(y) && Steady(t, x, y)
  }

  /** read_touch: a light press gives (-2000, -2000); a sample out of
      range, or one too far from the previous in-range sample, gives
      (-8000, -8000); otherwise the selected sample, auto-calibrating
      first when that is switched on.  Every in-range sample becomes the
      previous one, accepted or not. */
  function ReadTouch(t: Screen, z: int, xs: seq<int>, ys: seq<int>): (r: Reading)
    requires |xs| == NumSamples && |ys| == NumSamples && Adc(xs) && Adc(ys)
    ensures z < NoisePress ==> r == Reading(t, -NoisePress, -NoisePress)
    ensures z >= NoisePress && !(InRange(Select(xs)) && InRange(Select(ys))) ==>
      r == Reading(t, -NoiseLevel, -NoiseLevel)
    ensures z >= NoisePress && InRange(Select(xs)) && InRange(Select(ys)) ==>
      r.screen.prevX == Select(xs) && r.screen.prevY == Select(ys)
    ensures (r.x, r.y) == (Select(xs), Select(ys)) <==> Accepts(t, z, Select(xs), Select(ys))
    ensures r.screen.width == t.width && r.screen.height == t.height && r.screen.rotation == t.rotation
    ensures r.screen.autoCalibration == t.autoCalibration
    ensures !(Accepts(t, z, Select(xs), Select(ys)) && t.autoCalibration) ==>
      r.screen.xCalib == t.xCalib && r.screen.yCalib == t.yCalib
    ensures Accepts(t, z, Select(xs), Select(ys)) && t.autoCalibration ==>
      var a := AutoCalibrate(t, Select(xs), Select(ys)).screen;
      r.screen.xCalib == a.xCalib && r.screen.yCalib == a.yCalib
  {
    if z < NoisePress then Reading(t, -NoisePress, -NoisePress)
    else
      var x, y := Select(xs), Select(ys);
      if InRange(x) && InRange(y) then
        var t' := t.(prevX := x, prevY := y);
        if Steady(t, x, y) then
          var t'' := if t.autoCalibration then AutoCalibrate(t', x, y).screen else t';
          Reading(t'', x, y)
        else Reading(t', -NoiseLevel, -NoiseLevel)
      else Reading(t, -NoiseLevel, -NoiseLevel)
  }

  /** Right after construction prev_x + prev_y is -2, so the first
      in-range sample is always refused, and the next identical one is
      accepted. */
  lemma FirstSampleRejected(width: int, height: int, z: int, xs: seq<int>, ys: seq<int>)
    requires |xs| == NumSamples && |ys| == NumSamples && Adc(xs) && Adc(ys) && z >= NoisePress
    requires InRange(Select(xs)) && InRange(Select(ys))
    ensures var r := ReadTouch(New(width, height), z, xs, ys);
      && (r.x, r.y) == (-NoiseLevel, -NoiseLevel)
      && var r2 := ReadTouch(r.screen, z, xs, ys);
      (r2.x, r2.y) == (Select(xs), Select(ys))
  {
  }

  // ---- auto_calibrate ------------------------------------------------

  datatype Calibrated = Calibrated(screen: Screen, recalib: bool)

  /** auto_calibrate: a point outside the calibrated range widens it. */
  function AutoCalibrate(t: Screen, x: int, y: int): (r: Calibrated)
    ensures r.screen.(xCalib := t.xCalib, yCalib := t.yCalib) == t
    ensures r.screen.xCalib.dir == t.xCalib.dir && r.screen.yCalib.dir == t.yCalib.dir
  {
    var xc, yc := t.xCalib, t.yCalib;
    var xc1 := if x < xc.min then xc.(min := x) else xc;
    var xc2 := if x > xc.max then xc1.(max := x) else xc1;
    var yc1 := if y < yc.min then yc.(min := y) else yc;
    var yc2 := if y > yc.max then yc1.(max := y) else yc1;
    var recalib := x < xc.min || x > xc.max || y < yc.min || y > yc.max;
    Calibrated(t.(xCalib := xc2, yCalib := yc2), recalib)
  }

  /** The calibrated range only grows, ends up holding the point, and the
      coefficients are recomputed exactly when a bound moved. */
  lemma AutoCalibrateWidens(t: Screen, x: int, y: int)
    ensures var r := AutoCalibrate(t, x, y);
      && r.screen.xCalib.min <= t.xCalib.min && r.screen.xCalib.max >= t.xCalib.max
      && r.screen.yCalib.min <= t.yCalib.min && r.screen.yCalib.max >= t.yCalib.max
      && r.screen.xCalib.min <= x <= r.screen.xCalib.max
      && r.screen.yCalib.min <= y <= r.screen.yCalib.max
      && (r.recalib <==> r.screen != t)
  {
  }

  /** A point already inside the range changes nothing. */
  lemma AutoCalibrateIdempotent(t: Screen, x: int, y: int)
    ensures var r := AutoCalibrate(t, x, y);
      AutoCalibrate(r.screen, x, y) == Calibrated(r.screen, false)
  {
  }

  // ---- set_rotation ----------------------------------------------------

  const Directions: seq<int> := [0, 1, 2, 3, 0, 1, 2, 3]

  /** Python's index into a tuple: negative indices count from the end,
      anything else out of range raises IndexError. */
  function TupleAt(s: seq<int>, i: int): (r: Option<int>)
    ensures r.Some? <==> -|s| <= i < |s|
  {
    if 0 <= i < |s| then Some(s[i])
    else if -|s| <= i < 0 then Some(s[|s| + i])
    else None
  }

  /** The direction tuple repeats every four entries, so any index it
      accepts gives the index modulo 4. */
  lemma DirectionAt(i: int)
    requires -8 <= i < 8
    ensures TupleAt(Directions, i) == Some(i % 4)
  {
  }

  datatype Rotated = Rotated(screen: Screen, raised: bool)

  /** set_rotation: the rotation is stored first; both direction codes
      are looked up before either is stored, so an IndexError leaves both
      as they were. */
  function SetRotation(t: Screen, rotation: int): (r: Rotated)
    ensures r.screen.rotation == rotation
    ensures r.screen.(rotation := t.rotation, xCalib := t.xCalib, yCalib := t.yCalib) == t
    ensures !r.raised <==> -8 <= t.xCalib.dir + 4 - rotation < 8 && -8 <= t.yCalib.dir + 4 - rotation < 8
    ensures r.raised ==> r.screen.xCalib == t.xCalib && r.screen.yCalib == t.yCalib
    ensures !r.raised ==>
      r.screen.xCalib == t.xCalib.(dir := (t.xCalib.dir - rotation) % 4)
      && r.screen.yCalib == t.yCalib.(dir := (t.yCalib.dir - rotation) % 4)
  {
    var t' := t.(rotation := rotation);
    var xd, yd := NewDirection(t.xCalib.dir, rotation), NewDirection(t.yCalib.dir, rotation);
    if xd.Some? && yd.Some? then
      Rotated(t'.(xCalib := t.xCalib.(dir := xd.value), yCalib := t.yCalib.(dir := yd.value)), false)
    else Rotated(t', true)
  }

  /** directions[dir + 4 - rotation]: the code turned back by rotation. */
  function NewDirection(dir: int, rotation: int): (r: Option<int>)
    ensures r.Some? <==> -8 <= dir + 4 - rotation < 8
    ensures r.Some? ==> r.value == (dir - rotation) % 4
  {
    var i := dir + 4 - rotation;
    if -8 <= i < 8 then
      DirectionAt(i);
      assert i % 4 == (dir - rotation) % 4;
      TupleAt(Directions, i)
    else TupleAt(Directions, i)
  }

  predicate DirsInRange(t: Screen)
  {
    0 <= t.xCalib.dir < 4 && 0 <= t.yCalib.dir < 4
  }

  /** Successive rotations add up: two calls turn the codes back by the
      sum of the rotations. */
  lemma RotationsCompose(t: Screen, a: int, b: int)
    requires DirsInRange(t) && 0 <= a < 4 && 0 <= b < 4
    ensures var r2 := SetRotation(SetRotation(t, a).screen, b);
      && !r2.raised && r2.screen.rotation == b
      && r2.screen.xCalib.dir == (t.xCalib.dir - a - b) % 4
      && r2.screen.yCalib.dir == (t.yCalib.dir - a - b) % 4
  {
    DirectionsCompose(t.xCalib.dir, a, b);
    DirectionsCompose(t.yCalib.dir, a, b);
  }

  /** With codes and rotations in 0..3 the call never raises and the
      codes stay in 0..3. */
  lemma RotationInRange(t: Screen, a: int)
    requires DirsInRange(t) && 0 <= a < 4
    ensures var r := SetRotation(t, a);
      && !r.raised && DirsInRange(r.screen)
      && r.screen.xCalib.dir == (t.xCalib.dir - a) % 4
      && r.screen.yCalib.dir == (t.yCalib.dir - a) % 4
  {
  }

  lemma DirectionsCompose(d: int, a: int, b: int)
    requires 0 <= d < 4 && 0 <= a < 4 && 0 <= b < 4
    ensures NewDirection(d, a).Some?
    ensures NewDirection(NewDirection(d, a).value, b) == Some((d - a - b) % 4)
  {
    ModSub(d, a, b, (d - a) % 4);
  }

  lemma ModSub(d: int, a: int, b: int, x: int)
    requires x == (d - a) % 4
    ensures (x - b) % 4 == (d - a - b) % 4
  {
    var q := (d - a) / 4;
    assert d - a == 4 * q + x;
    assert (d - a - b) == 4 * q + (x - b);
    ModShift(x - b, q);
  }

  lemma ModShift(v: int, q: int)
    ensures (4 * q + v) % 4 == v % 4
  {
  }

  // ---- listening -------------------------------------------------------

  /** The screen extent touches are accepted in: width and height are
      exchanged for odd rotations. */
  function Extent(t: Screen): (int, int)
  {
    if t.rotation % 2 == 1 then (t.height, t.width) else (t.width, t.height)
  }

  predicate OnScreen(t: Screen, p: (int, int))
  {
    0 <= p.0 <= Extent(t).0 && 0 <= p.1 <= Extent(t).1
  }

  /** listening: the first coordinate pair inside the extent.  The source
      loops until it finds one; here the successive readings are a finite
      list, and None means the list ran out. */
  method Listening(t: Screen, readings: seq<(int, int)>) returns (p: Option<(int, int)>)
    ensures p.None? <==> forall k :: 0 <= k < |readings| ==> !OnScreen(t, readings[k])
    ensures p.Some? ==> exists k :: 0 <= k < |readings| && readings[k] == p.value && FirstOnScreen(t, readings, k)
  {
    var i := 0;
    while i < |readings|
      invariant 0 <= i <= |readings|
      invariant forall k :: 0 <= k < i ==> !OnScreen(t, readings[k])
    {
      if OnScreen(t, readings[i]) {
        assert FirstOnScreen(t, readings, i);
        return Some(readings[i]);
      }
      i := i + 1;
    }
    return None;
  }

  predicate FirstOnScreen(t: Screen, readings: seq<(int, int)>, k: int)
    requires 0 <= k < |readings|
  {
    OnScreen(t, readings[k]) && forall j :: 0 <= j < k ==> !OnScreen(t, readings[j])
  }

  /** The sentinel readings read_touch gives for a refused touch are never
      returned by listening. */
  lemma SentinelsOffScreen(t: Screen)
    ensures !OnScreen(t, (-NoisePress, -NoisePress)) && !OnScreen(t, (-NoiseLevel, -NoiseLevel))
  {
  }
}
