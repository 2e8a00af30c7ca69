/**
 The ship monitor's stability window: a ship counts as stable when its centre has moved
 less than a threshold over the last so many valid frames.
 */
module StabilityWindow {
  import opened Basics

  datatype Status = Leave | Moving | Stable

  datatype Center = Center(x: real, y: real, z: real)

  /** A monitored frame: either nothing stood out from the background, or a cluster was
      found and measured. */
  datatype Frame = EmptyForeground | Judged(hasShip: bool, points: int, center: Center)

  /** Frames needed, displacement allowed, points needed. */
  datatype Settings = Settings(frames: nat, distance: real, minPoints: int)

  predicate IsValid(s: Settings, f: Frame) {
    f.Judged? && f.hasShip && f.points >= s.minPoints
  }

  /** The centres are less than `d` apart.  The code compares the square root of the sum of
      squares with `d`; that is the same for exact numbers. */
  predicate Closer(p: Center, q: Center, d: real) {
    var (dx, dy, dz) := (p.x - q.x, p.y - q.y, p.z - q.z);
    d > 0.0 && dx * dx + dy * dy + dz * dz < d * d
  }

  /** It is the comparison with the distance itself, however that square root is named. */
  lemma CloserMeans(p: Center, q: Center, d: real, distance: real)
    requires distance >= 0.0
    requires distance * distance == (p.x - q.x) * (p.x - q.x) + (p.y - q.y) * (p.y - q.y) + (p.z - q.z) * (p.z - q.z)
    ensures Closer(p, q, d) <==> distance < d
  {
    if d > 0.0 { SquareOrder(distance, d); }
  }

  lemma SquareOrder(x: real, y: real)
    requires x >= 0.0 && y >= 0.0
    ensures x * x < y * y <==> x < y
  {
    if x < y { SquareGrows(x, y); }
    if y < x { SquareGrows(y, x); }
  }

  lemma SquareGrows(x: real, y: real)
    requires 0.0 <= x < y
    ensures x * x < y * y
  {
    var gap := y - x;
    assert gap * gap > 0.0 && x * gap >= 0.0;
    assert y * y == x * x + 2.0 * (x * gap) + gap * gap;
  }

  /** Along any of the three axes it compares the displacement, either way. */
  lemma CloserAlongAxis(p: Center, q: Center, d: real, shift: real)
    requires q == p.(x := p.x + shift) || q == p.(y := p.y + shift) || q == p.(z := p.z + shift)
    ensures Closer(p, q, d) <==> -d < shift < d
  {
    var size := if shift >= 0.0 then shift else -shift;
    assert size * size == shift * shift;
    CloserMeans(p, q, d, size);
  }

  lemma SquareBound(x: real, rest: real, d: real)
    requires d > 0.0 && rest >= 0.0 && x * x + rest < d * d
    ensures -d < x < d
  {
    if x >= 0.0 { SquareOrder(x, d); } else { SquareOrder(-x, d); }
  }

  /** No coordinate of closer centres differs by as much as the bound. */
  lemma CloserBounds(p: Center, q: Center, d: real)
    requires Closer(p, q, d)
    ensures -d < p.x - q.x < d && -d < p.y - q.y < d && -d < p.z - q.z < d
  {
    var x, y, z := p.x - q.x, p.y - q.y, p.z - q.z;
    SquareBound(x, y * y + z * z, d);
    SquareBound(y, x * x + z * z, d);
    SquareBound(z, x * x + y * y, d);
  }

  /** Twice a product against the squares, weighted. */
  lemma Weighted(d: real, e: real, x: real, y: real)
    ensures 2.0 * (d * e) * (x * y) <= e * e * (x * x) + d * d * (y * y)
  {
    var a, b := e * x, d * y;
    assert (a - b) * (a - b) >= 0.0;
    assert a * a == e * e * (x * x) && b * b == d * d * (y * y) && a * b == (d * e) * (x * y);
    assert (a - b) * (a - b) == a * a - 2.0 * (a * b) + b * b;
  }

  /** From the squared lengths `s` and `t` of two displacements and their product `m`. */
  lemma ProductBelow(d: real, e: real, s: real, t: real, m: real)
    requires d > 0.0 && e > 0.0 && s < d * d && t < e * e
    requires 2.0 * (d * e) * m <= e * e * s + d * d * t
    ensures m < d * e
  {
    var dd, ee, de := d * d, e * e, d * e;
    assert ee * s < ee * dd && dd * t < dd * ee && dd * ee == de * de;
    assert 2.0 * de * m < 2.0 * de * de;
    assert de > 0.0;
  }

  /** Bounds add up: the triangle inequality. */
  lemma CloserTriangle(p: Center, q: Center, r: Center, d: real, e: real)
    requires Closer(p, q, d) && Closer(q, r, e)
    ensures Closer(p, r, d + e)
  {
    var (x, y, z) := (p.x - q.x, p.y - q.y, p.z - q.z);
    var (u, v, w) := (q.x - r.x, q.y - r.y, q.z - r.z);
    var s, t, m := x * x + y * y + z * z, u * u + v * v + w * w, x * u + y * v + z * w;
    Products(d, e, x, y, z, u, v, w);
    ProductBelow(d, e, s, t, m);
    SquaresOfSums(x, y, z, u, v, w);
    SquareOfSum(d, e);
    assert p.x - r.x == x + u && p.y - r.y == y + v && p.z - r.z == z + w;
    var far := (x + u) * (x + u) + (y + v) * (y + v) + (z + w) * (z + w);
    assert far == s + 2.0 * m + t;
    assert far < (d + e) * (d + e);
  }

  lemma Products(d: real, e: real, x: real, y: real, z: real, u: real, v: real, w: real)
    ensures 2.0 * (d * e) * (x * u + y * v + z * w) <= e * e * (x * x + y * y + z * z) + d * d * (u * u + v * v + w * w)
  {
    Weighted(d, e, x, u);
    Weighted(d, e, y, v);
    Weighted(d, e, z, w);
    WeightedSum(d, e, x, y, z, u, v, w);
  }

  lemma SquaresOfSums(x: real, y: real, z: real, u: real, v: real, w: real)
    ensures (x + u) * (x + u) + (y + v) * (y + v) + (z + w) * (z + w)
         == (x * x + y * y + z * z) + 2.0 * (x * u + y * v + z * w) + (u * u + v * v + w * w)
  {
    SquareOfSum(x, u);
    SquareOfSum(y, v);
    SquareOfSum(z, w);
  }

  lemma SquareOfSum(a: real, b: real)
    ensures (a + b) * (a + b) == a * a + 2.0 * (a * b) + b * b
  {
  }

  lemma WeightedSum(d: real, e: real, x: real, y: real, z: real, u: real, v: real, w: real)
    ensures 2.0 * (d * e) * (x * u) + 2.0 * (d * e) * (y * v) + 2.0 * (d * e) * (z * w)
         == 2.0 * (d * e) * (x * u + y * v + z * w)
    ensures e * e * (x * x) + e * e * (y * y) + e * e * (z * z) == e * e * (x * x + y * y + z * z)
    ensures d * d * (u * u) + d * d * (v * v) + d * d * (w * w) == d * d * (u * u + v * v + w * w)
  {
  }

  lemma CloserSymmetric(p: Center, q: Center, d: real)
    ensures Closer(p, q, d) <==> Closer(q, p, d)
  {
    var (x, y, z) := (p.x - q.x, p.y - q.y, p.z - q.z);
    assert (-x) * (-x) == x * x && (-y) * (-y) == y * y && (-z) * (-z) == z * z;
  }

  // ----- Over a whole run -----

  /** What the monitor's answers and window should be, over a whole run: the centres of the
      valid frames since the ship was last judged to have left. */
  function Visit(s: Settings, frames: seq<Frame>): seq<Center> {
    if frames == [] then []
    else
      var before, f := Visit(s, frames[..|frames| - 1]), frames[|frames| - 1];
      if f.EmptyForeground? then before
      else if IsValid(s, f) then before + [f.center]
      else []
  }

  /** The status the last frame of a run deserves: stable exactly when there are enough valid
      frames and the newest centre is close to the one `frames - 1` valid frames earlier. */
  function Verdict(s: Settings, frames: seq<Frame>): Status
    requires frames != [] && s.frames >= 1
  {
    var visit := Visit(s, frames);
    var m := |visit|;
    if !IsValid(s, frames[|frames| - 1]) then Leave
    else if m >= s.frames && Closer(visit[m - 1], visit[m - s.frames], s.distance) then Stable
    else Moving
  }

  class LidarBgDiff {
    var settings: Settings
    var centerHistory: seq<Center>

    constructor (s: Settings)
      ensures settings == s && centerHistory == []
    {
      settings, centerHistory := s, [];
    }

    method JudgeShipStatus(hasShip: bool, points: int, center: Center) returns (r: Status)
      requires settings.frames >= 1
      modifies this`centerHistory
      ensures !hasShip || points < settings.minPoints ==> r == Leave && centerHistory == []
      ensures hasShip && points >= settings.minPoints ==>
                && centerHistory == Slid(old(centerHistory), center, settings.frames)
                && r == if |centerHistory| >= settings.frames && Closer(center, centerHistory[0], settings.distance)
                        then Stable else Moving
    {
      if !hasShip || points < settings.minPoints {
        centerHistory := [];
        return Leave;
      }
      centerHistory := centerHistory + [center];
      if |centerHistory| > settings.frames {
        centerHistory := centerHistory[1..];
      }
      if |centerHistory| < settings.frames {
        return Moving;
      }
      var first := centerHistory[0];
      if Closer(center, first, settings.distance) {
        r := Stable;
      } else {
        r := Moving;
      }
    }

    /** A frame with an empty foreground answers Leave without touching the window. */
    method MonitorShip(f: Frame, ghost past: seq<Frame>) returns (r: Status)
      requires settings.frames >= 1 && centerHistory == LastOf(Visit(settings, past), settings.frames)
      modifies this`centerHistory
      ensures centerHistory == LastOf(Visit(settings, past + [f]), settings.frames)
      ensures r == Verdict(settings, past + [f])
      ensures f.EmptyForeground? ==> r == Leave && centerHistory == old(centerHistory)
    {
      ghost var s, before := settings, Visit(settings, past);
      assert (past + [f])[..|past|] == past;
      if f.EmptyForeground? {
        return Leave;
      }
      SlideWindow(before, f.center, s.frames);
      r := JudgeShipStatus(f.hasShip, f.points, f.center);
    }
  }

  /** A whole run of the monitor: each answer is the one the frames so far deserve. */
  method Monitor(s: Settings, frames: seq<Frame>) returns (answers: seq<Status>, window: seq<Center>)
    requires s.frames >= 1
    ensures |answers| == |frames| && window == LastOf(Visit(s, frames), s.frames)
    ensures forall n :: 0 <= n < |frames| ==> answers[n] == Verdict(s, frames[..n + 1])
  {
    var monitor := new LidarBgDiff(s);
    answers := [];
    assert frames[..0] == [];
    for n := 0 to |frames|
      invariant monitor.settings == s && |answers| == n
      invariant monitor.centerHistory == LastOf(Visit(s, frames[..n]), s.frames)
      invariant forall i :: 0 <= i < n ==> answers[i] == Verdict(s, frames[..i + 1])
    {
      assert frames[..n + 1] == frames[..n] + [frames[n]];
      var r := monitor.MonitorShip(frames[n], frames[..n]);
      answers := answers + [r];
    }
    assert frames[..|frames|] == frames;
    window := monitor.centerHistory;
  }

  /** A frame with nothing in the foreground neither ends a visit nor counts towards it. */
  lemma {:induction false} EmptyFramesKeepVisit(s: Settings, x: seq<Frame>, y: seq<Frame>)
    ensures Visit(s, x + [EmptyForeground] + y) == Visit(s, x + y)
  {
    if y == [] {
      assert x + [EmptyForeground] + y == x + [EmptyForeground] && x + y == x;
      assert (x + [EmptyForeground])[..|x|] == x;
    } else {
      var n := |y| - 1;
      EmptyFramesKeepVisit(s, x, y[..n]);
      assert (x + [EmptyForeground] + y)[..|x| + 1 + n] == x + [EmptyForeground] + y[..n];
      assert (x + y)[..|x| + n] == x + y[..n];
    }
  }

  /** So taking it out of a run changes no other answer. */
  lemma EmptyFramesDoNotMatter(s: Settings, x: seq<Frame>, y: seq<Frame>)
    requires s.frames >= 1 && y != []
    ensures Verdict(s, x + [EmptyForeground] + y) == Verdict(s, x + y)
  {
    EmptyFramesKeepVisit(s, x, y);
  }
}
