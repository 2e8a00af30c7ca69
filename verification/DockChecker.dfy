/**
 The docking check: fifty consecutive ship poses are accepted as docked when their mean
 heading and wharf distance are right and both fluctuate little; the middle pose becomes
 the base frame, for good.  Doubles are exact reals here.
 */
module DockChecker {
  import opened Basics

  const WINDOW_SIZE: nat := 50
  const MAX_ANGLE_ERR: real := 3.0
  const MAX_DIST_MIN: real := 1.0
  const MAX_DIST_MAX: real := 8.0
  const MAX_YAW_FLUCTUATION: real := 2.0
  const MAX_DIST_FLUCTUATION: real := 0.5

  datatype ShipPose = ShipPose(tx: real, ty: real, tz: real, rx: real, ry: real, rz: real, timestamp: nat)

  /** The fitted wharf line and its heading, taken as given. */
  datatype Wharf = Wharf(a: real, b: real, c: real, yaw: real)

  function Abs(x: real): real {
    if x < 0.0 then -x else x
  }

  // ----- Angles -----

  /** C's `fmod`: the remainder of a division truncated toward zero. */
  function Fmod(x: real, m: real): real
    requires m > 0.0
  {
    var q := x / m;
    var t := if q >= 0.0 then q.Floor else -((-q).Floor);
    x - m * t as real
  }

  function WrapAngle(deg: real): real {
    var d := Fmod(deg + 180.0, 360.0);
    (if d < 0.0 then d + 360.0 else d) - 180.0
  }

  /** The result lies in [-180, 180) and differs from the argument by whole turns. */
  lemma WrapAngleMeaning(deg: real) returns (turns: int)
    ensures -180.0 <= WrapAngle(deg) < 180.0
    ensures deg == WrapAngle(deg) + 360.0 * turns as real
  {
    var q := (deg + 180.0) / 360.0;
    var t := if q >= 0.0 then q.Floor else -((-q).Floor);
    var d := Fmod(deg + 180.0, 360.0);
    assert deg + 180.0 == 360.0 * q;
    assert d == 360.0 * (q - t as real);
    turns := if d < 0.0 then t - 1 else t;
  }

  /** Heading difference the short way round. */
  function Apart(x: real, y: real): real {
    Abs(WrapAngle(x - y))
  }

  /** It is the least of the differences over all whole turns. */
  lemma ApartIsLeast(x: real, y: real, turns: int)
    ensures Apart(x, y) <= Abs(x - y - 360.0 * turns as real)
  {
    var k := WrapAngleMeaning(x - y);
    var n := k - turns;
    assert x - y - 360.0 * turns as real == WrapAngle(x - y) + 360.0 * n as real;
    if n >= 1 {
      assert 360.0 * n as real >= 360.0;
    } else if n <= -1 {
      assert 360.0 * n as real <= -360.0;
    }
  }

  function DistanceToWharf(w: Wharf, x: real, y: real): real {
    Abs(w.a * x + w.b * y + w.c)
  }

  /** The line's points. */
  ghost predicate OnLine(w: Wharf, p: real, q: real) {
    w.a * p + w.b * q + w.c == 0.0
  }

  function Square(x: real): real {
    x * x
  }

  /** The line's equation at a point, from any point of the line. */
  lemma FromLine(w: Wharf, x: real, y: real, p: real, q: real)
    requires OnLine(w, p, q)
    ensures Square(DistanceToWharf(w, x, y)) == Square(w.a * (x - p) + w.b * (y - q))
  {
    var d := w.a * x + w.b * y + w.c;
    assert d == w.a * (x - p) + w.b * (y - q);
    assert Square(-d) == Square(d);
  }

  /** Lagrange's identity in the plane. */
  lemma Lagrange(a: real, b: real, u: real, v: real)
    ensures (Square(a) + Square(b)) * (Square(u) + Square(v)) == Square(a * u + b * v) + Square(a * v - b * u)
  {
    var au, bv, av, bu := a * u, b * v, a * v, b * u;
    MovedSquare(a, u);
    MovedSquare(b, v);
    MovedSquare(a, v);
    MovedSquare(b, u);
    assert au * bv == av * bu;
    FourSquares(au, bv, av, bu);
    Distributed(Square(a), Square(b), Square(u), Square(v));
  }

  lemma MovedSquare(x: real, y: real)
    ensures Square(x) * Square(y) == Square(x * y)
  {
  }

  lemma Distributed(a: real, b: real, u: real, v: real)
    ensures (a + b) * (u + v) == a * u + b * v + a * v + b * u
  {
  }

  lemma FourSquares(au: real, bv: real, av: real, bu: real)
    requires au * bv == av * bu
    ensures Square(au) + Square(bv) + Square(av) + Square(bu) == Square(au + bv) + Square(av - bu)
  {
  }

  /** It is the distance to the line, for coefficients of unit length: no point of the line is
      closer... */
  lemma DistanceIsLeast(w: Wharf, x: real, y: real, p: real, q: real)
    requires OnLine(w, p, q)
    ensures 0.0 <= DistanceToWharf(w, x, y)
    ensures Square(DistanceToWharf(w, x, y)) <= (Square(w.a) + Square(w.b)) * (Square(x - p) + Square(y - q))
  {
    FromLine(w, x, y, p, q);
    Lagrange(w.a, w.b, x - p, y - q);
    NeverNegative(w.a * (y - q) - w.b * (x - p));
  }

  lemma NeverNegative(x: real)
    ensures Square(x) >= 0.0
  {
  }

  /** ...and its foot is that close. */
  lemma DistanceIsReached(w: Wharf, x: real, y: real) returns (p: real, q: real)
    requires w.a != 0.0 || w.b != 0.0
    ensures OnLine(w, p, q)
    ensures Square(DistanceToWharf(w, x, y)) == (Square(w.a) + Square(w.b)) * (Square(x - p) + Square(y - q))
  {
    var n := Square(w.a) + Square(w.b);
    NeverNegative(w.a);
    NeverNegative(w.b);
    NotBothZero(w.a, w.b);
    var t := (w.a * x + w.b * y + w.c) / n;
    assert t * n == w.a * x + w.b * y + w.c;
    p, q := x - w.a * t, y - w.b * t;
    FootOnLine(w, x, y, t, n);
    FromLine(w, x, y, p, q);
    Lagrange(w.a, w.b, x - p, y - q);
    Perpendicular(w.a, w.b, t);
  }

  lemma PositiveProduct(x: real, y: real, product: real)
    requires x > 0.0 && y > 0.0 && product == x * y
    ensures product > 0.0
  {
  }

  lemma OnlyZeroVanishes(x: real)
    requires x != 0.0
    ensures Square(x) > 0.0
  {
    if x > 0.0 { PositiveProduct(x, x, Square(x)); } else { PositiveProduct(-x, -x, Square(x)); }
  }

  lemma NotBothZero(a: real, b: real)
    requires a != 0.0 || b != 0.0
    ensures Square(a) + Square(b) > 0.0
  {
    NeverNegative(a);
    NeverNegative(b);
    if a != 0.0 { OnlyZeroVanishes(a); } else { OnlyZeroVanishes(b); }
  }

  lemma FootOnLine(w: Wharf, x: real, y: real, t: real, n: real)
    requires n == Square(w.a) + Square(w.b) && t * n == w.a * x + w.b * y + w.c
    ensures OnLine(w, x - w.a * t, y - w.b * t)
  {
    assert w.a * (x - w.a * t) == w.a * x - Square(w.a) * t;
    assert w.b * (y - w.b * t) == w.b * y - Square(w.b) * t;
    assert t * n == Square(w.a) * t + Square(w.b) * t;
  }

  lemma Perpendicular(a: real, b: real, t: real)
    ensures Square(a * (b * t) - b * (a * t)) == 0.0
  {
    assert a * (b * t) == b * (a * t);
  }

  // ----- The window -----

  function Yaws(buf: seq<ShipPose>): (r: seq<real>)
    ensures |r| == |buf| && forall i :: 0 <= i < |buf| ==> r[i] == WrapAngle(buf[i].rz)
  {
    seq(|buf|, i requires 0 <= i < |buf| => WrapAngle(buf[i].rz))
  }

  function Dists(w: Wharf, buf: seq<ShipPose>): (r: seq<real>)
    ensures |r| == |buf| && forall i :: 0 <= i < |buf| ==> r[i] == DistanceToWharf(w, buf[i].tx, buf[i].ty)
    ensures forall i :: 0 <= i < |r| ==> r[i] >= 0.0
  {
    seq(|buf|, i requires 0 <= i < |buf| => DistanceToWharf(w, buf[i].tx, buf[i].ty))
  }

  function Sum(xs: seq<real>): real {
    if xs == [] then 0.0 else Sum(xs[..|xs| - 1]) + xs[|xs| - 1]
  }

  /** Adding up two lists. */
  lemma {:induction false} SumConcat(xs: seq<real>, ys: seq<real>)
    ensures Sum(xs + ys) == Sum(xs) + Sum(ys)
    ensures |xs| == 1 ==> Sum(xs) == xs[0]
  {
    if ys == [] {
      assert xs + ys == xs;
    } else {
      var n := |ys| - 1;
      assert (xs + ys)[..|xs| + n] == xs + ys[..n];
      SumConcat(xs, ys[..n]);
    }
  }

  function Mean(xs: seq<real>): real {
    Sum(xs) / WINDOW_SIZE as real
  }

  /** No two values are `d` or more apart. */
  ghost predicate Steady(xs: seq<real>, d: real) {
    forall i, j :: 0 <= i < |xs| && 0 <= j < |xs| ==> xs[i] - xs[j] < d
  }

  predicate AlongWharf(w: Wharf, buf: seq<ShipPose>) {
    Abs(WrapAngle(WrapAngle(Mean(Yaws(buf))) - w.yaw)) < MAX_ANGLE_ERR
  }

  predicate InBand(w: Wharf, buf: seq<ShipPose>) {
    MAX_DIST_MIN <= Mean(Dists(w, buf)) <= MAX_DIST_MAX
  }

  /** What the check decides. */
  ghost predicate Docked(w: Wharf, buf: seq<ShipPose>) {
    && |buf| == WINDOW_SIZE
    && AlongWharf(w, buf) && InBand(w, buf)
    && Steady(Yaws(buf), MAX_YAW_FLUCTUATION)
    && Steady(Dists(w, buf), MAX_DIST_FLUCTUATION)
  }

  lemma {:induction false} SumBounds(xs: seq<real>, lo: real, hi: real)
    requires forall i :: 0 <= i < |xs| ==> lo <= xs[i] <= hi
    ensures |xs| as real * lo <= Sum(xs) <= |xs| as real * hi
  {
    if xs != [] {
      var n := |xs| - 1;
      SumBounds(xs[..n], lo, hi);
      assert |xs| as real == n as real + 1.0;
      assert |xs| as real * lo == n as real * lo + lo && |xs| as real * hi == n as real * hi + hi;
    }
  }

  /** In a steady window every value is close to the mean. */
  lemma NearMean(xs: seq<real>, d: real, k: nat)
    requires |xs| == WINDOW_SIZE && Steady(xs, d) && k < |xs|
    ensures Abs(xs[k] - Mean(xs)) < d
  {
    var hi := LargestOf(xs);
    var lo := SmallestOf(xs);
    SumBounds(xs, xs[lo], xs[hi]);
    assert xs[lo] <= Mean(xs) <= xs[hi];
    assert xs[hi] - xs[lo] < d;
  }

  lemma LargestOf(xs: seq<real>) returns (m: nat)
    requires xs != []
    ensures m < |xs| && forall i :: 0 <= i < |xs| ==> xs[i] <= xs[m]
  {
    m := 0;
    for n := 1 to |xs|
      invariant m < n && forall i :: 0 <= i < n ==> xs[i] <= xs[m]
    {
      if xs[n] > xs[m] { m := n; }
    }
  }

  lemma SmallestOf(xs: seq<real>) returns (m: nat)
    requires xs != []
    ensures m < |xs| && forall i :: 0 <= i < |xs| ==> xs[m] <= xs[i]
  {
    m := 0;
    for n := 1 to |xs|
      invariant m < n && forall i :: 0 <= i < n ==> xs[m] <= xs[i]
    {
      if xs[n] < xs[m] { m := n; }
    }
  }

  /** Every single pose of an accepted window, not only their mean, heads along the wharf and
      lies in the docking band. */
  lemma DockedMeansEveryPose(w: Wharf, buf: seq<ShipPose>, k: nat)
    requires Docked(w, buf) && k < |buf|
    ensures Apart(buf[k].rz, w.yaw) < MAX_ANGLE_ERR + MAX_YAW_FLUCTUATION
    ensures MAX_DIST_MIN - MAX_DIST_FLUCTUATION < DistanceToWharf(w, buf[k].tx, buf[k].ty)
            < MAX_DIST_MAX + MAX_DIST_FLUCTUATION
  {
    var yaws, dists := Yaws(buf), Dists(w, buf);
    NearMean(dists, MAX_DIST_FLUCTUATION, k);
    NearMean(yaws, MAX_YAW_FLUCTUATION, k);
    var mean := Mean(yaws);
    var t0 := WrapAngleMeaning(buf[k].rz);
    var t1 := WrapAngleMeaning(mean);
    var t2 := WrapAngleMeaning(WrapAngle(mean) - w.yaw);
    var turns := t0 + t1 + t2;
    TurnsAdd(t0, t1, t2);
    assert buf[k].rz - w.yaw - 360.0 * turns as real == (yaws[k] - mean) + WrapAngle(WrapAngle(mean) - w.yaw);
    ApartIsLeast(buf[k].rz, w.yaw, turns);
  }

  lemma TurnsAdd(a: int, b: int, c: int)
    ensures 360.0 * (a + b + c) as real == 360.0 * a as real + 360.0 * b as real + 360.0 * c as real
  {
  }

  // ----- Headings either side of the half turn -----

  /** A steady ship is not always accepted: wrapped headings jump at the half turn.  For poses
      whose headings are pairwise close the short way round, the fluctuation test fails exactly
      when some lie on either side of it. */
  lemma FluctuationSeesSeam(buf: seq<ShipPose>)
    requires PairwiseClose(buf)
    ensures Steady(Yaws(buf), MAX_YAW_FLUCTUATION) <==> !Straddles(buf)
  {
    var y := Yaws(buf);
    forall i, j | 0 <= i < |buf| && 0 <= j < |buf|
      ensures y[i] - y[j] < MAX_YAW_FLUCTUATION || (y[i] > 178.0 && y[j] < -178.0)
    {
      var a := WrapAngleMeaning(buf[i].rz);
      var b := WrapAngleMeaning(buf[j].rz);
      var c := WrapAngleMeaning(buf[i].rz - buf[j].rz);
      var n := a - b - c;
      TurnsAdd(a, -b, -c);
      assert WrapAngle(buf[i].rz - buf[j].rz) == y[i] - y[j] + 360.0 * n as real;
      if n >= 1 {
        assert 360.0 * n as real >= 360.0;
      } else if n <= -1 {
        assert 360.0 * n as real <= -360.0;
        assert n == -1;
      }
    }
  }

  /** Some headings lie within two degrees of the half turn on either side of it. */
  ghost predicate Straddles(buf: seq<ShipPose>) {
    exists i, j :: 0 <= i < |buf| && 0 <= j < |buf| && Yaws(buf)[i] > 178.0 && Yaws(buf)[j] < -178.0
  }

  ghost predicate PairwiseClose(buf: seq<ShipPose>) {
    forall i, j :: 0 <= i < |buf| && 0 <= j < |buf| ==> Apart(buf[i].rz, buf[j].rz) < 2.0
  }

  /** The headings laid out around the first one, each the short way round from it. */
  function Unrolled(buf: seq<ShipPose>): (r: seq<real>)
    ensures |r| == |buf|
    ensures forall i :: 0 <= i < |buf| ==> r[i] == WrapAngle(buf[0].rz) + WrapAngle(buf[i].rz - buf[0].rz)
  {
    seq(|buf|, i requires 0 <= i < |buf| => WrapAngle(buf[0].rz) + WrapAngle(buf[i].rz - buf[0].rz))
  }

  /** What a steady, docked ship is, whichever way headings are numbered: they are pairwise
      close the short way round, their mean is close to the wharf's, and the distances are
      steady with a mean in the band. */
  ghost predicate Moored(w: Wharf, buf: seq<ShipPose>) {
    && |buf| == WINDOW_SIZE
    && PairwiseClose(buf) && Apart(Mean(Unrolled(buf)), w.yaw) < 3.0
    && Steady(Dists(w, buf), 0.5) && 1.0 <= Mean(Dists(w, buf)) <= 8.0
  }

  /** Whole turns do not matter. */
  lemma WrapPeriodic(x: real, y: real, turns: int)
    requires x == y + 360.0 * turns as real
    ensures WrapAngle(x) == WrapAngle(y)
  {
    var a := WrapAngleMeaning(x);
    var b := WrapAngleMeaning(y);
    var n := a - b - turns;
    TurnsAdd(a, -b, -turns);
    assert WrapAngle(y) - WrapAngle(x) == 360.0 * n as real;
    assert n == 0;
  }

  lemma SteadyIsClose(buf: seq<ShipPose>, i: nat, j: nat)
    requires i < |buf| && j < |buf| && Steady(Yaws(buf), MAX_YAW_FLUCTUATION)
    ensures WrapAngle(buf[i].rz - buf[j].rz) == Yaws(buf)[i] - Yaws(buf)[j]
    ensures Apart(buf[i].rz, buf[j].rz) < MAX_YAW_FLUCTUATION
  {
    var y := Yaws(buf);
    var a := WrapAngleMeaning(buf[i].rz);
    var b := WrapAngleMeaning(buf[j].rz);
    TurnsAdd(a, -b, 0);
    WrapPeriodic(buf[i].rz - buf[j].rz, y[i] - y[j], a - b);
    assert y[i] - y[j] < 2.0 && y[j] - y[i] < 2.0;
    WrapSmall(y[i] - y[j]);
  }

  lemma WrapSmall(x: real)
    requires -180.0 <= x < 180.0
    ensures WrapAngle(x) == x
  {
    var q := (x + 180.0) / 360.0;
    assert 0.0 <= q < 1.0 && q.Floor == 0;
  }

  /** With steady headings, laying them out around the first one changes nothing. */
  lemma UnrolledIsYaws(buf: seq<ShipPose>)
    requires Steady(Yaws(buf), MAX_YAW_FLUCTUATION)
    ensures Unrolled(buf) == Yaws(buf)
  {
    forall i | 0 <= i < |buf| ensures Unrolled(buf)[i] == Yaws(buf)[i] {
      SteadyIsClose(buf, i, 0);
    }
  }

  lemma SteadyIff(buf: seq<ShipPose>)
    ensures Steady(Yaws(buf), MAX_YAW_FLUCTUATION) <==> PairwiseClose(buf) && !Straddles(buf)
  {
    if PairwiseClose(buf) {
      FluctuationSeesSeam(buf);
    }
    if Steady(Yaws(buf), MAX_YAW_FLUCTUATION) {
      forall i, j | 0 <= i < |buf| && 0 <= j < |buf| ensures Apart(buf[i].rz, buf[j].rz) < MAX_YAW_FLUCTUATION {
        SteadyIsClose(buf, i, j);
      }
    }
  }

  /** The check accepts exactly the windows of a moored ship whose headings do not straddle the
      half turn. */
  lemma DockedIffMoored(w: Wharf, buf: seq<ShipPose>)
    ensures Docked(w, buf) <==> Moored(w, buf) && !Straddles(buf)
  {
    SteadyIff(buf);
    if Steady(Yaws(buf), MAX_YAW_FLUCTUATION) {
      UnrolledIsYaws(buf);
      WrapInside(Mean(Yaws(buf)), w.yaw);
    }
  }

  lemma WrapInside(x: real, y: real)
    ensures Apart(WrapAngle(x), y) == Apart(x, y)
  {
    var t := WrapAngleMeaning(x);
    WrapPeriodic(x - y, WrapAngle(x) - y, t);
  }

  lemma SeamExample()
    ensures Apart(179.5, -179.5) < MAX_YAW_FLUCTUATION
    ensures WrapAngle(179.5) == 179.5 && WrapAngle(-179.5) == -179.5
    ensures forall w: Wharf, buf: seq<ShipPose> ::
              |buf| == WINDOW_SIZE && buf[0].rz == 179.5 && buf[1].rz == -179.5 ==> !Docked(w, buf)
  {
    assert WrapAngle(179.5) == 179.5 && WrapAngle(-179.5) == -179.5;
    assert 359.0 == 179.5 - (-179.5);
    ApartIsLeast(179.5, -179.5, 1);
    forall w: Wharf, buf: seq<ShipPose> | |buf| == WINDOW_SIZE && buf[0].rz == 179.5 && buf[1].rz == -179.5
      ensures !Docked(w, buf)
    {
      assert Yaws(buf)[0] - Yaws(buf)[1] == 359.0;
    }
  }

  /** A moored ship that the check rejects: fifty poses two metres off the wharf, heading half a
      degree to either side of it. */
  lemma MooredButRejected() returns (w: Wharf, buf: seq<ShipPose>)
    ensures Moored(w, buf) && !Docked(w, buf)
  {
    w := Wharf(1.0, 0.0, 0.0, 180.0);
    var first, other := ShipPose(2.0, 0.0, 0.0, 0.0, 0.0, 179.5, 0), ShipPose(2.0, 0.0, 0.0, 0.0, 0.0, -179.5, 0);
    buf := seq(WINDOW_SIZE, i => if i == 0 then first else other);
    assert buf[0] == first && buf[1] == other;
    SeamExample();
    SeamIsClose(buf);
    SeamMean(buf);
    SameDistance(w, buf, 2.0);
  }

  /** No heading is further than half a degree from the half turn. */
  ghost predicate NearSeam(buf: seq<ShipPose>) {
    forall i :: 0 <= i < |buf| ==> buf[i].rz == 179.5 || buf[i].rz == -179.5
  }

  lemma SeamIsClose(buf: seq<ShipPose>)
    requires NearSeam(buf)
    ensures PairwiseClose(buf)
  {
    SeamHeadings();
    forall i, j | 0 <= i < |buf| && 0 <= j < |buf| ensures Apart(buf[i].rz, buf[j].rz) < MAX_YAW_FLUCTUATION {
      var d := buf[i].rz - buf[j].rz;
      assert d == 0.0 || d == 359.0 || d == -359.0;
    }
  }

  lemma SeamMean(buf: seq<ShipPose>)
    requires NearSeam(buf) && |buf| == WINDOW_SIZE && buf[0].rz == 179.5
    ensures Apart(Mean(Unrolled(buf)), 180.0) < MAX_ANGLE_ERR
  {
    SeamHeadings();
    WrapSmall(179.5);
    var u := Unrolled(buf);
    forall i | 0 <= i < |u| ensures 179.5 <= u[i] <= 180.5 {
      var d := buf[i].rz - 179.5;
      assert d == 0.0 || d == -359.0;
    }
    SumBounds(u, 179.5, 180.5);
    var mean := Mean(u);
    assert |u| as real == 50.0 && 179.5 <= mean <= 180.5;
    ApartIsLeast(mean, 180.0, 0);
    assert Abs(mean - 180.0 - 360.0 * 0 as real) <= 0.5;
  }

  lemma SameDistance(w: Wharf, buf: seq<ShipPose>, d: real)
    requires |buf| == WINDOW_SIZE && MAX_DIST_MIN <= d <= MAX_DIST_MAX
    requires forall i :: 0 <= i < |buf| ==> DistanceToWharf(w, buf[i].tx, buf[i].ty) == d
    ensures Steady(Dists(w, buf), MAX_DIST_FLUCTUATION) && InBand(w, buf)
  {
    SumBounds(Dists(w, buf), d, d);
  }

  lemma SeamHeadings()
    ensures WrapAngle(-359.0) == 1.0 && WrapAngle(359.0) == -1.0 && WrapAngle(0.0) == 0.0
  {
    WrapSmall(0.0);
    WrapSmall(1.0);
    WrapSmall(-1.0);
    WrapPeriodic(-359.0, 1.0, -1);
    WrapPeriodic(359.0, -1.0, 1);
  }

  // ----- Whole runs -----

  datatype Checker = Checker(buf: seq<ShipPose>, base: Option<ShipPose>)

  datatype Call = AddPose(pose: ShipPose) | Ask

  ghost function Next(w: Wharf, c: Checker, call: Call): Checker {
    if c.base.Some? then c
    else match call
      case AddPose(p) => c.(buf := Slid(c.buf, p, WINDOW_SIZE))
      case Ask => if Docked(w, c.buf) then c.(base := Some(c.buf[WINDOW_SIZE / 2])) else c
  }

  ghost function Run(w: Wharf, calls: seq<Call>): Checker {
    if calls == [] then Checker([], None) else Next(w, Run(w, calls[..|calls| - 1]), calls[|calls| - 1])
  }

  function Poses(calls: seq<Call>): seq<ShipPose> {
    if calls == [] then []
    else Poses(calls[..|calls| - 1]) + match calls[|calls| - 1] case AddPose(p) => [p] case Ask => []
  }

  /** In every run: until a base frame is found the window is the newest fifty poses; a base
      frame is the middle of a docked window. */
  lemma {:induction false} RunInvariant(w: Wharf, calls: seq<Call>)
    ensures var c := Run(w, calls);
            && |c.buf| <= 50
            && (c.base.None? ==> c.buf == LastOf(Poses(calls), 50))
            && (c.base.Some? ==> Docked(w, c.buf) && c.base.value == c.buf[25])
  {
    if calls != [] {
      var n := |calls| - 1;
      RunInvariant(w, calls[..n]);
      var p := Poses(calls[..n]);
      match calls[n] {
        case AddPose(pose) => SlideWindow(p, pose, WINDOW_SIZE);
        case Ask => assert Poses(calls) == p;
      }
    }
  }

  /** The frame found is a good one, and every pose of its window with it. */
  lemma {:induction false} BaseFrameIsDocked(w: Wharf, calls: seq<Call>, k: nat)
    requires Run(w, calls).base.Some? && k < 50
    ensures var c := Run(w, calls);
            && |c.buf| == 50 && c.base.value in c.buf
            && Apart(c.buf[k].rz, w.yaw) < 5.0
            && 0.5 < DistanceToWharf(w, c.buf[k].tx, c.buf[k].ty) < 8.5
  {
    RunInvariant(w, calls);
    DockedMeansEveryPose(w, Run(w, calls).buf, k);
  }

  /** Once found it never changes. */
  lemma {:induction false} BaseFrameIsFinal(w: Wharf, calls: seq<Call>, n: nat)
    requires n <= |calls| && Run(w, calls[..n]).base.Some?
    ensures Run(w, calls) == Run(w, calls[..n])
  {
    if n == |calls| {
      assert calls[..n] == calls;
    } else {
      var m := |calls| - 1;
      assert calls[..m][..n] == calls[..n];
      BaseFrameIsFinal(w, calls[..m], n);
    }
  }

  // ----- The object -----

  /** `m` bounds the first `n` values from below or above, and is one of them unless it is
      still the start value. */
  ghost predicate IsMin(xs: seq<real>, n: nat, m: real, start: real) {
    && n <= |xs| && m <= start
    && (forall i :: 0 <= i < n ==> m <= xs[i])
    && (m == start || exists i :: 0 <= i < n && xs[i] == m)
  }

  ghost predicate IsMax(xs: seq<real>, n: nat, m: real, start: real) {
    && n <= |xs| && m >= start
    && (forall i :: 0 <= i < n ==> xs[i] <= m)
    && (m == start || exists i :: 0 <= i < n && xs[i] == m)
  }

  /** When the extremes are real ones, their difference decides steadiness. */
  lemma FluctuationIsSteadiness(xs: seq<real>, lo: real, hi: real, d: real)
    requires xs != [] && IsMin(xs, |xs|, lo, 1e9) && IsMax(xs, |xs|, hi, -1e9)
    requires forall i :: 0 <= i < |xs| ==> xs[i] > -1e9
    requires exists i :: 0 <= i < |xs| && xs[i] < 1e9
    ensures hi - lo < d <==> Steady(xs, d)
  {
    var j :| 0 <= j < |xs| && xs[j] < 1e9;
    assert lo <= xs[j] && xs[0] <= hi;
    var a :| 0 <= a < |xs| && xs[a] == lo;
    var b :| 0 <= b < |xs| && xs[b] == hi;
    assert Steady(xs, d) ==> xs[b] - xs[a] < d;
  }

  /** Sum and extremes of the first `n` values. */
  ghost predicate Surveyed(xs: seq<real>, n: nat, sum: real, lo: real, hi: real) {
    n <= |xs| && sum == Sum(xs[..n]) && IsMin(xs, n, lo, 1e9) && IsMax(xs, n, hi, -1e9)
  }

  lemma SurveyStep(xs: seq<real>, n: nat, sum: real, lo: real, hi: real)
    requires n < |xs| && Surveyed(xs, n, sum, lo, hi)
    ensures Surveyed(xs, n + 1, sum + xs[n], if xs[n] < lo then xs[n] else lo, if xs[n] > hi then xs[n] else hi)
  {
    assert xs[..n + 1][..n] == xs[..n];
  }

  lemma YawTest(buf: seq<ShipPose>, ymin: real, ymax: real)
    requires buf != []
    requires IsMin(Yaws(buf), |buf|, ymin, 1e9) && IsMax(Yaws(buf), |buf|, ymax, -1e9)
    ensures ymax - ymin < MAX_YAW_FLUCTUATION <==> Steady(Yaws(buf), MAX_YAW_FLUCTUATION)
  {
    var ys := Yaws(buf);
    forall i | 0 <= i < |ys| ensures -1e9 < ys[i] < 1e9 {
      var turns := WrapAngleMeaning(buf[i].rz);
    }
    assert ys[0] < 1e9;
    FluctuationIsSteadiness(ys, ymin, ymax, MAX_YAW_FLUCTUATION);
  }

  /** If no distance is below the start value of the minimum, the mean is far out of the band
      anyway. */
  lemma DistTest(ds: seq<real>, dmin: real, dmax: real)
    requires |ds| == WINDOW_SIZE && forall i :: 0 <= i < |ds| ==> ds[i] >= 0.0
    requires IsMin(ds, |ds|, dmin, 1e9) && IsMax(ds, |ds|, dmax, -1e9)
    requires Mean(ds) <= MAX_DIST_MAX
    ensures dmax - dmin < MAX_DIST_FLUCTUATION <==> Steady(ds, MAX_DIST_FLUCTUATION)
  {
    var k := SmallestOf(ds);
    var h := LargestOf(ds);
    SumBounds(ds, ds[k], ds[h]);
    assert ds[k] <= Mean(ds);
    assert ds[k] < 1e9;
    FluctuationIsSteadiness(ds, dmin, dmax, MAX_DIST_FLUCTUATION);
  }

  class WharfDockChecker {
    var wharf: Wharf
    var poseBuf: seq<ShipPose>
    var hasFoundBaseFrame: bool
    var baseFrame: ShipPose

    ghost function State(): Checker
      reads this
    {
      Checker(poseBuf, if hasFoundBaseFrame then Some(baseFrame) else None)
    }

    constructor (line: Wharf)
      ensures Valid() && wharf == line && State() == Run(line, [])
    {
      wharf := line;
      poseBuf, hasFoundBaseFrame := [], false;
      baseFrame := ShipPose(0.0, 0.0, 0.0, 0.0, 0.0, 0.0, 0);
    }

    /** The window never outgrows its size. */
    ghost predicate Valid()
      reads this
    {
      |poseBuf| <= WINDOW_SIZE
    }

    method AddPoseFrame(pose: ShipPose)
      requires Valid()
      modifies this`poseBuf
      ensures Valid()
      ensures State() == Next(wharf, old(State()), AddPose(pose))
    {
      if hasFoundBaseFrame {
        return;
      }
      poseBuf := poseBuf + [pose];
      if |poseBuf| > WINDOW_SIZE {
        poseBuf := poseBuf[1..];
      }
    }

    /** Sums and extremes over the window, gathered in one pass. */
    method Survey() returns (yawSum: real, distSum: real, ymin: real, ymax: real, dmin: real, dmax: real)
      ensures Surveyed(Yaws(poseBuf), |poseBuf|, yawSum, ymin, ymax)
      ensures Surveyed(Dists(wharf, poseBuf), |poseBuf|, distSum, dmin, dmax)
    {
      yawSum, distSum := 0.0, 0.0;
      ymin, ymax, dmin, dmax := 1e9, -1e9, 1e9, -1e9;
      ghost var ys, ds := Yaws(poseBuf), Dists(wharf, poseBuf);
      for n := 0 to |poseBuf|
        invariant Surveyed(ys, n, yawSum, ymin, ymax) && Surveyed(ds, n, distSum, dmin, dmax)
      {
        var p := poseBuf[n];
        var yaw := WrapAngle(p.rz);
        var dist := DistanceToWharf(wharf, p.tx, p.ty);
        yawSum, ymin, ymax := Observe(yaw, yawSum, ymin, ymax, ys, n);
        distSum, dmin, dmax := Observe(dist, distSum, dmin, dmax, ds, n);
      }
    }

    /** One more value in a sum and its extremes. */
    static method Observe(x: real, sum: real, lo: real, hi: real, ghost xs: seq<real>, ghost n: nat)
      returns (sum': real, lo': real, hi': real)
      requires n < |xs| && xs[n] == x && Surveyed(xs, n, sum, lo, hi)
      ensures Surveyed(xs, n + 1, sum', lo', hi')
    {
      SurveyStep(xs, n, sum, lo, hi);
      sum', lo', hi' := sum + x, lo, hi;
      if x < lo { lo' := x; }
      if x > hi { hi' := x; }
    }

    /** The four tests on a full window. */
    method IsStable() returns (stable: bool)
      requires |poseBuf| == WINDOW_SIZE
      ensures stable == Docked(wharf, poseBuf)
    {
      var yawSum, distSum, ymin, ymax, dmin, dmax := Survey();
      assert Yaws(poseBuf)[..|poseBuf|] == Yaws(poseBuf);
      assert Dists(wharf, poseBuf)[..|poseBuf|] == Dists(wharf, poseBuf);
      var c1 := HeadingTest(yawSum);
      var distMean := distSum / WINDOW_SIZE as real;
      var c2 := distMean >= MAX_DIST_MIN && distMean <= MAX_DIST_MAX;
      var c3 := ymax - ymin < MAX_YAW_FLUCTUATION;
      var c4 := dmax - dmin < MAX_DIST_FLUCTUATION;
      stable := c1 && c2 && c3 && c4;
      YawTest(poseBuf, ymin, ymax);
      assert c2 == InBand(wharf, poseBuf);
      if c2 {
        DistTest(Dists(wharf, poseBuf), dmin, dmax);
      }
    }

    method HeadingTest(yawSum: real) returns (c1: bool)
      requires yawSum == Sum(Yaws(poseBuf))
      ensures c1 == AlongWharf(wharf, poseBuf)
    {
      var yawMean := WrapAngle(yawSum / WINDOW_SIZE as real);
      var angleErr := Abs(WrapAngle(yawMean - wharf.yaw));
      c1 := angleErr < MAX_ANGLE_ERR;
    }

    method GetStableDockBaseFrame() returns (frame: Option<ShipPose>)
      requires Valid()
      modifies this`hasFoundBaseFrame, this`baseFrame
      ensures Valid()
      ensures State() == Next(wharf, old(State()), Ask)
      ensures frame == State().base
    {
      if hasFoundBaseFrame {
        return Some(baseFrame);
      }
      if |poseBuf| < WINDOW_SIZE {
        return None;
      }
      var stable := IsStable();
      if stable {
        baseFrame := poseBuf[WINDOW_SIZE / 2];
        hasFoundBaseFrame := true;
        return Some(baseFrame);
      }
      frame := None;
    }
  }
}
