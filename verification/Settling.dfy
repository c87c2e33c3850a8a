/**
When the position profile of src/motor_controller.c comes to rest: exactly if the velocity
limit is small against one tick of acceleration. The ticks are taken in units of dt.
*/
module Settling {
  import opened Profile

  /** Position error, and velocity as a distance per tick. */
  datatype Point = Point(e: real, u: real)

  function Minus(p: Point): Point {
    Point(-p.e, -p.u)
  }

  /** Braking distance from step u. */
  function Quad(u: real, a: real): real
    requires a > 0.0
  {
    u * u / (2.0 * a)
  }

  /** One tick, for step limit w and change limit a. */
  function Move(w: real, a: real, p: Point): Point
    requires a > 0.0
  {
    var b := Change(p.e, p.u, Quad(p.u, a), w, a);
    Point(p.e + p.u + b / 2.0, p.u + b)
  }

  // ------------------------------------------------------- ticks are moves

  function PointOf(l: Limits, s: Setpoint): Point {
    Point(s.pos - l.target, s.vel * l.dt)
  }

  lemma QuadBrakes(u: real, a: real)
    requires a > 0.0
    ensures Braking(u, a, Quad(u, a))
  {
    DivMul(u * u, 2.0 * a);
  }

  lemma TickMoves(l: Limits, s: Setpoint, w: real, a: real)
    requires Proper(l) && w == l.maxVel * l.dt && a == l.maxAcc * l.dt * l.dt
    ensures a > 0.0 && w >= 0.0 && PointOf(l, Tick(l, s)) == Move(w, a, PointOf(l, s))
  {
    hide Tick, Change, Distance, InSteps, Braking, Quad;
    var t := Tick(l, s);
    var u, x := s.vel * l.dt, t.vel * l.dt;
    StepsExist(l, s.vel, u, w, a);
    StepsExist(l, t.vel, x, w, a);
    StepsOrdered(l, s.vel, u, w, a);
    StepsDistance(l, s.vel, u, w, a);
    QuadBrakes(u, a);
    BrakingUnique(u, a, Distance(s.vel, l.maxAcc), Quad(u, a));
    StepsTick(l, s, u, x, w, a);
    assert PointOf(l, s) == Point(s.pos - l.target, u) && PointOf(l, t) == Point(t.pos - l.target, x);
    var b := Change(s.pos - l.target, u, Distance(s.vel, l.maxAcc), w, a);
    assert Quad(u, a) == Distance(s.vel, l.maxAcc);
    assert Move(w, a, Point(s.pos - l.target, u)) == Point(s.pos - l.target + u + b / 2.0, u + b);
  }

  lemma PointInjective(l: Limits, s: Setpoint, t: Setpoint)
    requires l.dt > 0.0 && PointOf(l, s) == PointOf(l, t)
    ensures s == t
  {
    CancelReal(s.vel, t.vel, l.dt);
  }

  /** Within n ticks the profile does not change any more. */
  predicate SettlesIn(w: real, a: real, p: Point, n: nat)
    requires a > 0.0
    decreases n
  {
    Move(w, a, p) == p || (n > 0 && SettlesIn(w, a, Move(w, a, p), n - 1))
  }

  /** The run from s reaches a state that a tick leaves as it is. */
  ghost predicate Settles(l: Limits, s: Setpoint)
    requires Proper(l)
  {
    exists n: nat :: Tick(l, Ticks(l, s, n)) == Ticks(l, s, n)
  }

  lemma {:induction false} TicksShift(l: Limits, s: Setpoint, n: nat)
    requires Proper(l)
    ensures Ticks(l, Tick(l, s), n) == Ticks(l, s, n + 1)
  {
    hide Tick;
    if n > 0 {
      TicksShift(l, s, n - 1);
    }
  }

  lemma {:induction false} SettledTicks(l: Limits, s: Setpoint, w: real, a: real, n: nat)
    requires Proper(l) && w == l.maxVel * l.dt && a == l.maxAcc * l.dt * l.dt && a > 0.0
    ensures SettlesIn(w, a, PointOf(l, s), n) ==> Settles(l, s)
    ensures Tick(l, Ticks(l, s, n)) == Ticks(l, s, n) ==> SettlesIn(w, a, PointOf(l, s), n)
    decreases n
  {
    hide Tick, Move, PointOf;
    TickMoves(l, s, w, a);
    if Tick(l, s) == s {
      assert Tick(l, Ticks(l, s, 0)) == Ticks(l, s, 0);
    } else if Move(w, a, PointOf(l, s)) == PointOf(l, s) {
      PointInjective(l, Tick(l, s), s);
    }
    if n > 0 {
      SettledTicks(l, Tick(l, s), w, a, n - 1);
      TicksShift(l, s, n - 1);
      if Settles(l, Tick(l, s)) {
        var k: nat :| Tick(l, Ticks(l, Tick(l, s), k)) == Ticks(l, Tick(l, s), k);
        TicksShift(l, s, k);
        assert Tick(l, Ticks(l, s, k + 1)) == Ticks(l, s, k + 1);
      }
    }
  }

  /** Within n ticks the velocity is zero at some tick. */
  predicate HaltsIn(w: real, a: real, p: Point, n: nat)
    requires a > 0.0
    decreases n
  {
    p.u == 0.0 || (n > 0 && HaltsIn(w, a, Move(w, a, p), n - 1))
  }

  ghost predicate Halts(w: real, a: real, p: Point)
    requires a > 0.0
  {
    exists n: nat :: HaltsIn(w, a, p, n)
  }

  ghost predicate Calms(w: real, a: real, p: Point)
    requires a > 0.0
  {
    exists n: nat :: SettlesIn(w, a, p, n)
  }

  lemma HaltsNext(w: real, a: real, p: Point)
    requires a > 0.0
    ensures Halts(w, a, Move(w, a, p)) || p.u == 0.0 ==> Halts(w, a, p)
  {
    hide Move;
    if p.u == 0.0 {
      assert HaltsIn(w, a, p, 0);
    } else if Halts(w, a, Move(w, a, p)) {
      var n: nat :| HaltsIn(w, a, Move(w, a, p), n);
      assert HaltsIn(w, a, p, n + 1);
    }
  }

  lemma CalmsNext(w: real, a: real, p: Point)
    requires a > 0.0
    ensures Calms(w, a, Move(w, a, p)) || Move(w, a, p) == p ==> Calms(w, a, p)
  {
    hide Move;
    if Move(w, a, p) == p {
      assert SettlesIn(w, a, p, 0);
    } else if Calms(w, a, Move(w, a, p)) {
      var n: nat :| SettlesIn(w, a, Move(w, a, p), n);
      assert SettlesIn(w, a, p, n + 1);
    }
  }

  // --------------------------------------------------------------- symmetry

  /** Above and below the target are alike, but for a profile at rest that may not move. */
  lemma MoveMirror(w: real, a: real, p: Point)
    requires a > 0.0 && w >= 0.0 && (p.u != 0.0 || w > 0.0)
    ensures Move(w, a, Minus(p)) == Minus(Move(w, a, p))
  {
    hide Quad;
    assert Quad(-p.u, a) == Quad(p.u, a) by { QuadEven(p.u, a); }
    MirrorLimit(p.u, a);
    QuadBrakes(p.u, a);
    BrakingSmall(p.u, a, Quad(p.u, a));
  }

  lemma QuadEven(u: real, a: real)
    requires a > 0.0
    ensures Quad(-u, a) == Quad(u, a)
  {
    assert (-u) * (-u) == u * u;
  }

  lemma {:induction false} MirrorHaltsIn(w: real, a: real, p: Point, n: nat)
    requires a > 0.0 && w >= 0.0 && HaltsIn(w, a, Minus(p), n)
    ensures HaltsIn(w, a, p, n)
    decreases n
  {
    hide Move;
    if p.u != 0.0 {
      MoveMirror(w, a, p);
      MirrorHaltsIn(w, a, Move(w, a, p), n - 1);
    }
  }

  lemma MirrorHalts(w: real, a: real, p: Point)
    requires a > 0.0 && w >= 0.0 && Halts(w, a, Minus(p))
    ensures Halts(w, a, p)
  {
    var n: nat :| HaltsIn(w, a, Minus(p), n);
    MirrorHaltsIn(w, a, p, n);
  }

  lemma {:induction false} MirrorSettlesIn(w: real, a: real, p: Point, n: nat)
    requires a > 0.0 && w > 0.0 && SettlesIn(w, a, Minus(p), n)
    ensures SettlesIn(w, a, p, n)
    decreases n
  {
    hide Move;
    MoveMirror(w, a, p);
    if Move(w, a, Minus(p)) != Minus(p) {
      MirrorSettlesIn(w, a, Move(w, a, p), n - 1);
    } else {
      assert Minus(Minus(Move(w, a, p))) == Minus(Minus(p));
    }
  }

  lemma MirrorCalms(w: real, a: real, p: Point)
    requires a > 0.0 && w > 0.0 && Calms(w, a, Minus(p))
    ensures Calms(w, a, p)
  {
    var n: nat :| SettlesIn(w, a, Minus(p), n);
    MirrorSettlesIn(w, a, p, n);
  }

  // -------------------------------------------------------------- from rest

  lemma QuadOf(k: real, u: real, a: real)
    requires a > 0.0 && u == k * a
    ensures Quad(u, a) == k * k * a / 2.0
  {
    DivMul(u * u, 2.0 * a);
    assert u * u == k * k * a * a;
    assert k * k * a / 2.0 * (2.0 * a) == u * u;
    CancelReal(Quad(u, a), k * k * a / 2.0, 2.0 * a);
  }

  /** Small errors and steps are taken back in one tick. */
  lemma NearHalts(w: real, a: real, p: Point)
    requires a > 0.0 && Abs(p.e) <= a / 2.0 && Abs(p.u) <= a
    ensures Move(w, a, p) == Point(p.e + p.u / 2.0, 0.0) && Halts(w, a, p)
    ensures p.u == 0.0 ==> Move(w, a, p) == p && Calms(w, a, p)
  {
    hide Quad;
    assert HaltsIn(w, a, Move(w, a, p), 0);
    HaltsNext(w, a, p);
    CalmsNext(w, a, p);
  }

  /** At rest a little below the target: one tick up, one tick to rest. */
  lemma ShortRest(w: real, a: real, e: real)
    requires a > 0.0 && w >= 0.0 && -a < e < -a / 2.0
    ensures Calms(w, a, Point(e, 0.0))
  {
    hide Quad, Calms;
    QuadOf(0.0, 0.0, a);
    var p := Point(e, 0.0);
    CalmsNext(w, a, p);
    if w > 0.0 {
      assert Move(w, a, p) == Point(e + a / 2.0, a);
      NearHalts(w, a, Point(e + a / 2.0, a));
      NearHalts(w, a, Point(e + a, 0.0));
      CalmsNext(w, a, Point(e + a / 2.0, a));
    }
  }

  /** Cruising at one unit comes to rest. */
  lemma {:induction false} UnitCruise(w: real, a: real, x: real, n: nat)
    requires a > 0.0 && 0.0 <= w <= a && -a / 2.0 < x <= n as real * a
    ensures Calms(w, a, Point(x, -a))
    decreases n
  {
    hide Quad, Calms;
    QuadOf(-1.0, -a, a);
    var p := Point(x, -a);
    CalmsNext(w, a, p);
    if x <= a / 2.0 {
      NearHalts(w, a, p);
      if x >= 0.0 {
        NearHalts(w, a, Point(x - a / 2.0, 0.0));
      } else {
        ShortRest(w, a, x - a / 2.0);
      }
    } else {
      assert Move(w, a, p) == Point(x - a, -a);
      assert (n - 1) as real * a == n as real * a - a;
      UnitCruise(w, a, x - a, n - 1);
    }
  }

  lemma Archimedes(x: real, m: real) returns (n: nat)
    requires m > 0.0
    ensures x <= n as real * m
  {
    if x <= 0.0 {
      n := 0;
    } else {
      n := (x / m).Floor + 1;
      DivMul(x, m);
      MulLess(x / m, n as real, m);
    }
  }

  lemma RestAbove(w: real, a: real, e: real)
    requires a > 0.0 && 0.0 <= w <= a && e > a / 2.0
    ensures Calms(w, a, Point(e, 0.0))
  {
    hide Quad, Calms;
    QuadOf(0.0, 0.0, a);
    var n := Archimedes(e, a);
    UnitCruise(w, a, e - a / 2.0, n);
    assert Move(w, a, Point(e, 0.0)) == Point(e - a / 2.0, -a);
    CalmsNext(w, a, Point(e, 0.0));
  }

  /** With w <= a every profile at rest settles. */
  lemma RestCalms(w: real, a: real, e: real)
    requires a > 0.0 && 0.0 <= w <= a
    ensures Calms(w, a, Point(e, 0.0))
  {
    hide Quad, Calms;
    QuadOf(0.0, 0.0, a);
    if e > a / 2.0 {
      RestAbove(w, a, e);
    } else if e >= -a / 2.0 {
      NearHalts(w, a, Point(e, 0.0));
    } else if w == 0.0 {
      CalmsNext(w, a, Point(e, 0.0));
    } else {
      RestAbove(w, a, -e);
      MirrorCalms(w, a, Point(e, 0.0));
    }
  }

  lemma {:induction false} HaltsInCalms(w: real, a: real, p: Point, n: nat)
    requires a > 0.0 && 0.0 <= w <= a && HaltsIn(w, a, p, n)
    ensures Calms(w, a, p)
    decreases n
  {
    hide Move, Calms;
    if p.u == 0.0 {
      RestCalms(w, a, p.e);
    } else {
      HaltsInCalms(w, a, Move(w, a, p), n - 1);
      CalmsNext(w, a, p);
    }
  }

  // ---------------------------------------------------------- from anywhere

  /** Approaching at a speed at which the generator cruises and can stop in one tick. */
  lemma {:induction false} SlowHalts(w: real, a: real, e: real, m: real, n: nat)
    requires a > 0.0 && 0.0 <= w <= m <= a && m > 0.0 && -a / 2.0 <= e <= n as real * m
    ensures Halts(w, a, Point(e, -m))
    decreases n
  {
    hide Quad, Halts;
    var p := Point(e, -m);
    if e <= a / 2.0 {
      NearHalts(w, a, p);
    } else {
      QuadBrakes(-m, a);
      BrakingSmall(-m, a, Quad(-m, a));
      assert Move(w, a, p) == Point(e - m, -m);
      assert (n - 1) as real * m == n as real * m - m;
      SlowHalts(w, a, e - m, m, n - 1);
      HaltsNext(w, a, p);
    }
  }

  /** Past the target and still moving on, slowly. */
  lemma DriftHalts(w: real, a: real, y: real, m: real)
    requires a > 0.0 && 0.0 <= 2.0 * w <= a && y < 0.0 && 0.0 <= m <= a / 2.0
    ensures Halts(w, a, Point(y, -m))
  {
    hide Quad, Halts;
    var p := Point(y, -m);
    HaltsNext(w, a, p);
    if y >= -a / 2.0 {
      NearHalts(w, a, p);
    } else if m > 0.0 {
      var x := -(y - m + a / 2.0);
      assert Move(w, a, p) == Point(-x, a - m);
      var n := Archimedes(x, a - m);
      SlowHalts(w, a, x, a - m, n);
      assert Minus(Point(-x, a - m)) == Point(x, -(a - m));
      MirrorHalts(w, a, Point(-x, a - m));
    }
  }

  lemma QuadBound(a: real, u: real, q: real)
    requires a > 0.0 && 0.0 < u <= 3.0 / 2.0 * a && q * (2.0 * a) == u * u
    ensures q <= 3.0 / 4.0 * u
  {
    var v, b := 3.0 / 4.0 * u, 3.0 / 2.0 * a;
    MulLess(u, b, u);
    assert v * (2.0 * a) == b * u;
    CancelRealLess(q, v, 2.0 * a);
  }

  lemma FastQuad(a: real, u: real)
    requires a > 0.0 && a < u <= 3.0 / 2.0 * a
    ensures u - a / 2.0 <= Quad(-u, a) <= 3.0 / 4.0 * u
  {
    QuadEven(u, a);
    DivMul(u * u, 2.0 * a);
    assert (u - a) * (u - a) >= 0.0;
    assert (u - a / 2.0) * (2.0 * a) == 2.0 * u * a - a * a;
    assert (u - a) * (u - a) == u * u - 2.0 * u * a + a * a;
    CancelRealLess(u - a / 2.0, Quad(u, a), 2.0 * a);
    QuadBound(a, u, Quad(u, a));
  }

  /** Approaching too fast to stop in one tick. */
  lemma {:induction false} FastHalts(w: real, a: real, x: real, u: real, n: nat)
    requires a > 0.0 && 0.0 <= 2.0 * w <= a && a < u <= w + a && -a / 2.0 < x <= n as real * a
    ensures Halts(w, a, Point(x, -u))
    decreases n
  {
    hide Quad, Halts;
    FastQuad(a, u);
    var p := Point(x, -u);
    HaltsNext(w, a, p);
    if x <= Quad(-u, a) || x <= a / 2.0 {
      var y := x - u + a / 2.0;
      assert Move(w, a, p) == Point(y, -(u - a));
      if y < 0.0 {
        DriftHalts(w, a, y, u - a);
      } else {
        NearHalts(w, a, Point(y, -(u - a)));
      }
    } else {
      assert Move(w, a, p) == Point(x - u, -u);
      assert (n - 1) as real * a == n as real * a - a;
      FastHalts(w, a, x - u, u, n - 1);
    }
  }

  lemma ApproachHalts(w: real, a: real, e: real, m: real)
    requires a > 0.0 && 0.0 <= 2.0 * w <= a && e >= 0.0 && 0.0 <= m <= w + a
    ensures Halts(w, a, Point(e, -m))
  {
    hide Quad, Halts;
    var p := Point(e, -m);
    HaltsNext(w, a, p);
    if m > 0.0 {
      var n := Archimedes(e, m);
      var k := Archimedes(e, a);
      if m > a {
        FastHalts(w, a, e, m, k);
      } else if m >= w {
        SlowHalts(w, a, e, m, n);
      } else if e <= a / 2.0 {
        NearHalts(w, a, p);
      } else {
        QuadBrakes(-m, a);
        BrakingSmall(-m, a, Quad(-m, a));
        assert Move(w, a, p) == Point(e - m - a / 2.0, -(m + a));
        FastHalts(w, a, e - m - a / 2.0, m + a, k);
      }
    }
  }

  lemma AwayHalts(w: real, a: real, e: real, u: real)
    requires a > 0.0 && 0.0 <= 2.0 * w <= a && e >= 0.0 && 0.0 <= u <= a
    ensures Halts(w, a, Point(e, u))
  {
    hide Quad, Halts;
    var p := Point(e, u);
    HaltsNext(w, a, p);
    if e <= a / 2.0 {
      NearHalts(w, a, p);
    } else if u > 0.0 {
      assert Move(w, a, p) == Point(e + u - a / 2.0, -(a - u));
      ApproachHalts(w, a, e + u - a / 2.0, a - u);
    }
  }

  lemma AboveHalts(w: real, a: real, p: Point)
    requires a > 0.0 && 0.0 <= 2.0 * w <= a && p.e >= 0.0 && Abs(p.u) <= w + a
    ensures Halts(w, a, p)
  {
    hide Quad, Halts;
    if p.u <= 0.0 {
      ApproachHalts(w, a, p.e, -p.u);
    } else if p.u <= a {
      AwayHalts(w, a, p.e, p.u);
    } else {
      assert Move(w, a, p) == Point(p.e + p.u - a / 2.0, p.u - a);
      AwayHalts(w, a, p.e + p.u - a / 2.0, p.u - a);
      HaltsNext(w, a, p);
    }
  }

  /** With 2 w <= a every profile within the speed limit settles. */
  lemma AllCalm(w: real, a: real, p: Point)
    requires a > 0.0 && 0.0 <= 2.0 * w <= a && Abs(p.u) <= w + a
    ensures Calms(w, a, p)
  {
    hide Calms, Move;
    if p.e >= 0.0 {
      AboveHalts(w, a, p);
    } else {
      AboveHalts(w, a, Minus(p));
      MirrorHalts(w, a, p);
    }
    var n: nat :| HaltsIn(w, a, p, n);
    HaltsInCalms(w, a, p, n);
  }

  // ------------------------------------------------------------- not at all

  /** The cycle of a moving profile, in units of a. */
  function SwingAt(a: real, i: nat): Point
    requires i < 6
  {
    match i
    case 0 => Point(1.25 * a, 0.5 * a)
    case 1 => Point(1.25 * a, -0.5 * a)
    case 2 => Point(0.25 * a, -1.5 * a)
    case 3 => Point(-0.75 * a, -0.5 * a)
    case 4 => Point(-0.75 * a, 0.5 * a)
    case _ => Point(0.25 * a, 1.5 * a)
  }

  lemma SwingMoves(w: real, a: real, i: nat)
    requires a > 0.0 && 2.0 * w > a && i < 6
    ensures Move(w, a, SwingAt(a, i)) == SwingAt(a, (i + 1) % 6) != SwingAt(a, i)
  {
    hide Quad;
    QuadOf(0.5, 0.5 * a, a);
    QuadOf(-0.5, -0.5 * a, a);
    QuadOf(1.5, 1.5 * a, a);
    QuadOf(-1.5, -1.5 * a, a);
  }

  lemma {:induction false} SwingGoesOn(w: real, a: real, i: nat, n: nat)
    requires a > 0.0 && 2.0 * w > a && i < 6
    ensures !SettlesIn(w, a, SwingAt(a, i), n)
    decreases n
  {
    hide Move, SwingAt;
    SwingMoves(w, a, i);
    if n > 0 {
      SwingGoesOn(w, a, (i + 1) % 6, n - 1);
    }
  }

  // ---------------------------------------------------------- the conditions

  lemma Scales(x: real, y: real, k: real, w: real, a: real)
    requires k > 0.0 && w == x * k && a == y * k
    ensures (x <= y <==> w <= a) && (2.0 * x <= y <==> 2.0 * w <= a)
  {
    MulLess(x, y, k);
    var d := 2.0 * x;
    assert d * k == 2.0 * w;
    MulLess(d, y, k);
  }

  /** Velocity limit and acceleration step compare as distances per tick. */
  lemma LimitSteps(l: Limits, w: real, a: real)
    requires Proper(l) && w == l.maxVel * l.dt && a == l.maxAcc * l.dt * l.dt
    ensures a > 0.0 && w >= 0.0
    ensures l.maxVel <= l.maxAcc * l.dt <==> w <= a
    ensures 2.0 * l.maxVel <= l.maxAcc * l.dt <==> 2.0 * w <= a
  {
    StepsPositive(l.maxVel, l.maxAcc, l.dt, w, a);
    Scales(l.maxVel, l.maxAcc * l.dt, l.dt, w, a);
  }

  lemma CalmSettles(l: Limits, s: Setpoint, w: real, a: real)
    requires Proper(l) && w == l.maxVel * l.dt && a == l.maxAcc * l.dt * l.dt && a > 0.0
    requires Calms(w, a, PointOf(l, s))
    ensures Settles(l, s)
  {
    var n: nat :| SettlesIn(w, a, PointOf(l, s), n);
    SettledTicks(l, s, w, a, n);
  }

  /** From rest, the generator settles at every distance exactly if the velocity limit is at most one tick of acceleration. */
  lemma SettlesFromRest(l: Limits)
    requires Proper(l)
    ensures (forall p: real :: Settles(l, Setpoint(p, 0.0))) <==> l.maxVel <= l.maxAcc * l.dt
  {
    hide Settles, Calms;
    var w, a := l.maxVel * l.dt, l.maxAcc * l.dt * l.dt;
    LimitSteps(l, w, a);
    if w <= a {
      forall p: real
        ensures Settles(l, Setpoint(p, 0.0))
      {
        assert 0.0 * l.dt == 0.0;
        RestCalms(w, a, p - l.target);
        CalmSettles(l, Setpoint(p, 0.0), w, a);
      }
    } else {
      CycleUnsettled(l);
    }
  }

  lemma CycleUnsettled(l: Limits)
    requires Proper(l) && l.maxVel > l.maxAcc * l.dt
    ensures CycleState(l, 0) == Setpoint(CycleState(l, 0).pos, 0.0) && !Settles(l, CycleState(l, 0))
  {
    hide Tick;
    forall n: nat
      ensures Tick(l, Ticks(l, CycleState(l, 0), n)) != Ticks(l, CycleState(l, 0), n)
    {
      NeedNotSettle(l, n);
      assert Ticks(l, CycleState(l, 0), n + 1) == Tick(l, Ticks(l, CycleState(l, 0), n));
    }
  }

  /** From every state within the speed limit it settles exactly if twice the velocity limit is. */
  lemma SettlesFromAnywhere(l: Limits)
    requires Proper(l)
    ensures (forall s: Setpoint :: SpeedOk(l, s) ==> Settles(l, s)) <==> 2.0 * l.maxVel <= l.maxAcc * l.dt
  {
    hide Settles, Calms, SpeedOk;
    var w, a := l.maxVel * l.dt, l.maxAcc * l.dt * l.dt;
    LimitSteps(l, w, a);
    if 2.0 * w <= a {
      forall s: Setpoint | SpeedOk(l, s)
        ensures Settles(l, s)
      {
        SpeedSteps(l, s, w, a);
        AllCalm(w, a, PointOf(l, s));
        CalmSettles(l, s, w, a);
      }
    } else {
      SwingUnsettled(l, w, a);
    }
  }

  lemma SpeedSteps(l: Limits, s: Setpoint, w: real, a: real)
    requires Proper(l) && w == l.maxVel * l.dt && a == l.maxAcc * l.dt * l.dt && SpeedOk(l, s)
    ensures Abs(PointOf(l, s).u) <= w + a
  {
    hide InSteps;
    StepsExist(l, s.vel, s.vel * l.dt, w, a);
    StepsSpeed(l, s.vel, s.vel * l.dt, w, a);
  }

  /** The start of the swing. */
  function SwingStart(l: Limits): Setpoint {
    Setpoint(l.target + 1.25 * (l.maxAcc * l.dt * l.dt), l.maxAcc * l.dt / 2.0)
  }

  lemma SwingUnsettled(l: Limits, w: real, a: real)
    requires Proper(l) && w == l.maxVel * l.dt && a == l.maxAcc * l.dt * l.dt && a > 0.0 && 2.0 * w > a
    ensures SpeedOk(l, SwingStart(l)) && !Settles(l, SwingStart(l))
  {
    hide Tick;
    var s := SwingStart(l);
    MulLess(0.0, l.maxAcc, l.dt);
    assert l.maxAcc * l.dt / 2.0 * l.dt == 0.5 * a;
    assert PointOf(l, s) == SwingAt(a, 0);
    forall n: nat
      ensures Tick(l, Ticks(l, s, n)) != Ticks(l, s, n)
    {
      SwingGoesOn(w, a, 0, n);
      SettledTicks(l, s, w, a, n);
    }
  }
}
