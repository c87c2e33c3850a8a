/**
The position profile generator of src/motor_controller.c over the reals: per tick an
acceleration is chosen from the position error and the velocity, and position and
velocity setpoints are integrated.
*/
module Profile {
  import opened Bits

  /** motor_controller_limit_symmetric */
  function LimitSymmetric(value: real, limit: real): (r: real)
    ensures limit >= 0.0 ==> -limit <= r <= limit && (-limit <= value <= limit ==> r == value)
  {
    if value > limit then limit else if value < -limit then -limit else value
  }

  /** motor_controller_pos_setpt_interpolation */
  function PosInterpolation(pos: real, vel: real, acc: real, dt: real): real {
    pos + vel * dt + acc / 2.0 * dt * dt
  }

  /** motor_controller_vel_setpt_interpolation */
  function VelInterpolation(vel: real, acc: real, dt: real): real {
    vel + acc * dt
  }

  /** copysign(1, x), zero counting as positive. */
  function Sign(x: real): real {
    if x >= 0.0 then 1.0 else -1.0
  }

  function Abs(x: real): real {
    if x >= 0.0 then x else -x
  }

  /** -copysign(1, error) * x */
  function Against(error: real, x: real): real {
    if error >= 0.0 then -x else x
  }

  /** Distance needed to brake from v. */
  function Distance(v: real, maxAcc: real): real
    requires maxAcc > 0.0
  {
    v * v / 2.0 / maxAcc
  }

  /** The acceleration that would stop within dt, as far as the limit allows. */
  function Halt(vel: real, dt: real, maxAcc: real): real
    requires dt > 0.0
  {
    -LimitSymmetric(vel / dt, maxAcc)
  }

  /** Errors this small are covered within one dt. */
  function CloseEnough(dt: real, maxAcc: real): real {
    maxAcc * dt * dt / 2.0
  }

  /** motor_controller_vel_ramp: the acceleration for the next dt. */
  function VelRamp(pos: real, vel: real, target: real, dt: real, maxVel: real, maxAcc: real): real
    requires dt > 0.0 && maxAcc > 0.0
  {
    var breakingDist := Distance(vel, maxAcc);
    var error := pos - target;
    if Sign(error) != Sign(vel) then
      if Abs(error) <= breakingDist || Abs(error) <= CloseEnough(dt, maxAcc) then
        Halt(vel, dt, maxAcc)
      else if Abs(vel) >= maxVel then 0.0
      else Against(error, maxAcc)
    else if Abs(error) <= CloseEnough(dt, maxAcc) then
      Halt(vel, dt, maxAcc)
    else
      Against(error, maxAcc)
  }

  datatype Setpoint = Setpoint(pos: real, vel: real)

  /** The limits of a profile: target, tick length, velocity and acceleration. */
  datatype Limits = Limits(target: real, dt: real, maxVel: real, maxAcc: real)

  predicate Proper(l: Limits) {
    l.dt > 0.0 && l.maxAcc > 0.0 && l.maxVel >= 0.0
  }

  /** One position tick. */
  function Tick(l: Limits, s: Setpoint): Setpoint
    requires Proper(l)
  {
    var acc := VelRamp(s.pos, s.vel, l.target, l.dt, l.maxVel, l.maxAcc);
    Setpoint(PosInterpolation(s.pos, s.vel, acc, l.dt), VelInterpolation(s.vel, acc, l.dt))
  }

  /** Where the profile would come to rest if it braked from now on. */
  function StopPoint(l: Limits, s: Setpoint): real
    requires Proper(l)
  {
    s.pos + s.vel * Abs(s.vel) / (2.0 * l.maxAcc)
  }

  function Bound(l: Limits): real {
    2.0 * l.maxVel * l.dt + l.maxAcc * l.dt * l.dt
  }

  predicate SpeedOk(l: Limits, s: Setpoint) {
    Abs(s.vel) <= l.maxVel + l.maxAcc * l.dt
  }

  predicate InRegion(l: Limits, s: Setpoint)
    requires Proper(l)
  {
    SpeedOk(l, s) && Abs(s.pos - l.target) <= Bound(l) && Abs(StopPoint(l, s) - l.target) <= Bound(l)
  }

  // ------------------------------------------------- the step in units of dt

  /**
   * Change of the step length u = v * dt in one tick, for position error e, braking
   * distance q, step limit w = maxVel * dt and change limit a = maxAcc * dt^2.
   */
  function Change(e: real, u: real, q: real, w: real, a: real): real {
    if Sign(e) != Sign(u) then
      if Abs(e) <= q || Abs(e) <= a / 2.0 then -LimitSymmetric(u, a)
      else if Abs(u) >= w then 0.0
      else Against(e, a)
    else if Abs(e) <= a / 2.0 then -LimitSymmetric(u, a)
    else Against(e, a)
  }

  /** q is the distance needed to brake from step u: u^2 / (2 a). */
  predicate Braking(u: real, a: real, q: real) {
    q * (2.0 * a) == u * u
  }

  /** Error at the stop point. */
  function Stop(e: real, u: real, q: real): real {
    if u >= 0.0 then e + q else e - q
  }

  /** What a change b of the step promises: speed, stop point and, inside the region, position. */
  predicate Contained(e: real, u: real, q: real, w: real, a: real, b: real, r: real) {
    var k := 2.0 * w + a;
    && Abs(u + b) <= w + a
    && (Abs(Stop(e + u + b / 2.0, u + b, r)) <= Abs(Stop(e, u, q))
        || Abs(Stop(e + u + b / 2.0, u + b, r)) <= k)
    && (Abs(e) <= k && Abs(Stop(e, u, q)) <= k ==> Abs(e + u + b / 2.0) <= k)
  }

  lemma CancelReal(x: real, y: real, k: real)
    requires k > 0.0 && x * k == y * k
    ensures x == y
  {
  }

  lemma CancelRealLess(x: real, y: real, k: real)
    requires k > 0.0 && x * k <= y * k
    ensures x <= y
  {
  }

  /** Braking distance after the step has changed by -a, and the square it hides. */
  lemma BrakingStep(u: real, a: real, q: real, r: real)
    requires a > 0.0 && Braking(u, a, q) && Braking(u - a, a, r)
    ensures r == q - u + a / 2.0 && r >= 0.0
  {
    assert (u - a) * (u - a) == u * u - 2.0 * (a * u) + a * a;
    assert (q - u + a / 2.0) * (2.0 * a) == q * (2.0 * a) - 2.0 * (a * u) + a * a;
    CancelReal(r, q - u + a / 2.0, 2.0 * a);
    BrakingSmall(u - a, a, r);
  }

  lemma BrakingSmall(u: real, a: real, q: real)
    requires a > 0.0 && Braking(u, a, q)
    ensures q >= 0.0 && (Abs(u) <= a ==> q <= Abs(u) / 2.0 <= a / 2.0) && (u == 0.0 ==> q == 0.0)
  {
    assert u * u >= 0.0;
    CancelRealLess(0.0, q, 2.0 * a);
    if Abs(u) <= a {
      assert u * u == Abs(u) * Abs(u) <= Abs(u) * a;
      assert Abs(u) / 2.0 * (2.0 * a) == Abs(u) * a;
      CancelRealLess(q, Abs(u) / 2.0, 2.0 * a);
    }
  }

  lemma BrakingMirror(u: real, a: real, q: real)
    requires Braking(u, a, q)
    ensures Braking(-u, a, q)
  {
    assert (-u) * (-u) == u * u;
  }

  lemma BrakingUnique(u: real, a: real, q: real, r: real)
    requires a > 0.0 && Braking(u, a, q) && Braking(u, a, r)
    ensures q == r
  {
    CancelReal(q, r, 2.0 * a);
  }

  /** Driving away from the target: turn around, or stop when close enough. */
  lemma AwayStep(e: real, u: real, q: real, w: real, a: real, b: real, r: real)
    requires a > 0.0 && w >= 0.0 && e >= 0.0 && 0.0 <= u <= w + a
    requires b == if e <= a / 2.0 then -LimitSymmetric(u, a) else -a
    requires Braking(u, a, q) && Braking(u + b, a, r)
    ensures Contained(e, u, q, w, a, b, r)
  {
    hide Braking;
    BrakingSmall(u, a, q);
    BrakingSmall(u + b, a, r);
    if b == -a {
      BrakingStep(u, a, q, r);
    }
  }

  /** Approaching the target: brake, cruise or speed up. */
  lemma ApproachStep(e: real, u: real, q: real, w: real, a: real, b: real, r: real)
    requires a > 0.0 && w >= 0.0 && e >= 0.0 && -(w + a) <= u <= 0.0
    requires b == if e <= q || e <= a / 2.0 then -LimitSymmetric(u, a) else if -u >= w then 0.0 else -a
    requires Braking(u, a, q) && Braking(u + b, a, r)
    ensures Contained(e, u, q, w, a, b, r)
  {
    hide Braking;
    BrakingSmall(u, a, q);
    BrakingSmall(u + b, a, r);
    if b == -a {
      BrakingStep(u, a, q, r);
    } else if b == a {
      BrakingMirror(u, a, q);
      BrakingMirror(u + b, a, r);
      BrakingStep(-u, a, q, r);
    } else if b == 0.0 {
      BrakingUnique(u, a, q, r);
    }
  }

  lemma MirrorLimit(u: real, a: real)
    requires a > 0.0
    ensures LimitSymmetric(-u, a) == -LimitSymmetric(u, a)
  {
  }

  lemma MirrorContained(e: real, u: real, q: real, w: real, a: real, b: real, r: real)
    requires u == 0.0 ==> q == 0.0
    requires u + b == 0.0 ==> r == 0.0
    requires Contained(-e, -u, q, w, a, -b, r)
    ensures Contained(e, u, q, w, a, b, r)
  {
    assert -u + -b == -(u + b);
    assert -e + -u + -b / 2.0 == -(e + u + b / 2.0);
  }

  lemma NormalisedStep(e: real, u: real, q: real, w: real, a: real, r: real)
    requires a > 0.0 && w >= 0.0 && Abs(u) <= w + a
    requires Braking(u, a, q) && Braking(u + Change(e, u, q, w, a), a, r)
    ensures Contained(e, u, q, w, a, Change(e, u, q, w, a), r)
  {
    hide Braking, Contained, LimitSymmetric;
    var b := Change(e, u, q, w, a);
    if e >= 0.0 {
      if u >= 0.0 {
        AwayStep(e, u, q, w, a, b, r);
      } else {
        ApproachStep(e, u, q, w, a, b, r);
      }
    } else {
      BrakingSmall(u, a, q);
      BrakingSmall(u + b, a, r);
      BrakingMirror(u, a, q);
      BrakingMirror(u + b, a, r);
      assert -u + -b == -(u + b);
      MirrorLimit(u, a);
      if u < 0.0 {
        AwayStep(-e, -u, q, w, a, -b, r);
      } else {
        ApproachStep(-e, -u, q, w, a, -b, r);
      }
      MirrorContained(e, u, q, w, a, b, r);
    }
  }

  // ---------------------------------------------------- from ticks to steps

  lemma MulLess(x: real, y: real, k: real)
    requires k > 0.0
    ensures x <= y <==> x * k <= y * k
    ensures x < y <==> x * k < y * k
    ensures x >= 0.0 <==> x * k >= 0.0
  {
  }

  lemma DivMul(x: real, k: real)
    requires k != 0.0
    ensures x / k * k == x
  {
  }

  /** u, w and a are velocity, velocity limit and acceleration limit as distances per tick. */
  predicate InSteps(l: Limits, v: real, u: real, w: real, a: real) {
    u == v * l.dt && w == l.maxVel * l.dt && a == l.maxAcc * l.dt * l.dt
  }

  lemma StepsExist(l: Limits, v: real, u: real, w: real, a: real)
    requires u == v * l.dt && w == l.maxVel * l.dt && a == l.maxAcc * l.dt * l.dt
    ensures InSteps(l, v, u, w, a)
  {
  }

  lemma AbsTimes(v: real, k: real)
    requires k > 0.0
    ensures Sign(v * k) == Sign(v) && Abs(v * k) == Abs(v) * k
  {
    MulLess(v, 0.0, k);
    if v < 0.0 {
      assert -v * k == -(v * k);
    }
  }

  lemma StepsOrdered(l: Limits, v: real, u: real, w: real, a: real)
    requires Proper(l) && InSteps(l, v, u, w, a)
    ensures w >= 0.0 && a > 0.0 && Sign(u) == Sign(v) && Abs(u) == Abs(v) * l.dt
    ensures Abs(v) >= l.maxVel <==> Abs(u) >= w
  {
    StepsPositive(l.maxVel, l.maxAcc, l.dt, w, a);
    StepsAbs(v, l.maxVel, l.dt, u, w);
  }

  lemma StepsPositive(maxVel: real, maxAcc: real, dt: real, w: real, a: real)
    requires maxVel >= 0.0 && maxAcc > 0.0 && dt > 0.0 && w == maxVel * dt && a == maxAcc * dt * dt
    ensures w >= 0.0 && a > 0.0
  {
    var d := maxAcc * dt;
    MulLess(0.0, maxAcc, dt);
    MulLess(0.0, d, dt);
    MulLess(0.0, maxVel, dt);
  }

  lemma StepsAbs(v: real, maxVel: real, dt: real, u: real, w: real)
    requires dt > 0.0 && u == v * dt && w == maxVel * dt
    ensures Sign(u) == Sign(v) && Abs(u) == Abs(v) * dt
    ensures Abs(v) >= maxVel <==> Abs(u) >= w
  {
    AbsTimes(v, dt);
    MulLess(maxVel, Abs(v), dt);
  }

  lemma StepsDistance(l: Limits, v: real, u: real, w: real, a: real)
    requires Proper(l) && InSteps(l, v, u, w, a)
    ensures Braking(u, a, Distance(v, l.maxAcc))
  {
    var d := Distance(v, l.maxAcc);
    DivMul(v * v / 2.0, l.maxAcc);
    assert d * l.maxAcc == v * v / 2.0;
    assert d * (2.0 * (l.maxAcc * l.dt * l.dt)) == 2.0 * (d * l.maxAcc) * (l.dt * l.dt);
    assert u * u == v * v * (l.dt * l.dt);
  }

  lemma SignedDistance(v: real, maxAcc: real)
    requires maxAcc > 0.0
    ensures v * Abs(v) / (2.0 * maxAcc) == if v >= 0.0 then Distance(v, maxAcc) else -Distance(v, maxAcc)
  {
    DivMul(v * v / 2.0, maxAcc);
    DivMul(v * Abs(v), 2.0 * maxAcc);
    var d := Distance(v, maxAcc);
    var x := v * Abs(v) / (2.0 * maxAcc);
    assert d * (2.0 * maxAcc) == v * v;
    if v >= 0.0 {
      CancelReal(x, d, 2.0 * maxAcc);
    } else {
      assert v * Abs(v) == -(v * v);
      assert -d * (2.0 * maxAcc) == -(d * (2.0 * maxAcc));
      CancelReal(x, -d, 2.0 * maxAcc);
    }
  }

  lemma LimitScales(x: real, m: real, k: real)
    requires k > 0.0
    ensures LimitSymmetric(x, m) * k == LimitSymmetric(x * k, m * k)
  {
    MulLess(m, x, k);
    MulLess(x, -m, k);
    assert -m * k == -(m * k);
  }

  lemma TimesAgain(x: real, k: real, y: real)
    requires x * k == y
    ensures x * k * k == y * k
  {
  }

  lemma LimitScalesTwice(x: real, m: real, k: real, y: real, z: real, u: real, a: real)
    requires k > 0.0 && y == x * k && z == m * k && u == y * k && a == z * k
    ensures (-LimitSymmetric(x, m)) * k * k == -LimitSymmetric(u, a)
  {
    hide LimitSymmetric;
    LimitScales(x, m, k);
    LimitScales(y, z, k);
    TimesAgain(LimitSymmetric(x, m), k, LimitSymmetric(y, z));
    ScaleMinus(LimitSymmetric(x, m), k);
  }

  lemma StepsHalt(l: Limits, v: real, u: real, w: real, a: real)
    requires Proper(l) && InSteps(l, v, u, w, a)
    ensures Halt(v, l.dt, l.maxAcc) * l.dt * l.dt == -LimitSymmetric(u, a)
  {
    hide LimitSymmetric;
    DivMul(v, l.dt);
    LimitScalesTwice(v / l.dt, l.maxAcc, l.dt, v, l.maxAcc * l.dt, u, a);
  }

  lemma StepsClose(l: Limits, v: real, u: real, w: real, a: real)
    requires InSteps(l, v, u, w, a)
    ensures CloseEnough(l.dt, l.maxAcc) == a / 2.0 && l.maxAcc * l.dt * l.dt == a
  {
  }

  /** The branches of vel_ramp, in steps. */
  lemma RampBranch(e: real, v: real, l: Limits, u: real, w: real, a: real)
    requires Proper(l) && InSteps(l, v, u, w, a)
    ensures var acc := VelRamp(l.target + e, v, l.target, l.dt, l.maxVel, l.maxAcc);
      var b := Change(e, u, Distance(v, l.maxAcc), w, a);
      || (acc == Halt(v, l.dt, l.maxAcc) && b == -LimitSymmetric(u, a))
      || (acc == b == 0.0) || (acc == l.maxAcc && b == a) || (acc == -l.maxAcc && b == -a)
  {
    StepsOrdered(l, v, u, w, a);
    StepsClose(l, v, u, w, a);
    hide LimitSymmetric, Distance, InSteps, Halt, CloseEnough;
    assert l.target + e - l.target == e;
  }

  lemma ScaleMinus(x: real, k: real)
    ensures -x * k * k == -(x * k * k) && 0.0 * k * k == 0.0
  {
  }

  lemma StepsRamp(e: real, v: real, l: Limits, u: real, w: real, a: real)
    requires Proper(l) && InSteps(l, v, u, w, a)
    ensures VelRamp(l.target + e, v, l.target, l.dt, l.maxVel, l.maxAcc) * l.dt * l.dt
         == Change(e, u, Distance(v, l.maxAcc), w, a)
  {
    hide LimitSymmetric, Distance, VelRamp, Change, InSteps, Halt;
    StepsHalt(l, v, u, w, a);
    RampBranch(e, v, l, u, w, a);
    StepsClose(l, v, u, w, a);
    ScaleMinus(l.maxAcc, l.dt);
  }

  /** A tick is a step. */
  lemma StepsTick(l: Limits, s: Setpoint, u: real, t: real, w: real, a: real)
    requires Proper(l) && InSteps(l, s.vel, u, w, a) && InSteps(l, Tick(l, s).vel, t, w, a)
    ensures var b := Change(s.pos - l.target, u, Distance(s.vel, l.maxAcc), w, a);
      Tick(l, s).pos - l.target == s.pos - l.target + u + b / 2.0 && t == u + b
  {
    hide VelRamp, Change, Distance;
    var e := s.pos - l.target;
    StepsRamp(e, s.vel, l, u, w, a);
    var acc := VelRamp(s.pos, s.vel, l.target, l.dt, l.maxVel, l.maxAcc);
    assert l.target + e == s.pos;
    assert acc / 2.0 * l.dt * l.dt == acc * l.dt * l.dt / 2.0;
    assert (s.vel + acc * l.dt) * l.dt == s.vel * l.dt + acc * l.dt * l.dt;
  }

  lemma StepsSpeed(l: Limits, v: real, u: real, w: real, a: real)
    requires Proper(l) && InSteps(l, v, u, w, a)
    ensures Abs(v) <= l.maxVel + l.maxAcc * l.dt <==> Abs(u) <= w + a
    ensures Bound(l) == 2.0 * w + a
  {
    StepsOrdered(l, v, u, w, a);
    assert (l.maxVel + l.maxAcc * l.dt) * l.dt == l.maxVel * l.dt + l.maxAcc * l.dt * l.dt;
    MulLess(Abs(v), l.maxVel + l.maxAcc * l.dt, l.dt);
  }

  lemma StepsStop(l: Limits, s: Setpoint, u: real, w: real, a: real)
    requires Proper(l) && InSteps(l, s.vel, u, w, a)
    ensures StopPoint(l, s) - l.target == Stop(s.pos - l.target, u, Distance(s.vel, l.maxAcc))
  {
    hide Distance;
    SignedDistance(s.vel, l.maxAcc);
    StepsOrdered(l, s.vel, u, w, a);
  }

  function StopError(l: Limits, s: Setpoint): real
    requires Proper(l)
  {
    Abs(StopPoint(l, s) - l.target)
  }

  lemma TickInSteps(l: Limits, s: Setpoint, u: real, t: real, w: real, a: real)
    requires Proper(l) && Abs(u) <= w + a
    requires InSteps(l, s.vel, u, w, a) && InSteps(l, Tick(l, s).vel, t, w, a)
    ensures Abs(t) <= w + a
    ensures StopError(l, Tick(l, s)) <= StopError(l, s) || StopError(l, Tick(l, s)) <= 2.0 * w + a
    ensures Abs(s.pos - l.target) <= 2.0 * w + a && StopError(l, s) <= 2.0 * w + a
            ==> Abs(Tick(l, s).pos - l.target) <= 2.0 * w + a
  {
    hide VelRamp, Change, Distance, Braking, StopPoint, Tick, Stop, InSteps;
    var n := Tick(l, s);
    StepsOrdered(l, s.vel, u, w, a);
    StepsDistance(l, s.vel, u, w, a);
    StepsDistance(l, n.vel, t, w, a);
    StepsTick(l, s, u, t, w, a);
    StepsStop(l, s, u, w, a);
    StepsStop(l, n, t, w, a);
    NormalisedStep(s.pos - l.target, u, Distance(s.vel, l.maxAcc), w, a, Distance(n.vel, l.maxAcc));
  }

  /** One tick keeps the speed limit, does not push the stop point out, and keeps the region. */
  lemma TickKeeps(l: Limits, s: Setpoint)
    requires Proper(l) && SpeedOk(l, s)
    ensures SpeedOk(l, Tick(l, s))
    ensures StopError(l, Tick(l, s)) <= StopError(l, s) || StopError(l, Tick(l, s)) <= Bound(l)
    ensures InRegion(l, s) ==> InRegion(l, Tick(l, s))
  {
    hide Tick, StopPoint, Bound, InSteps;
    var t := Tick(l, s);
    var u, v, w, a := s.vel * l.dt, t.vel * l.dt, l.maxVel * l.dt, l.maxAcc * l.dt * l.dt;
    StepsExist(l, s.vel, u, w, a);
    StepsExist(l, t.vel, v, w, a);
    StepsSpeed(l, s.vel, u, w, a);
    StepsSpeed(l, t.vel, v, w, a);
    TickInSteps(l, s, u, v, w, a);
  }

  // ------------------------------------------------------------------- runs

  function Ticks(l: Limits, s: Setpoint, n: nat): Setpoint
    requires Proper(l)
  {
    if n == 0 then s else Tick(l, Ticks(l, s, n - 1))
  }

  lemma RegionSpeed(l: Limits, s: Setpoint)
    requires Proper(l) && InRegion(l, s)
    ensures SpeedOk(l, s)
  {
  }

  /** The region is never left. */
  lemma {:induction false} RunStaysInRegion(l: Limits, s: Setpoint, n: nat)
    requires Proper(l) && InRegion(l, s)
    ensures InRegion(l, Ticks(l, s, n))
  {
    hide Tick, InRegion;
    if n > 0 {
      RunStaysInRegion(l, s, n - 1);
      RegionSpeed(l, Ticks(l, s, n - 1));
      TickKeeps(l, Ticks(l, s, n - 1));
    }
  }

  /** From any start within the speed bound the stop point never gets further than max(start, K). */
  lemma {:induction false} RunContainsStopPoint(l: Limits, s: Setpoint, n: nat)
    requires Proper(l) && SpeedOk(l, s)
    ensures SpeedOk(l, Ticks(l, s, n))
    ensures StopError(l, Ticks(l, s, n)) <= StopError(l, s) || StopError(l, Ticks(l, s, n)) <= Bound(l)
  {
    hide Tick, StopError;
    if n > 0 {
      RunContainsStopPoint(l, s, n - 1);
      TickKeeps(l, Ticks(l, s, n - 1));
    }
  }

  /**
   * A profile rests exactly when its velocity is zero and the target is within half a
   * step of acceleration; with a zero velocity limit it also rests anywhere below the
   * target, but not above it, because zero counts as a positive velocity.
   */
  lemma RestsExactlyWhen(l: Limits, s: Setpoint)
    requires Proper(l)
    ensures Tick(l, s) == s <==>
            s.vel == 0.0 && (Abs(s.pos - l.target) <= l.maxAcc * l.dt * l.dt / 2.0
                             || (s.pos < l.target && l.maxVel == 0.0))
  {
    hide VelRamp;
    var acc := VelRamp(s.pos, s.vel, l.target, l.dt, l.maxVel, l.maxAcc);
    hide VelInterpolation, PosInterpolation;
    if s.vel == 0.0 {
      RampAtRest(s.pos, l);
      RestStays(s.pos, acc, l.dt);
    } else {
      MovingMoves(s.pos, s.vel, acc, l.dt);
    }
  }

  lemma MovingMoves(pos: real, vel: real, acc: real, dt: real)
    requires dt > 0.0 && vel != 0.0
    ensures VelInterpolation(vel, acc, dt) != vel || PosInterpolation(pos, vel, acc, dt) != pos
  {
    MulLess(vel, 0.0, dt);
    MulLess(acc, 0.0, dt);
    if acc == 0.0 {
      assert acc / 2.0 * dt * dt == 0.0;
    }
  }

  lemma RestStays(pos: real, acc: real, dt: real)
    requires dt > 0.0
    ensures VelInterpolation(0.0, acc, dt) == 0.0 <==> acc == 0.0
    ensures PosInterpolation(pos, 0.0, 0.0, dt) == pos
  {
    MulLess(acc, 0.0, dt);
  }

  lemma RampAtRest(pos: real, l: Limits)
    requires Proper(l)
    ensures VelRamp(pos, 0.0, l.target, l.dt, l.maxVel, l.maxAcc) == 0.0 <==>
            Abs(pos - l.target) <= l.maxAcc * l.dt * l.dt / 2.0
            || (pos < l.target && l.maxVel == 0.0)
  {
    assert 0.0 / l.dt == 0.0;
    assert Distance(0.0, l.maxAcc) == 0.0;
    assert l.maxAcc * l.dt * l.dt > 0.0 by {
      MulLess(0.0, l.maxAcc, l.dt);
      MulLess(0.0, l.maxAcc * l.dt, l.dt);
    }
  }

  // ------------------------------------------------------------ limit cycle

  /** The eight states of the cycle around target, in units of a length and a velocity. */
  function CycleAt(target: real, a: real, d: real, i: nat): Setpoint
    requires i < 8
  {
    match i
    case 0 => Setpoint(target + 2.0 * a, 0.0)
    case 1 => Setpoint(target + 1.5 * a, -d)
    case 2 => Setpoint(target + 0.0, -2.0 * d)
    case 3 => Setpoint(target + -1.5 * a, -d)
    case 4 => Setpoint(target + -2.0 * a, 0.0)
    case 5 => Setpoint(target + -1.5 * a, d)
    case 6 => Setpoint(target + 0.0, 2.0 * d)
    case _ => Setpoint(target + 1.5 * a, d)
  }

  function CycleState(l: Limits, i: nat): Setpoint
    requires i < 8
  {
    CycleAt(l.target, AccStep(l), AccVel(l), i)
  }

  /** What one dt of full acceleration adds to the velocity, and to the distance per tick. */
  function AccVel(l: Limits): real {
    l.maxAcc * l.dt
  }

  function AccStep(l: Limits): real {
    AccVel(l) * l.dt
  }

  lemma StepIs(l: Limits, e: real, v: real, u: real, f: real, x: real, t: real, w: real, a: real)
    requires Proper(l) && InSteps(l, v, u, w, a) && InSteps(l, x, t, w, a)
    requires var b := Change(e, u, Distance(v, l.maxAcc), w, a);
      f == e + u + b / 2.0 && t == u + b
    ensures Tick(l, Setpoint(l.target + e, v)) == Setpoint(l.target + f, x)
  {
    hide Tick, Change, Distance;
    var s := Setpoint(l.target + e, v);
    var y := Tick(l, s).vel;
    assert l.target + e - l.target == e;
    StepsTick(l, s, u, y * l.dt, w, a);
    CancelReal(x, y, l.dt);
  }

  lemma CycleDistance(l: Limits, k: real, v: real, a: real)
    requires Proper(l) && v == k * (l.maxAcc * l.dt) && a == l.maxAcc * l.dt * l.dt
    ensures Distance(v, l.maxAcc) == k * k * a / 2.0
  {
    var d := Distance(v, l.maxAcc);
    DivMul(v * v / 2.0, l.maxAcc);
    assert v * v == k * k * l.maxAcc * l.maxAcc * l.dt * l.dt;
    assert k * k * a / 2.0 * l.maxAcc == v * v / 2.0;
    CancelReal(d, k * k * a / 2.0, l.maxAcc);
  }

  /** The cycle's quantities in units of a: error c a, velocity k maxAcc dt. */
  predicate CycleUnits(l: Limits, d: real, a: real, w: real)
    requires Proper(l)
  {
    && a > 0.0 && w > a
    && InSteps(l, 0.0, 0.0, w, a) && InSteps(l, d, a, w, a) && InSteps(l, -d, -a, w, a)
    && InSteps(l, 2.0 * d, 2.0 * a, w, a) && InSteps(l, -2.0 * d, -2.0 * a, w, a)
    && Distance(0.0, l.maxAcc) == 0.0
    && Distance(d, l.maxAcc) == Distance(-d, l.maxAcc) == a / 2.0
    && Distance(2.0 * d, l.maxAcc) == Distance(-2.0 * d, l.maxAcc) == 2.0 * a
  }

  lemma CycleUnitsHold(l: Limits, d: real, a: real, w: real)
    requires Proper(l) && l.maxVel > d && d == l.maxAcc * l.dt
    requires a == l.maxAcc * l.dt * l.dt && w == l.maxVel * l.dt
    ensures CycleUnits(l, d, a, w)
  {
    hide Distance;
    MulLess(0.0, l.maxAcc, l.dt);
    MulLess(0.0, d, l.dt);
    MulLess(d, l.maxVel, l.dt);
    CycleDistance(l, 0.0, 0.0, a);
    CycleDistance(l, 1.0, d, a);
    CycleDistance(l, -1.0, -d, a);
    CycleDistance(l, 2.0, 2.0 * d, a);
    CycleDistance(l, -2.0, -2.0 * d, a);
  }

  lemma CycleDown(l: Limits, i: nat, d: real, a: real, w: real)
    requires Proper(l) && CycleUnits(l, d, a, w) && i < 4
    ensures Tick(l, CycleAt(l.target, a, d, i)) == CycleAt(l.target, a, d, (i + 1) % 8)
  {
    hide Tick, Distance, InSteps, Proper;
    match i {
      case 0 => StepIs(l, 2.0 * a, 0.0, 0.0, 1.5 * a, -d, -a, w, a);
      case 1 => StepIs(l, 1.5 * a, -d, -a, 0.0, -2.0 * d, -2.0 * a, w, a);
      case 2 => StepIs(l, 0.0, -2.0 * d, -2.0 * a, -1.5 * a, -d, -a, w, a);
      case _ => StepIs(l, -1.5 * a, -d, -a, -2.0 * a, 0.0, 0.0, w, a);
    }
  }

  lemma CycleUp(l: Limits, i: nat, d: real, a: real, w: real)
    requires Proper(l) && CycleUnits(l, d, a, w) && 4 <= i < 8
    ensures Tick(l, CycleAt(l.target, a, d, i)) == CycleAt(l.target, a, d, (i + 1) % 8)
  {
    hide Tick, Distance, InSteps, Proper;
    match i {
      case 4 => StepIs(l, -2.0 * a, 0.0, 0.0, -1.5 * a, d, a, w, a);
      case 5 => StepIs(l, -1.5 * a, d, a, 0.0, 2.0 * d, 2.0 * a, w, a);
      case 6 => StepIs(l, 0.0, 2.0 * d, 2.0 * a, 1.5 * a, d, a, w, a);
      case _ => StepIs(l, 1.5 * a, d, a, 2.0 * a, 0.0, 0.0, w, a);
    }
  }

  lemma CycleTick(l: Limits, i: nat)
    requires Proper(l) && l.maxVel > l.maxAcc * l.dt && i < 8
    ensures Tick(l, CycleState(l, i)) == CycleState(l, (i + 1) % 8)
  {
    hide Tick, CycleAt, CycleUnits;
    var d, a, w := AccVel(l), AccStep(l), l.maxVel * l.dt;
    CycleUnitsHold(l, d, a, w);
    hide AccVel, AccStep;
    if i < 4 {
      CycleDown(l, i, d, a, w);
    } else {
      CycleUp(l, i, d, a, w);
    }
  }

  /**
   * Boundedness is all there is: whenever the velocity limit exceeds one tick of
   * acceleration, a profile at rest 2 maxAcc dt^2 above its target swings to the same
   * distance on the other side and back in eight ticks, for ever.
   */
  lemma {:induction false} NeedNotSettle(l: Limits, n: nat)
    requires Proper(l) && l.maxVel > l.maxAcc * l.dt
    ensures Ticks(l, CycleState(l, 0), n) == CycleState(l, n % 8)
    ensures Ticks(l, CycleState(l, 0), n + 1) != Ticks(l, CycleState(l, 0), n)
  {
    hide Tick, CycleState;
    if n > 0 {
      NeedNotSettle(l, n - 1);
      CycleTick(l, (n - 1) % 8);
      assert ((n - 1) % 8 + 1) % 8 == n % 8;
    }
    CycleTick(l, n % 8);
    CycleMoves(l, n % 8);
  }

  lemma CycleMoves(l: Limits, i: nat)
    requires Proper(l) && i < 8
    ensures CycleState(l, (i + 1) % 8) != CycleState(l, i)
  {
    var d := l.maxAcc * l.dt;
    MulLess(0.0, l.maxAcc, l.dt);
    assert d > 0.0;
  }

  // ---------------------------------------------------------- a tick in words

  /** Stopping takes the whole velocity if one tick of acceleration is enough, else as much as that. */
  lemma HaltInPlain(v: real, dt: real, maxAcc: real)
    requires dt > 0.0 && maxAcc > 0.0
    ensures Abs(v) <= maxAcc * dt ==> v + Halt(v, dt, maxAcc) * dt == 0.0
    ensures v > maxAcc * dt ==> v + Halt(v, dt, maxAcc) * dt == v - maxAcc * dt
    ensures v < -(maxAcc * dt) ==> v + Halt(v, dt, maxAcc) * dt == v + maxAcc * dt
  {
    var x := v / dt;
    DivMul(v, dt);
    assert x * dt == v;
    MulLess(x, maxAcc, dt);
    MulLess(-maxAcc, x, dt);
    assert -maxAcc * dt == -(maxAcc * dt);
  }

  /** The distance driven in a tick is that of the mean of the velocities before and after it. */
  lemma MeanVelocity(l: Limits, s: Setpoint)
    requires Proper(l)
    ensures Tick(l, s).pos == s.pos + (s.vel + Tick(l, s).vel) / 2.0 * l.dt
  {
    hide VelRamp;
    var acc := VelRamp(s.pos, s.vel, l.target, l.dt, l.maxVel, l.maxAcc);
    MeanOf(s.vel, acc, l.dt);
  }

  lemma MeanOf(v: real, acc: real, dt: real)
    ensures v * dt + acc / 2.0 * dt * dt == (v + (v + acc * dt)) / 2.0 * dt
  {
    var x := acc * dt;
    assert acc / 2.0 * dt == x / 2.0;
    assert acc / 2.0 * dt * dt == x / 2.0 * dt;
  }

  /** Which acceleration is chosen when, for an error c covered in one tick and a braking distance d. */
  lemma RampCases(pos: real, v: real, target: real, dt: real, maxVel: real, maxAcc: real, c: real, d: real)
    requires dt > 0.0 && maxAcc > 0.0 && c == CloseEnough(dt, maxAcc) && d == Distance(v, maxAcc)
    ensures var e, acc := pos - target, VelRamp(pos, v, target, dt, maxVel, maxAcc);
      var size, speed := if e >= 0.0 then e else -e, if v >= 0.0 then v else -v;
      var near, late, approaching := size <= c, size <= d, (e >= 0.0 && v < 0.0) || (e < 0.0 && v >= 0.0);
      && (near || (approaching && late) ==> acc == Halt(v, dt, maxAcc))
      && (approaching && !near && !late && speed >= maxVel ==> acc == 0.0)
      && (approaching && !near && !late && speed < maxVel ==> acc == if e >= 0.0 then -maxAcc else maxAcc)
      && (!approaching && !near ==> acc == if e >= 0.0 then -maxAcc else maxAcc)
  {
    hide Halt, CloseEnough, Distance;
  }

  /**
  The velocity w after a tick, in every case (a velocity of zero counts as positive, as does an error of zero).
  Approaching the target: braking if the stop would otherwise be too late or the error is covered within a
  tick, cruising at or above the velocity limit, else speeding up. Driving away: stopping if the error is covered
  within a tick, else turning round. Here c is the error covered within a tick, d the braking distance, and a
  the change of velocity at full acceleration.
  */
  lemma TickInPlain(l: Limits, s: Setpoint, c: real, d: real, a: real)
    requires Proper(l) && c == l.maxAcc * l.dt * l.dt / 2.0 && d == s.vel * s.vel / 2.0 / l.maxAcc && a == l.maxAcc * l.dt
    ensures var e, v, w := s.pos - l.target, s.vel, Tick(l, s).vel;
      var size, speed := if e >= 0.0 then e else -e, if v >= 0.0 then v else -v;
      var near, late, approaching := size <= c, size <= d, (e >= 0.0 && v < 0.0) || (e < 0.0 && v >= 0.0);
      && (near || (approaching && late) ==> (speed <= a ==> w == 0.0) && (v > a ==> w == v - a) && (v < -a ==> w == v + a))
      && (approaching && !near && !late && speed >= l.maxVel ==> w == v)
      && (approaching && !near && !late && speed < l.maxVel ==> w == if e >= 0.0 then v - a else v + a)
      && (!approaching && !near ==> w == if e >= 0.0 then v - a else v + a)
  {
    hide Halt, VelRamp, Tick;
    HaltInPlain(s.vel, l.dt, l.maxAcc);
    TickCases(l, s, c, d, a, Halt(s.vel, l.dt, l.maxAcc) * l.dt);
  }

  /** The same, with the change b of velocity when stopping. */
  lemma TickCases(l: Limits, s: Setpoint, c: real, d: real, a: real, b: real)
    requires Proper(l) && c == CloseEnough(l.dt, l.maxAcc) && d == Distance(s.vel, l.maxAcc)
    requires a == l.maxAcc * l.dt && b == Halt(s.vel, l.dt, l.maxAcc) * l.dt
    requires var v := s.vel; (v <= a && -v <= a ==> v + b == 0.0) && (v > a ==> v + b == v - a) && (v < -a ==> v + b == v + a)
    ensures var e, v, w := s.pos - l.target, s.vel, Tick(l, s).vel;
      var size, speed := if e >= 0.0 then e else -e, if v >= 0.0 then v else -v;
      var near, late, approaching := size <= c, size <= d, (e >= 0.0 && v < 0.0) || (e < 0.0 && v >= 0.0);
      && (near || (approaching && late) ==> (speed <= a ==> w == 0.0) && (v > a ==> w == v - a) && (v < -a ==> w == v + a))
      && (approaching && !near && !late && speed >= l.maxVel ==> w == v)
      && (approaching && !near && !late && speed < l.maxVel ==> w == if e >= 0.0 then v - a else v + a)
      && (!approaching && !near ==> w == if e >= 0.0 then v - a else v + a)
  {
    hide Halt, VelRamp, Tick, CloseEnough, Distance;
    var e, v, acc, h := s.pos - l.target, s.vel, VelRamp(s.pos, s.vel, l.target, l.dt, l.maxVel, l.maxAcc), Halt(s.vel, l.dt, l.maxAcc);
    RampCases(s.pos, v, l.target, l.dt, l.maxVel, l.maxAcc, c, d);
    NewVelocity(l, s, acc, h, a, b);
    var size := if e >= 0.0 then e else -e;
    Branches(e, v, Tick(l, s).vel, a, b, acc, h, l.maxAcc, l.maxVel, size <= c, size <= d);
  }

  /** The case split of a tick, for a velocity w after it. */
  lemma Branches(e: real, v: real, w: real, a: real, b: real, acc: real, h: real, maxAcc: real, maxVel: real, near: bool, late: bool)
    requires acc == h ==> w == v + b
    requires acc == 0.0 ==> w == v
    requires acc == maxAcc ==> w == v + a
    requires acc == -maxAcc ==> w == v - a
    requires (v <= a && -v <= a ==> v + b == 0.0) && (v > a ==> v + b == v - a) && (v < -a ==> v + b == v + a)
    requires var approaching, speed := (e >= 0.0 && v < 0.0) || (e < 0.0 && v >= 0.0), if v >= 0.0 then v else -v;
      && (near || (approaching && late) ==> acc == h)
      && (approaching && !near && !late && speed >= maxVel ==> acc == 0.0)
      && (approaching && !near && !late && speed < maxVel ==> acc == if e >= 0.0 then -maxAcc else maxAcc)
      && (!approaching && !near ==> acc == if e >= 0.0 then -maxAcc else maxAcc)
    ensures var approaching, speed := (e >= 0.0 && v < 0.0) || (e < 0.0 && v >= 0.0), if v >= 0.0 then v else -v;
      && (near || (approaching && late) ==> (speed <= a ==> w == 0.0) && (v > a ==> w == v - a) && (v < -a ==> w == v + a))
      && (approaching && !near && !late && speed >= maxVel ==> w == v)
      && (approaching && !near && !late && speed < maxVel ==> w == if e >= 0.0 then v - a else v + a)
      && (!approaching && !near ==> w == if e >= 0.0 then v - a else v + a)
  {
  }

  /** The velocity after a tick by the acceleration chosen; a and b are the changes full acceleration and h make. */
  lemma NewVelocity(l: Limits, s: Setpoint, acc: real, h: real, a: real, b: real)
    requires Proper(l) && acc == VelRamp(s.pos, s.vel, l.target, l.dt, l.maxVel, l.maxAcc)
    requires a == l.maxAcc * l.dt && b == h * l.dt
    ensures acc == h ==> Tick(l, s).vel == s.vel + b
    ensures acc == 0.0 ==> Tick(l, s).vel == s.vel
    ensures acc == l.maxAcc ==> Tick(l, s).vel == s.vel + a
    ensures acc == -l.maxAcc ==> Tick(l, s).vel == s.vel - a
  {
    hide VelRamp;
    NegTimes(l.maxAcc, l.dt);
  }

  lemma NegTimes(x: real, k: real)
    ensures (-x) * k == -(x * k) && 0.0 * k == 0.0
  {
  }

  // ------------------------------------------------------------- controller

  /** What the position branch of motor_controller_process works on. */
  datatype Loop = Loop(counter: nat, setpoint: Setpoint)

  predicate Due(divider: int, counter: nat) {
    counter + 1 >= divider
  }

  /** One call in position mode. */
  function Called(l: Limits, divider: int, s: Loop): Loop
    requires Proper(l)
  {
    if Due(divider, s.counter) then Loop(0, Tick(l, s.setpoint)) else s.(counter := s.counter + 1)
  }

  function Calls(l: Limits, divider: int, s: Loop, n: nat): Loop
    requires Proper(l)
  {
    if n == 0 then s else Called(l, divider, Calls(l, divider, s, n - 1))
  }

  lemma NextQuotient(x: int, d: int)
    requires 0 <= x && 0 < d
    ensures x % d + 1 >= d ==> (x + 1) / d == x / d + 1 && (x + 1) % d == 0
    ensures x % d + 1 < d ==> (x + 1) / d == x / d && (x + 1) % d == x % d + 1
  {
    var q, r := x / d, x % d;
    assert x == d * q + r;
    if r + 1 >= d {
      assert d * (q + 1) == d * q + d;
      SmallQuotient(d, q + 1, 0);
    } else {
      SmallQuotient(d, q, r + 1);
    }
  }

  /** Every call is due below two calls a tick, so such a divider acts as 1. */
  function Period(divider: int): (d: int)
    ensures d >= 1
  {
    if divider < 1 then 1 else divider
  }

  /** The counter has grown past the divider in other modes: the next call is due at once. */
  function Phase(divider: int, counter: nat): (c: nat)
    ensures c < Period(divider)
    ensures Due(divider, c) <==> Due(divider, counter)
  {
    if counter < Period(divider) then counter else Period(divider) - 1
  }

  /** n calls make one tick for every divider calls, for every divider and in whatever phase they start. */
  lemma {:induction false} CallsAreTicks(l: Limits, divider: int, s: Loop, n: nat)
    requires Proper(l) && n >= 1
    ensures var c, d := Phase(divider, s.counter), Period(divider);
            Calls(l, divider, s, n) == Loop((c + n) % d, Ticks(l, s.setpoint, (c + n) / d))
  {
    hide Tick;
    var c, d := Phase(divider, s.counter), Period(divider);
    SmallQuotient(d, 0, c);
    NextQuotient(c + n - 1, d);
    if n == 1 {
      assert Calls(l, divider, s, n) == Called(l, divider, s);
      assert Ticks(l, s.setpoint, 1) == Tick(l, Ticks(l, s.setpoint, 0));
    } else {
      CallsAreTicks(l, divider, s, n - 1);
    }
  }

  /** The same in plain numbers; the counter may stand past the divider after calls in another mode. */
  lemma CallsInPlain(l: Limits, divider: int, s: Loop, n: nat)
    requires Proper(l) && n >= 1
    ensures divider < 1 ==> Calls(l, divider, s, n) == Loop(0, Ticks(l, s.setpoint, n))
    ensures s.counter < divider ==>
              Calls(l, divider, s, n) == Loop((s.counter + n) % divider, Ticks(l, s.setpoint, (s.counter + n) / divider))
    ensures 1 <= divider <= s.counter ==>
              Calls(l, divider, s, n) == Loop((n - 1) % divider, Ticks(l, s.setpoint, 1 + (n - 1) / divider))
  {
    hide Tick;
    CallsAreTicks(l, divider, s, n);
    if 1 <= divider <= s.counter {
      DivModOf(n - 1, divider);
      assert divider * (1 + (n - 1) / divider) == divider + divider * ((n - 1) / divider);
      SmallQuotient(divider, 1 + (n - 1) / divider, (n - 1) % divider);
    }
  }

  lemma SmallQuotient(d: int, q: int, r: int)
    requires 0 <= r < d
    ensures (d * q + r) / d == q && (d * q + r) % d == r
  {
    DivModUnique(d * q + r, d, q, r);
  }

  datatype Mode = Current | Velocity | Position

  /** motor_controller_t, as far as the position branch reads and writes it. */
  class MotorController {
    var mode: Mode
    var divider: int
    var counter: nat
    var frequency: real
    var position: real
    var velocityTarget: real
    var target: real
    var error: real
    var velocitySetpoint: real

    ghost predicate Valid()
      reads this
    {
      frequency > 0.0
    }

    /** The limits a call works with; the two parameters come from the parameter tree. */
    function Setting(maxVel: real, maxAcc: real): Limits
      reads this
      requires Valid()
    {
      Limits(target, 1.0 / frequency, maxVel, maxAcc)
    }

    function State(): Loop
      reads this
    {
      Loop(counter, Setpoint(position, velocityTarget))
    }

    /**
     * The position branch: measured is the sensor's answer, correction what the position
     * PID makes of the error.
     */
    method ProcessPosition(maxVel: real, maxAcc: real, measured: real, correction: real -> real)
      requires Valid() && maxVel >= 0.0 && maxAcc > 0.0
      modifies this`counter, this`position, this`velocityTarget, this`error, this`velocitySetpoint
      ensures Valid()
      ensures mode == Position ==>
                State() == Called(Setting(maxVel, maxAcc), divider, old(State()))
      ensures mode == Position && old(counter) + 1 >= divider ==>
                counter == 0 &&
                Setpoint(position, velocityTarget) ==
                  Tick(Limits(target, 1.0 / frequency, maxVel, maxAcc), Setpoint(old(position), old(velocityTarget)))
      ensures mode == Position && old(counter) + 1 < divider ==>
                counter == old(counter) + 1 && position == old(position) && velocityTarget == old(velocityTarget)
      ensures mode != Position ==>
                State() == old(State()).(counter := old(counter) + 1)
      ensures mode == Position && Due(divider, old(counter)) ==>
                error == measured - position && velocitySetpoint == velocityTarget + correction(error)
      ensures !(mode == Position && Due(divider, old(counter))) ==>
                error == old(error) && velocitySetpoint == old(velocitySetpoint)
    {
      counter := counter + 1;
      if mode == Position && counter >= divider {
        counter := 0;
        var dt := 1.0 / frequency;
        var acc := VelRamp(position, velocityTarget, target, dt, maxVel, maxAcc);
        position := PosInterpolation(position, velocityTarget, acc, dt);
        velocityTarget := VelInterpolation(velocityTarget, acc, dt);
        error := measured - position;
        velocitySetpoint := velocityTarget + correction(error);
      }
    }
  }
}
