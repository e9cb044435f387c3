/**
 The quarter-car plant over the reals: explicit Euler steps with clamps and a snap to
 standstill, with the default parameters. The shape of the friction curve is abstract.
 */
module Vehicle {

  const G: real := 9.81
  const V_STATIC_FREEZE: real := 1.0
  const MASS: real := 400.0
  const RADIUS: real := 0.30
  const INERTIA: real := 1.2
  const BRAKE_GAIN: real := 25.0
  const MAX_PRESSURE: real := 150.0
  const DT: real := 0.001

  /** mu(s) = peak * shape(s); the shape stands for sin(C * atan(B * s)). */
  datatype Surface = Surface(peak: real, shape: real -> real)

  ghost predicate Road(surface: Surface) {
    && 0.0 < surface.peak <= 1.0
    && surface.shape(0.0) == 0.0
    && forall s :: 0.0 <= s <= 1.0 ==> 0.0 <= surface.shape(s) <= 1.0
  }

  function Mu(surface: Surface, slip: real): real {
    surface.peak * surface.shape(slip)
  }

  function Slip(v: real, omega: real): (s: real)
    ensures 0.0 <= s <= 1.0
  {
    if -1.0 < v < 1.0 then 0.0
    else
      var s := (v - omega * RADIUS) / v;
      if s < 0.0 then 0.0 else if s > 1.0 then 1.0 else s
  }

  function Saturate(pressure: real): (p: real)
    ensures 0.0 <= p <= MAX_PRESSURE
  {
    if pressure < 0.0 then 0.0 else if pressure > MAX_PRESSURE then MAX_PRESSURE else pressure
  }

  datatype State = State(v: real, omega: real, x: real, t: real)

  /** The Euler step before clamps: friction decelerates the body and drives the wheel. */
  function Euler(s: State, p: real, mu: real, dt: real): State {
    var force := mu * MASS * G;
    var dv := -(force / MASS) * dt;
    var domega := (force * RADIUS - BRAKE_GAIN * p) / INERTIA * dt;
    State(s.v + dv, s.omega + domega, s.x + ((s.v + dv) * dt + 0.5 * dv * dt), s.t + dt)
  }

  function Clamp(s: State, p: real): State {
    var v := if s.v < 0.0 then 0.0 else s.v;
    var omega := if s.omega < 0.0 then 0.0 else s.omega;
    if v < V_STATIC_FREEZE && p > 1.0 then s.(v := 0.0, omega := 0.0)
    else s.(v := v, omega := omega)
  }

  function Step(s: State, pressure: real, surface: Surface, dt: real): State {
    var p := Saturate(pressure);
    Clamp(Euler(s, p, Mu(surface, Slip(s.v, s.omega)), dt), p)
  }

  function FreeRolling(speed: real): State {
    State(speed, speed / RADIUS, 0.0, 0.0)
  }

  predicate IsStopped(s: State) {
    s.v < 0.001
  }

  class Plant {
    var v: real
    var omega: real
    var x: real
    var t: real
    var surface: Surface

    ghost function Value(): State
      reads this
    {
      State(v, omega, x, t)
    }

    constructor (initialSpeed: real, surface: Surface)
      ensures Value() == FreeRolling(initialSpeed) && this.surface == surface
    {
      v := initialSpeed;
      omega := initialSpeed / RADIUS;
      x, t := 0.0, 0.0;
      this.surface := surface;
    }

    method SetSurface(surface: Surface)
      modifies this`surface
      ensures this.surface == surface
    {
      this.surface := surface;
    }

    /** Neither rolling backwards nor spinning in reverse, and static friction at walking pace. */
    method ApplyClamps(p: real)
      modifies this`v, this`omega
      ensures Value() == Clamp(old(Value()), p)
    {
      if v < 0.0 {
        v := 0.0;
      }
      if omega < 0.0 {
        omega := 0.0;
      }
      if v < V_STATIC_FREEZE && p > 1.0 {
        v := 0.0;
        omega := 0.0;
      }
    }

    method Advance(pressure: real, dt: real) returns (slip: real, mu: real)
      modifies this`v, this`omega, this`x, this`t
      ensures Value() == Step(old(Value()), pressure, surface, dt)
      ensures slip == Slip(old(v), old(omega)) && mu == Mu(surface, slip)
    {
      hide Slip, Mu, Clamp;
      var p := pressure;
      if p < 0.0 {
        p := 0.0;
      } else if p > MAX_PRESSURE {
        p := MAX_PRESSURE;
      }
      slip := Slip(v, omega);
      mu := Mu(surface, slip);
      ghost var before := Value();
      var force := mu * MASS * G;
      var torque := BRAKE_GAIN * p;
      var dv := -(force / MASS) * dt;
      var domega := (force * RADIUS - torque) / INERTIA * dt;
      v := v + dv;
      omega := omega + domega;
      x := x + (v * dt + 0.5 * dv * dt);
      t := t + dt;
      assert Value() == Euler(before, p, mu, dt);
      ApplyClamps(p);
    }
  }

  // ---- the distance ----

  /** The distance is the trapezoid under the speed only where the speed does not change. */
  lemma DistanceIsTrapezoidalIff(s: State, p: real, mu: real, dt: real)
    ensures var e := Euler(s, p, mu, dt);
            e.x == s.x + (s.v + e.v) / 2.0 * dt <==> mu == 0.0 || dt == 0.0
  {
    var dv := -(mu * MASS * G / MASS) * dt;
    SpeedChange(mu, dt);
    assert (s.v + dv) * dt + 0.5 * dv * dt - (s.v + s.v + dv) / 2.0 * dt == dv * dt;
    ZeroProduct(mu, dt);
    ZeroProduct(mu * dt, dt);
  }

  lemma SpeedChange(mu: real, dt: real)
    ensures -(mu * MASS * G / MASS) * dt == -9.81 * (mu * dt)
  {
  }

  lemma ZeroProduct(a: real, b: real)
    ensures a * b == 0.0 <==> a == 0.0 || b == 0.0
  {
  }

  // ---- slip and friction at the extremes ----

  lemma NonNegativeOver(a: real, b: real)
    requires b > 0.0
    ensures a <= 0.0 ==> a / b <= 0.0
  {
  }

  lemma SlipOfFastWheel(v: real, omega: real)
    requires 0.0 <= v && (v < 1.0 || omega * RADIUS >= v)
    ensures Slip(v, omega) == 0.0
  {
    if v >= 1.0 {
      NonNegativeOver(v - omega * RADIUS, v);
    }
  }

  lemma SlipOfLockedWheel(v: real)
    requires v >= 1.0
    ensures Slip(v, 0.0) == 1.0
  {
    assert (v - 0.0 * RADIUS) / v == 1.0;
  }

  lemma Between(a: real, b: real)
    requires 0.0 <= a && 0.0 <= b <= 1.0
    ensures 0.0 <= a * b <= a
  {
  }

  lemma MuBounds(surface: Surface, slip: real)
    requires Road(surface) && 0.0 <= slip <= 1.0
    ensures 0.0 <= Mu(surface, slip) <= surface.peak
    ensures slip == 0.0 ==> Mu(surface, slip) == 0.0
  {
    var y := surface.shape(slip);
    Between(surface.peak, y);
    assert Mu(surface, slip) == surface.peak * y;
  }

  // ---- the step in numbers ----

  /** Pressure as the brake applies it: between 0 and 150 bar. */
  predicate Applied(pressure: real, p: real) {
    p == if pressure <= 0.0 then 0.0 else if pressure >= 150.0 then 150.0 else pressure
  }

  /** Slip of a wheel that is not faster than the body, and of one that is. */
  lemma SlipInNumbers(v: real, omega: real)
    requires v >= 1.0
    ensures 0.0 <= 0.3 * omega <= v ==> Slip(v, omega) * v == v - 0.3 * omega
    ensures 0.3 * omega > v ==> Slip(v, omega) == 0.0
    ensures omega < 0.0 ==> Slip(v, omega) == 1.0
  {
    var x := v - omega * RADIUS;
    assert x / v * v == x;
    if 0.0 <= 0.3 * omega <= v {
      NotOver(x, v);
    } else if omega < 0.0 {
      Over(x, v);
    }
  }

  lemma NotOver(a: real, b: real)
    requires b > 0.0 && 0.0 <= a <= b
    ensures 0.0 <= a / b <= 1.0
  {
  }

  lemma Over(a: real, b: real)
    requires b > 0.0 && a > b
    ensures a / b > 1.0
  {
  }

  /**
   While the vehicle moves, friction takes from the body what it gives to the wheel: 1.2 kg m2 of
   wheel against 400 kg of body at 0.3 m, less 25 Nm per bar of brake, over a millisecond. A wheel
   that stands still would have been turned backwards.
   */
  lemma MomentumBalance(s: State, pressure: real, surface: Surface, p: real)
    requires Applied(pressure, p) && Step(s, pressure, surface, DT).v > 0.0
    ensures var n := Step(s, pressure, surface, DT);
            var gained := 0.3 * (400.0 * (s.v - n.v)) - 25.0 * p * 0.001;
            && n.omega >= 0.0
            && (n.omega > 0.0 ==> 1.2 * (n.omega - s.omega) == gained)
            && (n.omega == 0.0 ==> 1.2 * (n.omega - s.omega) >= gained)
    ensures var n := Step(s, pressure, surface, DT);
            var mu := surface.peak * surface.shape(Slip(s.v, s.omega));
            && n.v == s.v - mu * 9.81 * 0.001
            && n.x == s.x + (1.5 * n.v - 0.5 * s.v) * 0.001
            && n.t == s.t + 0.001
  {
    var mu := Mu(surface, Slip(s.v, s.omega));
    assert p == Saturate(pressure);
    EulerInNumbers(s, p, mu);
  }

  /**
   A moving vehicle is brought to rest in a step exactly when the brake exceeds 1 bar and friction
   takes it below 1 m/s, and then the wheel stands too.
   */
  lemma SnapIff(s: State, pressure: real, surface: Surface)
    requires Road(surface) && s.v > 0.0
    ensures var n := Step(s, pressure, surface, DT);
            var mu := surface.peak * surface.shape(Slip(s.v, s.omega));
            && (n.v == 0.0 <==> pressure > 1.0 && s.v - mu * 9.81 * 0.001 < 1.0)
            && (n.v == 0.0 ==> n.omega == 0.0)
  {
    var slip := Slip(s.v, s.omega);
    MuBounds(surface, slip);
    if s.v < 1.0 {
      SlipOfFastWheel(s.v, s.omega);
    }
    EulerInNumbers(s, Saturate(pressure), Mu(surface, slip));
  }

  lemma EulerInNumbers(s: State, p: real, mu: real)
    ensures var e := Euler(s, p, mu, DT);
            && e.v == s.v - mu * 0.00981
            && e.omega == s.omega + (mu * 1177.2 - 25.0 * p) / 1200.0
            && e.x == s.x + (1.5 * e.v - 0.5 * s.v) * 0.001
            && e.t == s.t + 0.001
  {
  }

  /**
   The whole step, clamps and standstill included: its distance is the trapezoid under the speed
   exactly when the step leaves the speed alone.
   */
  lemma StepIsTrapezoidalIff(s: State, pressure: real, surface: Surface)
    requires Road(surface) && 0.0 <= s.v
    ensures var n := Step(s, pressure, surface, DT);
            n.x == s.x + (s.v + n.v) / 2.0 * DT <==> n.v == s.v
  {
    var slip := Slip(s.v, s.omega);
    var mu := Mu(surface, slip);
    MuBounds(surface, slip);
    if s.v < 1.0 {
      SlipOfFastWheel(s.v, s.omega);
    }
    var e := Euler(s, Saturate(pressure), mu, DT);
    assert e.v == s.v - mu * 0.00981;
    assert e.x == s.x + (s.v - mu * 0.014715) * DT;
  }

  // ---- the wheel never outruns the body ----

  /** Largest lead of the wheel's rim over the body: one step at full friction. */
  const MAX_LEAD: real := 0.30411

  predicate Sane(s: State) {
    0.0 <= s.v && 0.0 <= s.omega && s.omega * RADIUS <= s.v + MAX_LEAD
  }

  lemma EulerLead(s: State, p: real, mu: real)
    requires Sane(s) && 0.0 <= p && 0.0 <= mu <= 1.0
    requires s.v < 1.0 || s.omega * RADIUS >= s.v ==> mu == 0.0
    ensures Sane(Clamp(Euler(s, p, mu, DT), p))
    ensures Euler(s, p, mu, DT).v <= s.v && Euler(s, p, mu, DT).x >= s.x
  {
    var e := Euler(s, p, mu, DT);
    assert e.v == s.v - mu * 0.00981;
    assert e.omega == s.omega + (mu * 1177.2 - 25.0 * p) / 1200.0;
    assert e.omega * RADIUS <= s.omega * RADIUS + mu * 0.2943;
  }

  lemma StepKeepsLead(s: State, pressure: real, surface: Surface)
    requires Sane(s) && Road(surface)
    ensures var n := Step(s, pressure, surface, DT);
            Sane(n) && n.v <= s.v && n.x >= s.x
  {
    var slip := Slip(s.v, s.omega);
    MuBounds(surface, slip);
    if s.v < 1.0 || s.omega * RADIUS >= s.v {
      SlipOfFastWheel(s.v, s.omega);
    }
    EulerLead(s, Saturate(pressure), Mu(surface, slip));
  }

  /** What acts on the vehicle in one step: any pressure, on any surface. */
  datatype Action = Action(pressure: real, surface: Surface)

  ghost predicate Drivable(actions: seq<Action>) {
    forall k :: 0 <= k < |actions| ==> Road(actions[k].surface)
  }

  function Drive(s: State, actions: seq<Action>): State {
    if actions == [] then s
    else
      var n := |actions| - 1;
      Step(Drive(s, actions[..n]), actions[n].pressure, actions[n].surface, DT)
  }

  lemma {:induction false} LeadIsBounded(speed: real, actions: seq<Action>)
    requires speed >= 0.0 && Drivable(actions)
    ensures Sane(Drive(FreeRolling(speed), actions))
    ensures Drive(FreeRolling(speed), actions).v <= speed
  {
    hide Step;
    if actions == [] {
      assert (speed / RADIUS) * RADIUS == speed;
    } else {
      var n := |actions| - 1;
      LeadIsBounded(speed, actions[..n]);
      StepKeepsLead(Drive(FreeRolling(speed), actions[..n]), actions[n].pressure, actions[n].surface);
    }
  }

  // ---- a released wheel ----

  /** The friction never falls below `m` while the slip is at least `low`. */
  ghost predicate Grips(surface: Surface, low: real, m: real) {
    m > 0.0 && forall s :: low <= s <= 1.0 ==> Mu(surface, s) >= m
  }

  /** With the brake released, friction spins the wheel up in every step. */
  lemma ReleasedWheelSpinsUp(s: State, pressure: real, surface: Surface, m: real)
    requires Road(surface) && pressure <= 0.0 && 0.0 <= s.v && 0.0 <= s.omega
    requires Mu(surface, Slip(s.v, s.omega)) >= m >= 0.0
    ensures var n := Step(s, pressure, surface, DT);
            n.omega >= s.omega + 0.981 * m && 0.0 <= n.v <= s.v
  {
    var mu := Mu(surface, Slip(s.v, s.omega));
    MuBounds(surface, Slip(s.v, s.omega));
    if s.v < 1.0 {
      SlipOfFastWheel(s.v, s.omega);
    }
    EulerInNumbers(s, 0.0, mu);
  }

  lemma {:induction false} SpinsUpWhileSlipping(s: State, pressure: real, surface: Surface, low: real, m: real, n: nat)
    requires Road(surface) && pressure <= 0.0 && 0.0 <= s.v && 0.0 <= s.omega && Grips(surface, low, m)
    requires forall k: nat :: k < n ==>
               var b := Brake(s, pressure, surface, k); Slip(b.v, b.omega) >= low
    ensures var b := Brake(s, pressure, surface, n);
            b.omega >= s.omega + n as real * (0.981 * m) && 0.0 <= b.v <= s.v
  {
    hide Step, Slip, Mu;
    if n > 0 {
      SpinsUpWhileSlipping(s, pressure, surface, low, m, n - 1);
      var b := Brake(s, pressure, surface, n - 1);
      SlipIsRatio(b.v, b.omega);
      assert Slip(b.v, b.omega) >= low;
      ReleasedWheelSpinsUp(b, pressure, surface, m);
      OneMore(n, 0.981 * m);
      NotNegative(n - 1, 0.981 * m);
    }
  }

  lemma SlipIsRatio(v: real, omega: real)
    ensures 0.0 <= Slip(v, omega) <= 1.0
  {
  }

  lemma NotNegative(n: nat, r: real)
    requires r >= 0.0
    ensures n as real * r >= 0.0
  {
  }

  /** A wheel that is as fast as the body does not slip. */
  lemma FastEnough(v: real, omega: real, top: real)
    requires 0.0 <= v <= top && omega > top / RADIUS
    ensures Slip(v, omega) == 0.0
  {
    assert omega * RADIUS > top;
    SlipOfFastWheel(v, omega);
  }

  /**
   Once released, a slipping wheel recovers: on a road that grips, its slip falls below any given
   value within an explicit number of steps, from every speed and even from a locked wheel.
   */
  lemma ReleasedWheelRecovers(s: State, pressure: real, surface: Surface, low: real, m: real)
    requires Road(surface) && pressure <= 0.0 && 0.0 <= s.v && 0.0 <= s.omega
    requires low > 0.0 && Grips(surface, low, m)
    ensures exists k: nat :: k <= StepsFor(s.v / RADIUS, 0.981 * m) &&
              var b := Brake(s, pressure, surface, k); Slip(b.v, b.omega) < low
  {
    hide Step, Slip, Mu, Brake;
    var n := StepsFor(s.v / RADIUS, 0.981 * m);
    if forall k: nat :: k <= n ==> var b := Brake(s, pressure, surface, k); Slip(b.v, b.omega) >= low {
      SpinsUpWhileSlipping(s, pressure, surface, low, m, n);
      var b := Brake(s, pressure, surface, n);
      FastEnough(b.v, b.omega, s.v);
      assert false;
    }
  }

  // ---- panic stop ----

  /** The wheel's loss of speed per step when the brake beats the strongest friction. */
  function LockRate(p: real, surface: Surface): real {
    (BRAKE_GAIN * Saturate(p) - surface.peak * MASS * G * RADIUS) / INERTIA * DT
  }

  /** The body's loss of speed per step behind a locked wheel. */
  function SlideRate(surface: Surface): real {
    Mu(surface, 1.0) * G * DT
  }

  predicate Panic(p: real, surface: Surface) {
    p > 1.0 && LockRate(p, surface) > 0.0
  }

  function Brake(s: State, p: real, surface: Surface, n: nat): State {
    if n == 0 then s else Step(Brake(s, p, surface, n - 1), p, surface, DT)
  }

  lemma WheelSlows(s: State, p: real, surface: Surface)
    requires Panic(p, surface) && Road(surface) && 0.0 <= s.v && 0.0 <= s.omega
    ensures var n := Step(s, p, surface, DT);
            && 0.0 <= n.v <= s.v && 0.0 <= n.omega
            && (n.omega == 0.0 || n.omega <= s.omega - LockRate(p, surface))
  {
    var mu := Mu(surface, Slip(s.v, s.omega));
    MuBounds(surface, Slip(s.v, s.omega));
    var e := Euler(s, Saturate(p), mu, DT);
    assert e.v == s.v - mu * 0.00981;
    assert e.omega == s.omega - (25.0 * Saturate(p) - mu * 1177.2) / 1200.0;
    assert LockRate(p, surface) == (25.0 * Saturate(p) - surface.peak * 1177.2) / 1200.0;
  }

  lemma LockedWheelSlides(s: State, p: real, surface: Surface)
    requires Panic(p, surface) && Road(surface) && 0.0 <= s.v && s.omega == 0.0
    ensures var n := Step(s, p, surface, DT);
            && n.omega == 0.0
            && (s.v >= 1.0 && s.v - SlideRate(surface) >= 1.0 ==> n.v == s.v - SlideRate(surface))
            && (s.v < 1.0 || s.v - SlideRate(surface) < 1.0 ==> n.v == 0.0)
  {
    WheelSlows(s, p, surface);
    MuBounds(surface, Slip(s.v, 0.0));
    if s.v >= 1.0 {
      SlipOfLockedWheel(s.v);
      assert Euler(s, Saturate(p), Mu(surface, 1.0), DT).v == s.v - SlideRate(surface);
    } else {
      SlipOfFastWheel(s.v, 0.0);
    }
  }

  lemma {:induction false} WheelLocks(s: State, p: real, surface: Surface, n: nat)
    requires Panic(p, surface) && Road(surface) && 0.0 <= s.v && 0.0 <= s.omega
    ensures var b := Brake(s, p, surface, n);
            && 0.0 <= b.v <= s.v && 0.0 <= b.omega
            && (b.omega == 0.0 || b.omega <= s.omega - n as real * LockRate(p, surface))
  {
    hide Step, LockRate;
    if n > 0 {
      WheelLocks(s, p, surface, n - 1);
      var b := Brake(s, p, surface, n - 1);
      WheelSlows(b, p, surface);
      OneMore(n, LockRate(p, surface));
      if b.omega == 0.0 {
        LockedWheelSlides(b, p, surface);
      }
    }
  }

  lemma OneMore(n: nat, r: real)
    requires n > 0
    ensures n as real * r == (n - 1) as real * r + r
  {
    assert n as real == (n - 1) as real + 1.0;
  }

  /** Once locked the wheel stays locked, and the body slides at a constant rate until it stops. */
  lemma {:induction false} LockedSlide(s: State, p: real, surface: Surface, n: nat)
    requires Panic(p, surface) && Road(surface) && 0.0 <= s.v && s.omega == 0.0
    ensures var b := Brake(s, p, surface, n);
            && b.omega == 0.0
            && (b.v == 0.0 || b.v == s.v - n as real * SlideRate(surface))
            && (b.v == 0.0 || b.v >= 1.0 || n == 0)
  {
    hide Step, LockRate, SlideRate;
    if n > 0 {
      LockedSlide(s, p, surface, n - 1);
      LockedWheelSlides(Brake(s, p, surface, n - 1), p, surface);
      OneMore(n, SlideRate(surface));
    }
  }

  /** The number of steps after which a quantity that loses `rate` per step is used up. */
  function StepsFor(amount: real, rate: real): (n: nat)
    requires amount >= 0.0 && rate > 0.0
    ensures n as real * rate > amount
  {
    var n := (amount / rate).Floor + 1;
    EnoughSteps(amount, rate, n);
    n
  }

  lemma EnoughSteps(amount: real, rate: real, n: int)
    requires amount >= 0.0 && rate > 0.0 && n == (amount / rate).Floor + 1
    ensures n > 0 && n as real * rate > amount
  {
    var q := amount / rate;
    assert q * rate == amount;
    assert n as real > q;
    Multiply(n as real, q, rate);
  }

  lemma Multiply(a: real, b: real, r: real)
    requires a > b && r > 0.0
    ensures a * r > b * r
  {
  }

  lemma {:induction false} BrakeAdds(s: State, p: real, surface: Surface, m: nat, n: nat)
    ensures Brake(s, p, surface, m + n) == Brake(Brake(s, p, surface, m), p, surface, n)
  {
    hide Step;
    if n > 0 {
      BrakeAdds(s, p, surface, m, n - 1);
    }
  }

  /**
   A panic stop ends: the wheel is locked after `lock` steps at the latest, and `slide` steps
   after that the vehicle stands, and it stays so.
   */
  lemma PanicStopEnds(s: State, p: real, surface: Surface, longer: nat)
    requires Panic(p, surface) && Road(surface) && 0.0 <= s.v && 0.0 <= s.omega
    requires SlideRate(surface) > 0.0
    ensures var lock := StepsFor(s.omega, LockRate(p, surface));
            var slide := StepsFor(s.v, SlideRate(surface));
            && Brake(s, p, surface, lock).omega == 0.0
            && Brake(s, p, surface, lock + slide + longer).omega == 0.0
            && IsStopped(Brake(s, p, surface, lock + slide + longer))
  {
    hide Step, LockRate, SlideRate;
    var lock := StepsFor(s.omega, LockRate(p, surface));
    WheelLocks(s, p, surface, lock);
    var locked := Brake(s, p, surface, lock);
    var slide := StepsFor(s.v, SlideRate(surface));
    BrakeAdds(s, p, surface, lock, slide + longer);
    LockedSlide(locked, p, surface, slide + longer);
    AtLeast(slide + longer, slide, SlideRate(surface));
  }

  lemma AtLeast(m: nat, n: nat, r: real)
    requires m >= n && r > 0.0
    ensures m as real * r >= n as real * r
  {
    if m > n {
      Multiply(m as real, n as real, r);
    }
  }

  lemma LightStep(s: State, p: real, surface: Surface)
    requires Road(surface) && p <= 1.0 && 0.0 <= s.v
    ensures var n := Step(s, p, surface, DT);
            if s.v < 1.0 then n.v == s.v else n.v >= s.v - 0.00981
  {
    var slip := Slip(s.v, s.omega);
    MuBounds(surface, slip);
    if s.v < 1.0 {
      SlipOfFastWheel(s.v, s.omega);
    }
    assert Euler(s, Saturate(p), Mu(surface, slip), DT).v == s.v - Mu(surface, slip) * 0.00981;
  }

  /**
   Below walking pace friction is switched off, so under at most 1 bar the vehicle keeps rolling:
   it never gets slower than it was there, or than the one step that brought it there allows.
   */
  lemma {:induction false} LightBrakeNeverStops(s: State, p: real, surface: Surface, n: nat)
    requires Road(surface) && p <= 1.0 && !IsStopped(s)
    ensures var b := Brake(s, p, surface, n);
            && !IsStopped(b)
            && (s.v < 1.0 ==> b.v == s.v)
            && (s.v >= 1.0 ==> b.v >= 0.99)
  {
    hide Step;
    if n > 0 {
      LightBrakeNeverStops(s, p, surface, n - 1);
      LightStep(Brake(s, p, surface, n - 1), p, surface);
    }
  }

  /** A constant brake that beats the strongest friction stops the vehicle iff it exceeds 1 bar. */
  lemma StopsIffAboveOneBar(s: State, p: real, surface: Surface)
    requires Road(surface) && LockRate(p, surface) > 0.0 && SlideRate(surface) > 0.0
    requires s.v >= 0.001 && s.omega >= 0.0
    ensures (exists n: nat :: Brake(s, p, surface, n).v < 0.001) <==> p > 1.0
  {
    hide Step, LockRate, SlideRate, Brake;
    if p > 1.0 {
      PanicStopEnds(s, p, surface, 0);
      var lock := StepsFor(s.omega, LockRate(p, surface));
      var slide := StepsFor(s.v, SlideRate(surface));
      assert Brake(s, p, surface, lock + slide).v < 0.001;
    } else {
      forall n: nat ensures !(Brake(s, p, surface, n).v < 0.001) {
        LightBrakeNeverStops(s, p, surface, n);
      }
    }
  }

  /**
   The four presets have a peak of at least 0.1, and there a pressure that locks the wheel is
   always above 1 bar.
   */
  lemma PresetsLockAbove(p: real, surface: Surface)
    requires surface.peak >= 0.1 && LockRate(p, surface) > 0.0
    ensures p > 4.7
  {
    assert BRAKE_GAIN * Saturate(p) > surface.peak * MASS * G * RADIUS;
  }
}
