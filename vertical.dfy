/** The vertical motion of the third-person controller: the per-tick jump
    and gravity state machine over the vertical velocity, the jump and fall
    timeouts and the jump input, and the angle clamp the camera uses. The
    roof sphere cast is an input. */
module Vertical {
  import opened Vectors

  /** `_terminalVelocity`: gravity is applied only above this speed. */
  const TERMINAL_VELOCITY: real := -53.0

  /** The vertical velocity a grounded character on level ground keeps. */
  const LANDED_VELOCITY: real := -2.0

  /** Rate of the Lerp that brakes a rising character under a roof. */
  const ROOF_DAMPING_RATE: real := 10.0

  /** The serialized settings the state machine reads. */
  datatype JumpConfig = JumpConfig(gravity: real, jumpHeight: real, jumpTimeout: real, fallTimeout: real)

  /** The part of the controller's state the state machine writes:
      `_verticalVelocity`, `_jumpTimeoutDelta`, `_fallTimeoutDelta` and the
      jump input flag. */
  datatype VerticalState = VerticalState(velocity: real, jumpTimeout: real, fallTimeout: real, jump: bool)

  /** `JumpHeight * -2 * Gravity`, the square of the launch speed. */
  function LaunchSquare(cfg: JumpConfig): real {
    Mul(cfg.jumpHeight * -2.0, cfg.gravity)
  }

  /** The settings give a real launch speed: the square root is taken of a
      non-negative number. */
  predicate CanLaunch(cfg: JumpConfig) {
    0.0 <= LaunchSquare(cfg)
  }

  /** The launch speed of a jump. */
  function JumpVelocity(cfg: JumpConfig): real
    requires CanLaunch(cfg)
  {
    Sqrt(LaunchSquare(cfg))
  }

  /** The vertical velocity a falling character gets on touching ground with
      normal `normal`: -2 on level ground, down to `gravity` on a wall. */
  function LandedVelocity(gravity: real, normal: Vec3): real {
    LerpReal(gravity, LANDED_VELOCITY, Dot(UP, normal))
  }

  /** A timer counting down: decremented by `dt` only while it is not
      negative, so it never rises and stops just below zero. */
  function Countdown(t: real, dt: real): (r: real)
    ensures 0.0 <= dt ==> r <= t
    ensures 0.0 <= dt && 0.0 <= t ==> -dt <= r
    ensures t < 0.0 ==> r == t
  {
    if t >= 0.0 then t - dt else t
  }

  /** Whether a jump fires this tick. */
  predicate Launches(s: VerticalState) {
    s.jump && s.jumpTimeout <= 0.0
  }

  /** The grounded part of the tick: the fall timeout is reset, a falling
      velocity is replaced by the landed velocity, a requested jump whose
      timeout has run out fires and restarts the jump timeout, which then
      counts down. */
  function GroundedPhase(s: VerticalState, cfg: JumpConfig, normal: Vec3, dt: real): VerticalState
    requires CanLaunch(cfg)
  {
    var landed := if s.velocity < 0.0 then LandedVelocity(cfg.gravity, normal) else s.velocity;
    var velocity := if Launches(s) then JumpVelocity(cfg) else landed;
    var jumpTimeout := if Launches(s) then cfg.jumpTimeout else s.jumpTimeout;
    VerticalState(velocity, Countdown(jumpTimeout, dt), cfg.fallTimeout, s.jump)
  }

  /** The airborne part of the tick: the fall timeout counts down and the
      jump input is dropped. */
  function AirbornePhase(s: VerticalState, dt: real): VerticalState {
    s.(fallTimeout := Countdown(s.fallTimeout, dt), jump := false)
  }

  /** Gravity over one tick, applied only above the terminal velocity. */
  function ApplyGravity(velocity: real, gravity: real, dt: real): real {
    if velocity > TERMINAL_VELOCITY then velocity + Mul(gravity, dt) else velocity
  }

  /** A rising character whose roof cast hits is braked toward zero and may
      jump again at once. The cast is made only while rising. */
  function RoofDamping(s: VerticalState, roofHit: bool, dt: real): VerticalState {
    if s.velocity > 0.0 && roofHit then
      s.(jumpTimeout := 0.0, velocity := LerpReal(s.velocity, 0.0, dt * ROOF_DAMPING_RATE))
    else s
  }

  /** One tick of `JumpAndGravity`. */
  function JumpAndGravity(s: VerticalState, cfg: JumpConfig, grounded: bool, normal: Vec3,
                          roofHit: bool, dt: real): VerticalState
    requires CanLaunch(cfg)
  {
    var phase := if grounded then GroundedPhase(s, cfg, normal, dt) else AirbornePhase(s, dt);
    RoofDamping(phase.(velocity := ApplyGravity(phase.velocity, cfg.gravity, dt)), roofHit, dt)
  }

  // ---------------------------------------------------------------------
  // Properties of the state machine
  // ---------------------------------------------------------------------

  /** While grounded, a launch restarts the jump timeout: when the timeout
      is longer than a tick and no roof stops the rise, the next tick cannot
      launch again. */
  lemma JumpCooldown(s: VerticalState, cfg: JumpConfig, normal: Vec3, dt: real)
    requires CanLaunch(cfg) && Launches(s)
    requires 0.0 <= dt < cfg.jumpTimeout
    ensures !Launches(JumpAndGravity(s, cfg, true, normal, false, dt))
    ensures JumpAndGravity(s, cfg, true, normal, false, dt).jumpTimeout == cfg.jumpTimeout - dt
  {
  }

  /** Without a launch the grounded phase keeps the jump timeout counting
      down and only lifts a falling velocity to the landed one. */
  lemma GroundedWithoutLaunch(s: VerticalState, cfg: JumpConfig, normal: Vec3, dt: real)
    requires CanLaunch(cfg) && !Launches(s) && 0.0 <= dt
    ensures GroundedPhase(s, cfg, normal, dt).jumpTimeout <= s.jumpTimeout
    ensures s.velocity >= 0.0 ==> GroundedPhase(s, cfg, normal, dt).velocity == s.velocity
    ensures GroundedPhase(s, cfg, normal, dt).fallTimeout == cfg.fallTimeout
  {
  }

  /** The launch speed is positive for a positive jump height under
      downward gravity, and its square reaches `JumpHeight * -2 * Gravity`:
      the apex of the jump, `v² / (2 |Gravity|)`, is at least `JumpHeight`,
      and exceeds it by no more than the square root's tolerance `t` allows:
      at most `2 t v / (2 |Gravity|)`. */
  lemma LaunchReachesHeight(cfg: JumpConfig)
    requires cfg.gravity < 0.0 && 0.0 < cfg.jumpHeight
    ensures CanLaunch(cfg)
    ensures 0.0 < JumpVelocity(cfg)
    ensures cfg.jumpHeight <= Div(Square(JumpVelocity(cfg)), -2.0 * cfg.gravity)
    ensures Div(Square(JumpVelocity(cfg)), -2.0 * cfg.gravity)
            <= cfg.jumpHeight + Div(Mul(2.0 * SqrtTolerance(LaunchSquare(cfg)), JumpVelocity(cfg)), -2.0 * cfg.gravity)
  {
    var k := -2.0 * cfg.gravity;
    assert LaunchSquare(cfg) == Mul(cfg.jumpHeight, k) by {
      MulDef(cfg.jumpHeight * -2.0, cfg.gravity);
      MulDef(cfg.jumpHeight, k);
    }
    assert 0.0 < Mul(cfg.jumpHeight, k) by {
      MultiplyStrict(0.0, cfg.jumpHeight, k);
      MulZeroLeft(k);
    }
    var v := JumpVelocity(cfg);
    HeightFromSquare(cfg.jumpHeight, k, Square(v));
    ApexAtMost(cfg.jumpHeight, k, v, SqrtTolerance(LaunchSquare(cfg)));
  }

  /** A root `v` that overshoots the root of `h * k` by at most `t` gives an
      apex `v² / k` at most `2 t v / k` above `h`. */
  lemma ApexAtMost(h: real, k: real, v: real, t: real)
    requires 0.0 < k && 0.0 <= t <= v
    requires Square(v - t) <= Mul(h, k)
    ensures Div(Square(v), k) <= h + Div(Mul(2.0 * t, v), k)
  {
    var i := Inverse(k);
    InverseCancels(k);
    MulDef(i, k);
    MulDef(v - t, v - t);
    MulDef(h, k);
    MulDef(v, v);
    MulDef(2.0 * t, v);
    MulDef(Square(v), i);
    MulDef(Mul(2.0 * t, v), i);
    assert v * v <= h * k + 2.0 * t * v by {
      assert v * v == (v - t) * (v - t) + 2.0 * t * v - t * t;
      assert 0.0 <= t * t;
    }
    assert (v * v) * i <= (h * k + 2.0 * t * v) * i by {
      assert 0.0 < i;
    }
    assert (h * k + 2.0 * t * v) * i == h * (k * i) + (2.0 * t * v) * i;
  }

  /** Dividing a bound on `h * k` by `k` gives a bound on `h`. */
  lemma HeightFromSquare(h: real, k: real, s: real)
    requires 0.0 < k && Mul(h, k) <= s
    ensures h <= Div(s, k)
  {
    InverseCancels(k);
    MultiplyMonotone(Mul(h, k), s, Inverse(k));
    assert Mul(Mul(h, k), Inverse(k)) == h by {
      MulDef(h, k);
      MulDef(Mul(h, k), Inverse(k));
      MulDef(Inverse(k), k);
    }
  }

  /** The landed velocity lies between `gravity` and -2. */
  lemma LandedVelocityBetween(gravity: real, normal: Vec3)
    requires gravity <= LANDED_VELOCITY
    ensures gravity <= LandedVelocity(gravity, normal) <= LANDED_VELOCITY
  {
    LerpRealBetween(gravity, LANDED_VELOCITY, Dot(UP, normal));
  }

  /** The vertical component of a surface normal. */
  lemma DotUpLeft(normal: Vec3)
    ensures Dot(UP, normal) == normal.y
  {
    MulZeroLeft(normal.x);
    MulOneLeft(normal.y);
    MulZeroLeft(normal.z);
  }

  /** On level ground (a normal pointing straight up) the landed velocity is
      exactly -2. */
  lemma LandedOnLevelGround(gravity: real, normal: Vec3)
    requires normal.y == 1.0
    ensures LandedVelocity(gravity, normal) == LANDED_VELOCITY
  {
    DotUpLeft(normal);
    MulOneRight(LANDED_VELOCITY - gravity);
  }

  /** Against a surface whose normal is horizontal the landed velocity is
      the full gravity. */
  lemma LandedOnWall(gravity: real, normal: Vec3)
    requires normal.y == 0.0
    ensures LandedVelocity(gravity, normal) == gravity
  {
    DotUpLeft(normal);
    MulZeroRight(LANDED_VELOCITY - gravity);
  }

  /** Airborne, the jump input is dropped, the jump timeout is untouched and
      the velocity is left to gravity. */
  lemma AirborneDropsJump(s: VerticalState, cfg: JumpConfig, normal: Vec3, roofHit: bool, dt: real)
    requires CanLaunch(cfg)
    ensures !JumpAndGravity(s, cfg, false, normal, roofHit, dt).jump
    ensures JumpAndGravity(s, cfg, false, normal, roofHit, dt).fallTimeout == Countdown(s.fallTimeout, dt)
    ensures !(ApplyGravity(s.velocity, cfg.gravity, dt) > 0.0 && roofHit) ==>
              JumpAndGravity(s, cfg, false, normal, roofHit, dt).jumpTimeout == s.jumpTimeout
  {
  }

  /** Gravity never raises the velocity, leaves it alone at or below the
      terminal velocity, and never takes it further below the terminal
      velocity than one tick's worth of gravity. */
  lemma TerminalVelocityGate(velocity: real, gravity: real, dt: real)
    requires gravity <= 0.0 && 0.0 <= dt
    ensures ApplyGravity(velocity, gravity, dt) <= velocity
    ensures velocity <= TERMINAL_VELOCITY ==> ApplyGravity(velocity, gravity, dt) == velocity
    ensures velocity >= TERMINAL_VELOCITY + Mul(gravity, dt) ==>
              ApplyGravity(velocity, gravity, dt) >= TERMINAL_VELOCITY + Mul(gravity, dt)
  {
    MultiplyMonotone(gravity, 0.0, dt);
    MulZeroLeft(dt);
  }

  /** A roof hit while rising restarts the jump and keeps the velocity
      within [0, previous]; when not rising, the roof cast does not matter. */
  lemma RoofDampingBounds(s: VerticalState, roofHit: bool, other: bool, dt: real)
    ensures s.velocity > 0.0 && roofHit ==>
              RoofDamping(s, roofHit, dt).jumpTimeout == 0.0 &&
              0.0 <= RoofDamping(s, roofHit, dt).velocity <= s.velocity
    ensures s.velocity <= 0.0 ==> RoofDamping(s, roofHit, dt) == RoofDamping(s, other, dt) == s
    ensures RoofDamping(s, roofHit, dt).jump == s.jump
    ensures RoofDamping(s, roofHit, dt).fallTimeout == s.fallTimeout
  {
    LerpRealBetween(s.velocity, 0.0, dt * ROOF_DAMPING_RATE);
  }

  /** In the air the vertical velocity never increases. */
  lemma AirborneNotRising(s: VerticalState, cfg: JumpConfig, normal: Vec3, roofHit: bool, dt: real)
    requires CanLaunch(cfg) && cfg.gravity <= 0.0 && 0.0 <= dt
    ensures JumpAndGravity(s, cfg, false, normal, roofHit, dt).velocity <= s.velocity
  {
    var g := ApplyGravity(s.velocity, cfg.gravity, dt);
    TerminalVelocityGate(s.velocity, cfg.gravity, dt);
    RoofDampingBounds(AirbornePhase(s, dt).(velocity := g), roofHit, roofHit, dt);
  }

  /** Only a jump lifts a grounded character: without a launch, a grounded
      character that was not rising is not rising after the tick. */
  lemma OnlyJumpLifts(s: VerticalState, cfg: JumpConfig, normal: Vec3, roofHit: bool, dt: real)
    requires CanLaunch(cfg) && cfg.gravity <= LANDED_VELOCITY && 0.0 <= dt
    requires s.velocity <= 0.0 && !Launches(s)
    ensures JumpAndGravity(s, cfg, true, normal, roofHit, dt).velocity <= 0.0
  {
    var p := GroundedPhase(s, cfg, normal, dt);
    LandedVelocityBetween(cfg.gravity, normal);
    assert p.velocity <= 0.0;
    TerminalVelocityGate(p.velocity, cfg.gravity, dt);
  }

  /** A launch under a terminal-free tick leaves the character rising when
      the launch speed outweighs one tick of gravity and no roof is hit. */
  lemma LaunchRises(s: VerticalState, cfg: JumpConfig, normal: Vec3, dt: real)
    requires CanLaunch(cfg) && Launches(s)
    requires 0.0 < JumpVelocity(cfg) + Mul(cfg.gravity, dt)
    ensures JumpAndGravity(s, cfg, true, normal, false, dt).velocity == JumpVelocity(cfg) + Mul(cfg.gravity, dt)
    ensures JumpAndGravity(s, cfg, true, normal, false, dt).velocity > 0.0
  {
    var v := JumpVelocity(cfg);
    assert v >= 0.0 by { assert 0.0 <= v - SqrtTolerance(LaunchSquare(cfg)); }
  }

  // ---------------------------------------------------------------------
  // The camera angle clamp
  // ---------------------------------------------------------------------

  /** One full turn, in degrees. */
  const FULL_TURN: real := 360.0

  /** The angle brought back by one turn when it lies beyond a full turn:
      it moves by a whole turn or not at all, and every angle within two
      turns lands in [-360, 360]. */
  function WrapOnce(angle: real): (r: real)
    ensures r == angle || r == angle + FULL_TURN || r == angle - FULL_TURN
    ensures -2.0 * FULL_TURN <= angle <= 2.0 * FULL_TURN ==> -FULL_TURN <= r <= FULL_TURN
    ensures -FULL_TURN <= angle <= FULL_TURN ==> r == angle
  {
    var a := if angle < -FULL_TURN then angle + FULL_TURN else angle;
    if a > FULL_TURN then a - FULL_TURN else a
  }

  /** `Mathf.Clamp`: below `lo` gives `lo`, otherwise above `hi` gives `hi`. */
  function Clamp(value: real, lo: real, hi: real): real {
    if value < lo then lo else if value > hi then hi else value
  }

  /** `ClampAngle`: wrap by at most one turn, then clamp. The result lies
      in [lo, hi], and a wrapped angle already there is kept. */
  function ClampAngle(angle: real, lo: real, hi: real): (r: real)
    ensures lo <= hi ==> lo <= r <= hi
    ensures lo <= WrapOnce(angle) <= hi ==> r == WrapOnce(angle)
  {
    Clamp(WrapOnce(angle), lo, hi)
  }

  /** For bounds within one turn, clamping a clamped angle changes nothing. */
  lemma ClampAngleIdempotent(angle: real, lo: real, hi: real)
    requires -FULL_TURN <= lo <= hi <= FULL_TURN
    ensures ClampAngle(ClampAngle(angle, lo, hi), lo, hi) == ClampAngle(angle, lo, hi)
  {
  }
}
