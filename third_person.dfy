/** The third-person controller as an object: the per-tick fields that the
    jump-and-gravity step, the improved grounded check and the move step
    update in place, in the order `Update` runs them. Each method is proved
    to leave the fields as the step functions of the `Vertical` and
    `Grounding` modules say. */
module ThirdPerson {
  import opened Wrappers
  import opened Vectors
  import opened Grounding
  import opened Vertical

  /** A snapshot of the controller's per-tick fields. */
  datatype Motion = Motion(ground: GroundState, prevAppliedSlopeVelocity: Vec3, vertical: VerticalState)

  /** What the engine supplies to one `Update`: the frame time, the
      character controller's velocity, the results of the ground and roof
      casts, and the direction and speed `Move` has worked out. */
  datatype TickInput = TickInput(dt: real, velocity: Vec3, queries: GroundQueries, roofHit: bool,
                                 targetDirection: Vec3, speed: real)

  /** The jump-and-gravity step on a snapshot. */
  function JumpTick(m: Motion, cfg: JumpConfig, roofHit: bool, dt: real): Motion
    requires CanLaunch(cfg)
  {
    m.(vertical := Vertical.JumpAndGravity(m.vertical, cfg, m.ground.grounded, m.ground.normal, roofHit, dt))
  }

  /** The improved grounded check on a snapshot. */
  function GroundTick(m: Motion, cfg: GroundConfig, gravity: real, velocity: Vec3, q: GroundQueries, dt: real): Motion {
    m.(ground := GroundedCheck(m.ground, cfg, m.vertical.velocity, velocity, q, dt, gravity))
  }

  /** The slope part of the move step on a snapshot: it records the slope
      velocity it applies. */
  function MoveTick(m: Motion, targetDirection: Vec3, speed: real): Motion {
    m.(prevAppliedSlopeVelocity := SlopeVelocityToUse(m.ground.slopeVelocity, targetDirection, speed))
  }

  /** One `Update`: jump and gravity, then the grounded check, then the move. */
  function Tick(m: Motion, jcfg: JumpConfig, gcfg: GroundConfig, input: TickInput): Motion
    requires CanLaunch(jcfg)
  {
    var afterJump := JumpTick(m, jcfg, input.roofHit, input.dt);
    var afterGround := GroundTick(afterJump, gcfg, jcfg.gravity, input.velocity, input.queries, input.dt);
    MoveTick(afterGround, input.targetDirection, input.speed)
  }

  /** The displacement handed to the character controller: the player's
      motion, the vertical velocity and the applied slope velocity, each
      over the frame time. */
  function Displacement(targetDirection: Vec3, speed: real, verticalVelocity: real, slopeVelocity: Vec3, dt: real): Vec3 {
    Add(Add(Scale(PlayerMotion(targetDirection, speed), dt), Scale(Vec3(0.0, verticalVelocity, 0.0), dt)),
        Scale(slopeVelocity, dt))
  }

  class ThirdPersonController {
    /** `Gravity`, `JumpHeight`, `JumpTimeout` and `FallTimeout`. */
    const jumpConfig: JumpConfig
    /** The controller's slope limit and the abyss-cast radius multiplier. */
    const groundConfig: GroundConfig

    /** `Grounded` */
    var grounded: bool
    /** `m_slopeVelocity` */
    var slopeVelocity: Vec3
    /** `m_prevAppliedSlopeVelocity` */
    var prevAppliedSlopeVelocity: Vec3
    /** `m_groundedNormal` */
    var groundedNormal: Vec3
    /** `m_currVelDir` */
    var velocityDirection: Vec3
    /** `_verticalVelocity` */
    var verticalVelocity: real
    /** `_jumpTimeoutDelta` */
    var jumpTimeoutDelta: real
    /** `_fallTimeoutDelta` */
    var fallTimeoutDelta: real
    /** The jump flag of the input component, which the input system sets
        and the airborne step clears. */
    var jump: bool

    function State(): Motion
      reads this
    {
      Motion(GroundState(grounded, groundedNormal, slopeVelocity, velocityDirection), prevAppliedSlopeVelocity,
             VerticalState(verticalVelocity, jumpTimeoutDelta, fallTimeoutDelta, jump))
    }

    /** A new controller after `Start`: grounded, at rest, with both
        timeouts set to their configured lengths. */
    constructor (jumpConfig: JumpConfig, groundConfig: GroundConfig)
      requires CanLaunch(jumpConfig)
      ensures this.jumpConfig == jumpConfig && this.groundConfig == groundConfig
      ensures State() == Motion(GroundState(true, ZERO, ZERO, ZERO), ZERO,
                                VerticalState(0.0, jumpConfig.jumpTimeout, jumpConfig.fallTimeout, false))
    {
      this.jumpConfig := jumpConfig;
      this.groundConfig := groundConfig;
      grounded := true;
      slopeVelocity := ZERO;
      prevAppliedSlopeVelocity := ZERO;
      groundedNormal := ZERO;
      velocityDirection := ZERO;
      verticalVelocity := 0.0;
      jumpTimeoutDelta := jumpConfig.jumpTimeout;
      fallTimeoutDelta := jumpConfig.fallTimeout;
      jump := false;
    }

    /** The input system reporting the jump button. */
    method JumpInput(pressed: bool)
      modifies this
      ensures State() == old(State()).(vertical := old(State()).vertical.(jump := pressed))
    {
      jump := pressed;
    }

    /** `JumpAndGravity`: the grounded or the airborne part, then gravity
        and the roof check. */
    method JumpAndGravity(roofHit: bool, dt: real)
      requires CanLaunch(jumpConfig)
      modifies this
      ensures State() == JumpTick(old(State()), jumpConfig, roofHit, dt)
    {
      if grounded {
        GroundedPart(dt);
      } else {
        AirbornePart(dt);
      }
      GravityAndRoof(roofHit, dt);
    }

    /** The grounded part: reset the fall timeout, land, launch when the
        jump is pressed and the cooldown is over, and count the cooldown
        down. */
    method GroundedPart(dt: real)
      requires CanLaunch(jumpConfig)
      modifies this
      ensures State() == old(State()).(vertical := GroundedPhase(old(State()).vertical, jumpConfig, old(State()).ground.normal, dt))
    {
      fallTimeoutDelta := jumpConfig.fallTimeout;
      if verticalVelocity < 0.0 {
        verticalVelocity := LerpReal(jumpConfig.gravity, LANDED_VELOCITY, Dot(UP, groundedNormal));
      }
      if jump && jumpTimeoutDelta <= 0.0 {
        jumpTimeoutDelta := jumpConfig.jumpTimeout;
        verticalVelocity := JumpVelocity(jumpConfig);
      }
      if jumpTimeoutDelta >= 0.0 {
        jumpTimeoutDelta := jumpTimeoutDelta - dt;
      }
    }

    /** The airborne part: count the fall timeout down and drop the jump
        input. */
    method AirbornePart(dt: real)
      modifies this
      ensures State() == old(State()).(vertical := AirbornePhase(old(State()).vertical, dt))
    {
      if fallTimeoutDelta >= 0.0 {
        fallTimeoutDelta := fallTimeoutDelta - dt;
      }
      jump := false;
    }

    /** Gravity above the terminal velocity, then the roof check while
        rising. */
    method GravityAndRoof(roofHit: bool, dt: real)
      modifies this
      ensures var v := old(State()).vertical;
              State() == old(State()).(vertical := RoofDamping(v.(velocity := ApplyGravity(v.velocity, jumpConfig.gravity, dt)), roofHit, dt))
    {
      if verticalVelocity > TERMINAL_VELOCITY {
        verticalVelocity := verticalVelocity + Mul(jumpConfig.gravity, dt);
      }
      if verticalVelocity > 0.0 && roofHit {
        jumpTimeoutDelta := 0.0;
        verticalVelocity := LerpReal(verticalVelocity, 0.0, dt * ROOF_DAMPING_RATE);
      }
    }

    /** The push down a steep or unsupported surface, and the grounded flag
        that goes with it, set from the abyss guard. */
    method AbyssCheck(abyssHit: bool, n: Vec3) returns (target: Vec3)
      modifies this
      ensures var o := AbyssGuard(groundConfig, abyssHit, n);
              grounded == o.grounded && target == o.target
      ensures State() == old(State()).(ground := old(State()).ground.(grounded := grounded))
    {
      target := ZERO;
      if groundConfig.abyssRadiusMultiplier > ABYSS_CHECK_DISABLED_ABOVE {
        grounded := true;
      } else if abyssHit {
        grounded := true;
      } else {
        grounded := false;
        target := DownSlope(n);
      }
    }

    /** The decision tree of the grounded check, once the character is not
        rising: sets the grounded flag and the normal, and returns the slope
        push. */
    method DecideGround(q: GroundQueries) returns (target: Vec3)
      requires groundedNormal == UP
      modifies this
      ensures var o := GroundDecision(groundConfig, q);
              State() == old(State()).(ground := old(State()).ground.(grounded := o.grounded, normal := o.normal)) &&
              target == o.target
    {
      target := ZERO;
      match q.groundCast {
        case None =>
          grounded := false;
        case Some(hit) =>
          if q.penetrationHit {
            grounded := true;
          } else {
            groundedNormal := hit.normal;
            if hit.angle > groundConfig.slopeLimit {
              target := SteepCheck(q.stepRay, q.abyssHit, hit.normal);
            } else {
              target := AbyssCheck(q.abyssHit, hit.normal);
            }
          }
      }
    }

    /** The steep branch of the grounded check, on a surface with normal `n`:
        the step ray decides between sliding and the abyss guard. */
    method SteepCheck(stepRay: Option<Hit>, abyssHit: bool, n: Vec3) returns (target: Vec3)
      modifies this
      ensures var o := SteepGround(groundConfig, stepRay, abyssHit, n);
              grounded == o.grounded && target == o.target
      ensures State() == old(State()).(ground := old(State()).ground.(grounded := grounded))
    {
      match stepRay {
        case None =>
          grounded := false;
          target := DownSlope(n);
        case Some(step) =>
          if step.angle > groundConfig.slopeLimit {
            grounded := false;
            target := DownSlope(n);
          } else {
            target := AbyssCheck(abyssHit, n);
          }
      }
    }

    /** `improvedGroundedCheckByiStep`. */
    method ImprovedGroundedCheck(velocity: Vec3, q: GroundQueries, dt: real)
      modifies this
      ensures State() == GroundTick(old(State()), groundConfig, jumpConfig.gravity, velocity, q, dt)
    {
      var horizontal := Vec3(velocity.x, 0.0, velocity.z);
      if SqrMagnitude(horizontal) > DIRECTION_MIN_SQR_MAGNITUDE {
        velocityDirection := Normalize(horizontal);
      }
      groundedNormal := UP;
      if verticalVelocity > 0.0 {
        grounded := false;
        slopeVelocity := Lerp(slopeVelocity, ZERO, dt * SLOPE_DECAY_RATE);
        return;
      }
      var target := DecideGround(q);
      if SqrMagnitude(target) > PUSH_MIN_SQR_MAGNITUDE {
        slopeVelocity := Add(slopeVelocity, Scale(Scale(target, dt), Abs(jumpConfig.gravity)));
      } else {
        slopeVelocity := Lerp(slopeVelocity, ZERO, dt * SLOPE_DECAY_RATE);
      }
    }

    /** The slope part of `Move`: the slope velocity to apply is worked out,
        added to the player's and the vertical motion, and recorded. */
    method Move(targetDirection: Vec3, speed: real, dt: real) returns (displacement: Vec3)
      modifies this
      ensures State() == MoveTick(old(State()), targetDirection, speed)
      ensures displacement == Displacement(targetDirection, speed, verticalVelocity, prevAppliedSlopeVelocity, dt)
      ensures targetDirection.y == 0.0 ==>
                displacement.y == Mul(verticalVelocity, dt) + Mul(prevAppliedSlopeVelocity.y, dt)
    {
      var slopeVelocityToUse := SlopeVelocityToUse(slopeVelocity, targetDirection, speed);
      displacement := Add(Add(Scale(Scale(Normalize(targetDirection), speed), dt),
                              Scale(Vec3(0.0, verticalVelocity, 0.0), dt)),
                          Scale(slopeVelocityToUse, dt));
      prevAppliedSlopeVelocity := slopeVelocityToUse;
      if targetDirection.y == 0.0 {
        NormalizeKeepsLevel(targetDirection);
        MulZeroLeft(speed);
        MulZeroLeft(dt);
      }
    }

    /** `Update` with the improved grounded check switched on. */
    method Update(input: TickInput) returns (displacement: Vec3)
      requires CanLaunch(jumpConfig)
      modifies this
      ensures State() == Tick(old(State()), jumpConfig, groundConfig, input)
      ensures displacement
              == Displacement(input.targetDirection, input.speed, verticalVelocity, prevAppliedSlopeVelocity, input.dt)
    {
      JumpAndGravity(input.roofHit, input.dt);
      ImprovedGroundedCheck(input.velocity, input.queries, input.dt);
      displacement := Move(input.targetDirection, input.speed, input.dt);
    }
  }

  // ---------------------------------------------------------------------
  // Properties across a whole tick
  // ---------------------------------------------------------------------

  /** A jump that launches from the ground and outweighs one tick of gravity
      leaves the ground in the same tick: the grounded check sees a rising
      character, clears the flag, points the normal up, does not let the
      slope velocity grow, and does not depend on any ground query. */
  lemma JumpLeavesGround(m: Motion, jcfg: JumpConfig, gcfg: GroundConfig, input: TickInput, other: GroundQueries)
    requires CanLaunch(jcfg) && m.ground.grounded && Launches(m.vertical) && !input.roofHit
    requires 0.0 < JumpVelocity(jcfg) + Mul(jcfg.gravity, input.dt)
    ensures !Tick(m, jcfg, gcfg, input).ground.grounded
    ensures Tick(m, jcfg, gcfg, input).ground.normal == UP
    ensures SqrMagnitude(Tick(m, jcfg, gcfg, input).ground.slopeVelocity) <= SqrMagnitude(m.ground.slopeVelocity)
    ensures Tick(m, jcfg, gcfg, input) == Tick(m, jcfg, gcfg, input.(queries := other))
  {
    var afterJump := JumpTick(m, jcfg, input.roofHit, input.dt);
    LaunchRises(m.vertical, jcfg, m.ground.normal, input.dt);
    RisingSkipsQueries(afterJump.ground, gcfg, afterJump.vertical.velocity, input.velocity, input.queries, other,
                       input.dt, jcfg.gravity);
  }

  /** A tick that starts in the air drops the jump input, whatever the
      queries report, so a jump pressed in the air never fires on landing. */
  lemma AirborneTickDropsJump(m: Motion, jcfg: JumpConfig, gcfg: GroundConfig, input: TickInput)
    requires CanLaunch(jcfg) && !m.ground.grounded
    ensures !Tick(m, jcfg, gcfg, input).vertical.jump
    ensures !Launches(Tick(m, jcfg, gcfg, input).vertical)
  {
    AirborneDropsJump(m.vertical, jcfg, m.ground.normal, input.roofHit, input.dt);
  }

  /** Only the grounded check changes the grounded flag and the normal, and
      only the move changes the recorded applied slope velocity: the tick's
      vertical state is the jump step's, computed from the flag and normal
      of the previous tick. */
  lemma TickUsesPreviousGrounding(m: Motion, jcfg: JumpConfig, gcfg: GroundConfig, input: TickInput)
    requires CanLaunch(jcfg)
    ensures Tick(m, jcfg, gcfg, input).vertical
            == Vertical.JumpAndGravity(m.vertical, jcfg, m.ground.grounded, m.ground.normal, input.roofHit, input.dt)
    ensures Tick(m, jcfg, gcfg, input).prevAppliedSlopeVelocity
            == SlopeVelocityToUse(Tick(m, jcfg, gcfg, input).ground.slopeVelocity, input.targetDirection, input.speed)
  {
  }
}
