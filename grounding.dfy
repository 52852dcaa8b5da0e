/** The grounded check of the third-person controller with its slope
    handling: the decision tree over the physics queries, the slope velocity it
    accumulates or lets decay, and the share of that velocity a move applies.
    Physics queries are inputs; each is read only where the tree reaches it. */
module Grounding {
  import opened Wrappers
  import opened Vectors

  /** A query hit: the surface normal, and `Vector3.Angle(normal, up)` in
      degrees, which is an input since the model has no arc cosine. */
  datatype Hit = Hit(normal: Vec3, angle: real)

  /** What the queries of one grounded check report. */
  datatype GroundQueries = GroundQueries(
    /** the downward sphere cast under the feet */
    groundCast: Option<Hit>,
    /** the capsule cast from the body towards the ground hit point */
    penetrationHit: bool,
    /** the step raycast ahead of the feet */
    stepRay: Option<Hit>,
    /** the small abyss sphere cast straight down */
    abyssHit: bool)

  /** The serialized settings the check reads: the character controller's
      slope limit in degrees and the abyss-cast radius multiplier. */
  datatype GroundConfig = GroundConfig(slopeLimit: real, abyssRadiusMultiplier: real)

  /** The abyss cast is skipped above this radius multiplier. */
  const ABYSS_CHECK_DISABLED_ABOVE: real := 0.999

  /** A push is applied when it is longer than 0.001; this is that squared. */
  const PUSH_MIN_SQR_MAGNITUDE: real := 0.000001

  /** The slope velocity is used when it is longer than 0.001; squared. */
  const SLOPE_MIN_SQR_MAGNITUDE: real := 0.000001

  /** The moving speed from which the slope velocity is cancelled. */
  const MOVING_MIN_SPEED: real := 0.001

  /** The horizontal velocity sets the travel direction when it is longer
      than 0.01; squared. */
  const DIRECTION_MIN_SQR_MAGNITUDE: real := 0.0001

  /** Rate of the Lerp that lets the slope velocity die away. */
  const SLOPE_DECAY_RATE: real := 20.0

  /** The outcome of the decision tree: the grounded flag, the ground normal
      and the target slope push. */
  datatype GroundOutcome = GroundOutcome(grounded: bool, normal: Vec3, target: Vec3)

  /** The push down a surface with normal `n`: the normal crossed with the
      horizontal direction along the slope, normalized. */
  function DownSlope(n: Vec3): Vec3 {
    var rightVec := Normalize(Cross(n, UP));
    Normalize(Cross(n, rightVec))
  }

  /** The abyss guard: grounded when it is disabled or when the small cast
      below the feet hits; otherwise the character slides down the surface. */
  function AbyssGuard(cfg: GroundConfig, abyssHit: bool, n: Vec3): GroundOutcome {
    if cfg.abyssRadiusMultiplier > ABYSS_CHECK_DISABLED_ABOVE then GroundOutcome(true, n, ZERO)
    else if abyssHit then GroundOutcome(true, n, ZERO)
    else GroundOutcome(false, n, DownSlope(n))
  }

  /** The decision tree of the grounded check once the character is not
      rising. */
  function GroundDecision(cfg: GroundConfig, q: GroundQueries): GroundOutcome {
    match q.groundCast
    case None => GroundOutcome(false, UP, ZERO)
    case Some(hit) =>
      if q.penetrationHit then GroundOutcome(true, UP, ZERO)
      else if hit.angle > cfg.slopeLimit then SteepGround(cfg, q.stepRay, q.abyssHit, hit.normal)
      else AbyssGuard(cfg, q.abyssHit, hit.normal)
  }

  /** On a surface steeper than the limit, with normal `n`: a missed step
      ray or a steep step ahead slides the character down the surface; a
      walkable step ahead passes on to the abyss guard. */
  function SteepGround(cfg: GroundConfig, stepRay: Option<Hit>, abyssHit: bool, n: Vec3): GroundOutcome {
    match stepRay
    case None => GroundOutcome(false, n, DownSlope(n))
    case Some(step) =>
      if step.angle > cfg.slopeLimit then GroundOutcome(false, n, DownSlope(n))
      else AbyssGuard(cfg, abyssHit, n)
  }

  /** The travel direction: the normalized horizontal velocity when it is
      longer than 0.01, else the previous direction. */
  function NextVelocityDirection(current: Vec3, velocity: Vec3): Vec3 {
    var horizontal := Vec3(velocity.x, 0.0, velocity.z);
    if SqrMagnitude(horizontal) > DIRECTION_MIN_SQR_MAGNITUDE then Normalize(horizontal) else current
  }

  /** `Mathf.Abs`. */
  function Abs(x: real): real {
    if x < 0.0 then -x else x
  }

  /** The slope velocity after the check: a push longer than 0.001 is added
      as `target * dt * |gravity|`; otherwise the velocity is Lerped toward
      zero. */
  function NextSlopeVelocity(slope: Vec3, target: Vec3, dt: real, gravity: real): Vec3 {
    if SqrMagnitude(target) > PUSH_MIN_SQR_MAGNITUDE then Add(slope, Scale(Scale(target, dt), Abs(gravity)))
    else Lerp(slope, ZERO, dt * SLOPE_DECAY_RATE)
  }

  /** The part of the controller's state the grounded check writes. */
  datatype GroundState = GroundState(grounded: bool, normal: Vec3, slopeVelocity: Vec3, velocityDirection: Vec3)

  /** One grounded check. A rising character is not grounded, its slope
      velocity decays, and no query is made. */
  function GroundedCheck(st: GroundState, cfg: GroundConfig, verticalVelocity: real, velocity: Vec3,
                         q: GroundQueries, dt: real, gravity: real): GroundState
  {
    var direction := NextVelocityDirection(st.velocityDirection, velocity);
    if verticalVelocity > 0.0 then
      GroundState(false, UP, Lerp(st.slopeVelocity, ZERO, dt * SLOPE_DECAY_RATE), direction)
    else
      var o := GroundDecision(cfg, q);
      GroundState(o.grounded, o.normal, NextSlopeVelocity(st.slopeVelocity, o.target, dt, gravity), direction)
  }

  // ---------------------------------------------------------------------
  // Properties of the decision tree
  // ---------------------------------------------------------------------

  /** While rising, the character is not grounded, the normal is up, the
      slope velocity does not grow, and the queries are not consulted. */
  lemma RisingSkipsQueries(st: GroundState, cfg: GroundConfig, verticalVelocity: real, velocity: Vec3,
                           q: GroundQueries, other: GroundQueries, dt: real, gravity: real)
    requires verticalVelocity > 0.0
    ensures !GroundedCheck(st, cfg, verticalVelocity, velocity, q, dt, gravity).grounded
    ensures GroundedCheck(st, cfg, verticalVelocity, velocity, q, dt, gravity).normal == UP
    ensures SqrMagnitude(GroundedCheck(st, cfg, verticalVelocity, velocity, q, dt, gravity).slopeVelocity)
            <= SqrMagnitude(st.slopeVelocity)
    ensures GroundedCheck(st, cfg, verticalVelocity, velocity, q, dt, gravity)
            == GroundedCheck(st, cfg, verticalVelocity, velocity, other, dt, gravity)
  {
    LerpToZero(st.slopeVelocity, dt * SLOPE_DECAY_RATE);
  }

  /** A sphere cast that misses means not grounded, no push, and no further
      query. */
  lemma GroundCastMiss(cfg: GroundConfig, q: GroundQueries, penetrationHit: bool, stepRay: Option<Hit>, abyssHit: bool)
    requires q.groundCast.None?
    ensures GroundDecision(cfg, q) == GroundOutcome(false, UP, ZERO)
    ensures GroundDecision(cfg, q) ==
            GroundDecision(cfg, q.(penetrationHit := penetrationHit, stepRay := stepRay, abyssHit := abyssHit))
  {
  }

  /** A penetration hit means grounded on an up normal with no push, and the
      step and abyss queries are not consulted. */
  lemma PenetrationGrounds(cfg: GroundConfig, q: GroundQueries, stepRay: Option<Hit>, abyssHit: bool)
    requires q.groundCast.Some? && q.penetrationHit
    ensures GroundDecision(cfg, q) == GroundOutcome(true, UP, ZERO)
    ensures GroundDecision(cfg, q) == GroundDecision(cfg, q.(stepRay := stepRay, abyssHit := abyssHit))
  {
  }

  /** Without a penetration hit the normal is the ground hit's normal,
      whether or not the character ends up grounded. */
  lemma NormalFromGroundHit(cfg: GroundConfig, q: GroundQueries)
    requires q.groundCast.Some? && !q.penetrationHit
    ensures GroundDecision(cfg, q).normal == q.groundCast.value.normal
  {
  }

  /** The slope limit itself is walkable: up to and including it the step ray
      is not consulted and the abyss guard decides; above 0.999 the guard is
      off and the character is grounded without a further query. */
  lemma WalkableBoundary(cfg: GroundConfig, q: GroundQueries, stepRay: Option<Hit>, abyssHit: bool)
    requires q.groundCast.Some? && !q.penetrationHit
    requires q.groundCast.value.angle <= cfg.slopeLimit
    ensures GroundDecision(cfg, q) == AbyssGuard(cfg, q.abyssHit, q.groundCast.value.normal)
    ensures GroundDecision(cfg, q) == GroundDecision(cfg, q.(stepRay := stepRay))
    ensures cfg.abyssRadiusMultiplier > ABYSS_CHECK_DISABLED_ABOVE ==>
      GroundDecision(cfg, q).grounded && GroundDecision(cfg, q) == GroundDecision(cfg, q.(abyssHit := abyssHit))
  {
  }

  /** On a slope steeper than the limit, with no walkable step ahead, the
      character slides without an abyss query. */
  lemma SteepSlides(cfg: GroundConfig, q: GroundQueries, abyssHit: bool)
    requires q.groundCast.Some? && !q.penetrationHit
    requires q.groundCast.value.angle > cfg.slopeLimit
    requires q.stepRay.None? || q.stepRay.value.angle > cfg.slopeLimit
    ensures !GroundDecision(cfg, q).grounded
    ensures GroundDecision(cfg, q).target == DownSlope(q.groundCast.value.normal)
    ensures GroundDecision(cfg, q) == GroundDecision(cfg, q.(abyssHit := abyssHit))
  {
  }

  /** A push comes only with not grounded, grounded only with no push, and
      the push is never longer than one. */
  lemma PushOnlyWhenUngrounded(cfg: GroundConfig, q: GroundQueries)
    ensures GroundDecision(cfg, q).target != ZERO ==> !GroundDecision(cfg, q).grounded
    ensures GroundDecision(cfg, q).grounded ==> GroundDecision(cfg, q).target == ZERO
    ensures SqrMagnitude(GroundDecision(cfg, q).target) <= 1.0
  {
    var o := GroundDecision(cfg, q);
    if o.target != ZERO {
      DownSlopeAtMostUnit(o.normal);
    } else {
      SqrMagnitudeZero();
    }
  }

  /** The slide direction is never longer than one. */
  lemma DownSlopeAtMostUnit(n: Vec3)
    ensures SqrMagnitude(DownSlope(n)) <= 1.0
  {
    NormalizeAtMostUnit(Cross(n, Normalize(Cross(n, UP))));
  }

  /** A normal whose horizontal part is longer than this (squared: twice
      the 1e-10 below which `normalized` gives zero) belongs to a tilted
      surface. */
  const TILTED_MIN_SQR_LENGTH: real := 0.0000000002

  /** The horizontal direction along the slope, before normalizing. */
  lemma CrossUp(n: Vec3)
    ensures Cross(n, UP) == Vec3(-n.z, 0.0, n.x)
  {
    MulZeroRight(n.y);
    MulOneRight(n.z);
    MulZeroRight(n.z);
    MulZeroRight(n.x);
    MulOneRight(n.x);
  }

  /** The push before its final normalizing, for a horizontal direction
      normalized by `k`: `k` times (n.x n.y, -(n.x² + n.z²), n.y n.z). */
  function Slant(n: Vec3, k: real): Vec3 {
    Vec3(Mul(k, Mul(n.x, n.y)), -Mul(k, Square(n.x) + Square(n.z)), Mul(k, Mul(n.y, n.z)))
  }

  lemma DownSlopeCross(n: Vec3)
    ensures Cross(n, Normalize(Cross(n, UP))) == Slant(n, InverseLength(Cross(n, UP)))
  {
    CrossUp(n);
    HorizontalCross(n.x, n.y, n.z, InverseLength(Cross(n, UP)));
  }

  /** The components of n × (-n.z k, 0, n.x k). */
  lemma HorizontalCross(x: real, y: real, z: real, k: real)
    ensures Mul(y, Mul(x, k)) - Mul(z, Mul(0.0, k)) == Mul(k, Mul(x, y))
    ensures Mul(z, Mul(-z, k)) - Mul(x, Mul(x, k)) == -Mul(k, Square(x) + Square(z))
    ensures Mul(x, Mul(0.0, k)) - Mul(y, Mul(-z, k)) == Mul(k, Mul(y, z))
  {
    var a, b, c := Mul(x, k), Mul(0.0, k), Mul(-z, k);
    var p, q, h := Mul(x, y), Mul(y, z), Square(x) + Square(z);
    MulDef(x, k);
    MulDef(0.0, k);
    MulDef(-z, k);
    MulDef(x, y);
    MulDef(y, z);
    MulDef(x, x);
    MulDef(z, z);
    MulDef(y, a);
    MulDef(z, b);
    MulDef(z, c);
    MulDef(x, a);
    MulDef(x, b);
    MulDef(y, c);
    MulDef(k, p);
    MulDef(k, q);
    MulDef(k, h);
    HorizontalCrossReal(x, y, z, k, a, b, c, p, q, h);
  }

  lemma HorizontalCrossReal(x: real, y: real, z: real, k: real, a: real, b: real, c: real, p: real, q: real, h: real)
    requires a == x * k && b == 0.0 && c == -z * k
    requires p == x * y && q == y * z && h == x * x + z * z
    ensures y * a - z * b == k * p
    ensures z * c - x * a == -(k * h)
    ensures x * b - y * c == k * q
  {
  }

  /** The push lies in the surface and never points up; on a tilted surface
      it points strictly down and is of unit length up to the square-root
      tolerance, so it is far above the 0.001 a push must exceed to be
      added to the slope velocity. */
  lemma DownSlopeDownhill(n: Vec3)
    ensures Dot(DownSlope(n), n) == 0.0
    ensures DownSlope(n).y <= 0.0
    ensures Square(n.x) + Square(n.z) > TILTED_MIN_SQR_LENGTH ==>
              DownSlope(n).y < 0.0 && 0.97 <= SqrMagnitude(DownSlope(n)) && SqrMagnitude(DownSlope(n)) > PUSH_MIN_SQR_MAGNITUDE
  {
    var w := Slant(n, InverseLength(Cross(n, UP)));
    DownSlopeCross(n);
    DownSlopeLevel(n.x, n.y, n.z, InverseLength(Cross(n, UP)), InverseLength(w));
    if Square(n.x) + Square(n.z) > TILTED_MIN_SQR_LENGTH {
      TiltedPush(n);
    }
  }

  lemma TiltedPush(n: Vec3)
    requires Square(n.x) + Square(n.z) > TILTED_MIN_SQR_LENGTH
    ensures DownSlope(n).y < 0.0 && 0.97 <= SqrMagnitude(DownSlope(n))
  {
    var c := Cross(n, UP);
    var k := InverseLength(c);
    var w := Slant(n, k);
    DownSlopeCross(n);
    HorizontalLength(n);
    NormalizeNearUnit(c);
    ScaleSqrMagnitude(c, k);
    TiltedLength(n.x, n.y, n.z, k);
    NormalizeNearUnit(w);
    DownSlopeTilted(n.x, n.z, k, InverseLength(w));
  }

  /** Scaling the slant by `k2` gives a vector orthogonal to the normal
      whose vertical component is not positive. */
  lemma DownSlopeLevel(x: real, y: real, z: real, k: real, k2: real)
    requires 0.0 <= k && 0.0 <= k2
    ensures Dot(Scale(Slant(Vec3(x, y, z), k), k2), Vec3(x, y, z)) == 0.0
    ensures Scale(Slant(Vec3(x, y, z), k), k2).y <= 0.0
  {
    var p, q, h := Mul(x, y), Mul(y, z), Square(x) + Square(z);
    var a, b, c := Mul(k, p), Mul(k, h), Mul(k, q);
    var d, e, f := Mul(a, k2), Mul(-b, k2), Mul(c, k2);
    MulDef(x, y);
    MulDef(y, z);
    MulDef(x, x);
    MulDef(z, z);
    MulDef(k, p);
    MulDef(k, h);
    MulDef(k, q);
    MulDef(a, k2);
    MulDef(-b, k2);
    MulDef(c, k2);
    MulDef(d, x);
    MulDef(e, y);
    MulDef(f, z);
    DotVanishes(x, y, z, k, k2, p, q, h, a, b, c, d, e, f);
  }

  lemma DotVanishes(x: real, y: real, z: real, k: real, k2: real, p: real, q: real, h: real,
                    a: real, b: real, c: real, d: real, e: real, f: real)
    requires 0.0 <= k && 0.0 <= k2
    requires p == x * y && q == y * z && h == x * x + z * z
    requires a == k * p && b == k * h && c == k * q
    requires d == a * k2 && e == -b * k2 && f == c * k2
    ensures d * x + e * y + f * z == 0.0
    ensures e <= 0.0
  {
    assert d == (k * p) * k2;
    assert e == -(k * h) * k2;
    assert f == (k * q) * k2;
    DotVanishesExpanded(x, y, z, k, k2, h);
    NotUp(k, h, k2);
  }

  lemma DotVanishesExpanded(x: real, y: real, z: real, k: real, k2: real, h: real)
    requires h == x * x + z * z
    ensures (k * (x * y) * k2) * x + (-(k * h) * k2) * y + (k * (y * z) * k2) * z == 0.0
    ensures 0.0 <= h
  {
    var c := k * k2 * y;
    assert (k * (x * y) * k2) * x == c * (x * x);
    assert (k * (y * z) * k2) * z == c * (z * z);
    assert (-(k * h) * k2) * y == -(c * h);
  }

  lemma NotUp(k: real, h: real, k2: real)
    requires 0.0 <= k && 0.0 <= h && 0.0 <= k2
    ensures -(k * h) * k2 <= 0.0
  {
    assert 0.0 <= k * h;
    assert 0.0 <= (k * h) * k2;
  }

  /** The squared length of the horizontal direction (-n.z, 0, n.x). */
  lemma HorizontalLength(n: Vec3)
    ensures SqrMagnitude(Cross(n, UP)) == Square(n.x) + Square(n.z)
  {
    CrossUp(n);
    MulNegate(n.z, -n.z);
    MulNegate(n.z, n.z);
    MulZeroLeft(0.0);
  }

  /** On a tilted surface the final normalizing scales by a positive
      factor, so the push points strictly down. */
  lemma DownSlopeTilted(x: real, z: real, k: real, k2: real)
    requires 0.0 < k && 0.0 < k2 && Square(x) + Square(z) > 0.0
    ensures Mul(-Mul(k, Square(x) + Square(z)), k2) < 0.0
  {
    var h := Square(x) + Square(z);
    MulDef(k, h);
    MulDef(-(k * h), k2);
    assert 0.0 < k * h;
    assert 0.0 < (k * h) * k2;
  }

  /** |slant|² = k² h (y² + h) is at least 0.97 h, above 1e-10 once h
      exceeds twice that. */
  lemma TiltedLength(x: real, y: real, z: real, k: real)
    requires Square(x) + Square(z) > TILTED_MIN_SQR_LENGTH
    requires 0.97 <= Mul(Square(k), Square(x) + Square(z))
    ensures SqrMagnitude(Slant(Vec3(x, y, z), k)) > NORMALIZE_MIN_SQR_LENGTH
  {
    var p, q, h := Mul(x, y), Mul(y, z), Square(x) + Square(z);
    var a, b, c := Mul(k, p), Mul(k, h), Mul(k, q);
    MulDef(x, y);
    MulDef(y, z);
    MulDef(x, x);
    MulDef(z, z);
    MulDef(k, k);
    MulDef(Square(k), h);
    MulDef(k, p);
    MulDef(k, h);
    MulDef(k, q);
    MulDef(a, a);
    MulDef(-b, -b);
    MulDef(c, c);
    TiltedLengthReal(x, y, z, k, p, q, h, a, b, c);
  }

  lemma TiltedLengthReal(x: real, y: real, z: real, k: real, p: real, q: real, h: real,
                         a: real, b: real, c: real)
    requires p == x * y && q == y * z && h == x * x + z * z && h > TILTED_MIN_SQR_LENGTH
    requires 0.97 <= (k * k) * h
    requires a == k * p && b == k * h && c == k * q
    ensures a * a + (-b) * (-b) + c * c > NORMALIZE_MIN_SQR_LENGTH
  {
    assert a == k * (x * y);
    assert c == k * (y * z);
    TiltedLengthExpanded(x, y, z, k, h);
  }

  lemma TiltedLengthExpanded(x: real, y: real, z: real, k: real, h: real)
    requires h == x * x + z * z && h > TILTED_MIN_SQR_LENGTH
    requires 0.97 <= k * k * h
    ensures (k * (x * y)) * (k * (x * y)) + (-(k * h)) * (-(k * h)) + (k * (y * z)) * (k * (y * z))
            > NORMALIZE_MIN_SQR_LENGTH
  {
    var s := k * k;
    assert (k * (x * y)) * (k * (x * y)) == s * (y * y) * (x * x);
    assert (k * (y * z)) * (k * (y * z)) == s * (y * y) * (z * z);
    assert (-(k * h)) * (-(k * h)) == (s * h) * h;
    assert s * (y * y) * (x * x) + s * (y * y) * (z * z) == (s * (y * y)) * h;
    assert 0.0 <= s * (y * y) by { assert 0.0 <= s; assert 0.0 <= y * y; }
    assert 0.0 <= (s * (y * y)) * h;
    ProductAtLeast(0.97, s * h, h);
  }

  lemma ProductAtLeast(a: real, b: real, h: real)
    requires a <= b && 0.0 <= h
    ensures a * h <= b * h
  {
    assert 0.0 <= (b - a) * h;
  }

  // ---------------------------------------------------------------------
  // Slope velocity
  // ---------------------------------------------------------------------

  /** A push longer than 0.001 is added in full; otherwise the slope velocity
      never gets longer. With a push of at most unit length the velocity
      changes by at most `dt * |gravity|` per check. */
  lemma SlopeVelocityStep(slope: Vec3, target: Vec3, dt: real, gravity: real)
    requires 0.0 <= dt
    requires SqrMagnitude(target) <= 1.0
    ensures SqrMagnitude(target) > PUSH_MIN_SQR_MAGNITUDE ==>
      Sub(NextSlopeVelocity(slope, target, dt, gravity), slope) == Scale(Scale(target, dt), Abs(gravity))
    ensures SqrMagnitude(target) <= PUSH_MIN_SQR_MAGNITUDE ==>
      SqrMagnitude(NextSlopeVelocity(slope, target, dt, gravity)) <= SqrMagnitude(slope)
    ensures SqrMagnitude(target) > PUSH_MIN_SQR_MAGNITUDE ==>
      SqrMagnitude(Sub(NextSlopeVelocity(slope, target, dt, gravity), slope)) <= Square(Mul(dt, Abs(gravity)))
  {
    if SqrMagnitude(target) > PUSH_MIN_SQR_MAGNITUDE {
      var push := Scale(Scale(target, dt), Abs(gravity));
      assert Sub(Add(slope, push), slope) == push;
      PushBound(target, dt, Abs(gravity));
    } else {
      LerpToZero(slope, dt * SLOPE_DECAY_RATE);
    }
  }

  lemma BoundProduct(s: real, a: real, b: real)
    requires 0.0 <= s <= 1.0 && 0.0 <= a && 0.0 <= b
    ensures Mul(b, Mul(a, s)) <= Mul(a, b)
  {
    MultiplyMonotone(s, 1.0, a);
    MulOneLeft(a);
    MulCommute(a, s);
    MultiplyMonotone(Mul(a, s), a, b);
    MulCommute(b, Mul(a, s));
  }

  /** Scaling a vector of at most unit length by `dt` and then by `g` gives a
      vector of at most length `dt * g`. */
  lemma PushBound(target: Vec3, dt: real, g: real)
    requires 0.0 <= dt && 0.0 <= g
    requires SqrMagnitude(target) <= 1.0
    ensures SqrMagnitude(Scale(Scale(target, dt), g)) <= Square(Mul(dt, g))
  {
    ScaleSqrMagnitude(target, dt);
    ScaleSqrMagnitude(Scale(target, dt), g);
    SquareNonNegative(dt);
    SquareNonNegative(g);
    BoundProduct(SqrMagnitude(target), Square(dt), Square(g));
    SquareOfProduct(dt, g);
  }

  // ---------------------------------------------------------------------
  // The slope velocity a move applies
  // ---------------------------------------------------------------------

  /** The slope velocity without its vertical part (`slopeVelPlanar`). */
  function PlanarSlope(slope: Vec3): Vec3 {
    Sub(slope, VerticalPart(slope))
  }

  /** The player's motion along the horizontal slide (`subtract`). */
  function MotionAlongSlide(slope: Vec3, targetDirection: Vec3, movingSpeed: real): Vec3 {
    Project(PlayerMotion(targetDirection, movingSpeed), Normalize(PlanarSlope(slope)))
  }

  /** The horizontal slide with the player's motion along it taken out
      (`nextSlopeVelPlanar`). */
  function ReducedPlanar(slope: Vec3, targetDirection: Vec3, movingSpeed: real): Vec3 {
    Sub(PlanarSlope(slope), MotionAlongSlide(slope, targetDirection, movingSpeed))
  }

  /** Whether the cancellation is made: both the slope velocity and the
      moving speed exceed 0.001. */
  predicate CancelsAgainstMotion(slope: Vec3, movingSpeed: real) {
    SqrMagnitude(slope) > SLOPE_MIN_SQR_MAGNITUDE && movingSpeed > MOVING_MIN_SPEED
  }

  /** Whether the reduced slide still points along the original one. */
  predicate StillAlongSlide(slope: Vec3, targetDirection: Vec3, movingSpeed: real) {
    Dot(Normalize(ReducedPlanar(slope, targetDirection, movingSpeed)), Normalize(PlanarSlope(slope))) > 0.0
  }

  /** The slope velocity `Move` applies: when both the slope velocity and the
      moving speed exceed 0.001, the player's motion along the horizontal
      slide is taken out of the slide; if what is left no longer points along
      the slide, nothing is applied, otherwise what is left plus the vertical
      part. Otherwise the slope velocity is applied as it is. */
  function SlopeVelocityToUse(slope: Vec3, targetDirection: Vec3, movingSpeed: real): Vec3 {
    if CancelsAgainstMotion(slope, movingSpeed) then
      if StillAlongSlide(slope, targetDirection, movingSpeed) then
        Add(ReducedPlanar(slope, targetDirection, movingSpeed), VerticalPart(slope))
      else ZERO
    else slope
  }

  /** Removing the projection on up leaves the horizontal components. */
  lemma PlanarSlopeLevel(slope: Vec3)
    ensures PlanarSlope(slope) == Vec3(slope.x, 0.0, slope.z)
  {
  }

  lemma NormalizeKeepsLevel(a: Vec3)
    requires a.y == 0.0
    ensures Normalize(a).y == 0.0
  {
    MulZeroLeft(InverseLength(a));
  }

  /** Projecting on a horizontal direction gives a horizontal vector. */
  lemma ProjectKeepsLevel(v: Vec3, n: Vec3)
    requires n.y == 0.0
    ensures Project(v, n).y == 0.0
  {
    if SqrMagnitude(n) > 0.0 {
      MulZeroLeft(Div(Dot(v, n), SqrMagnitude(n)));
    }
  }

  /** The reduced slide is horizontal. */
  lemma ReducedPlanarLevel(slope: Vec3, targetDirection: Vec3, movingSpeed: real)
    ensures ReducedPlanar(slope, targetDirection, movingSpeed).y == 0.0
  {
    var planar := PlanarSlope(slope);
    PlanarSlopeLevel(slope);
    NormalizeKeepsLevel(planar);
    var motion := Scale(Normalize(targetDirection), movingSpeed);
    ProjectKeepsLevel(motion, Normalize(planar));
    assert MotionAlongSlide(slope, targetDirection, movingSpeed) == Project(motion, Normalize(planar));
  }

  /** The three outcomes: the slope velocity unchanged when it or the speed
      is at most 0.001; otherwise nothing when the reduced slide no longer
      points along the slide, and else the reduced slide with the slope
      velocity's own vertical component. */
  lemma SlopeVelocityToUseCases(slope: Vec3, targetDirection: Vec3, movingSpeed: real)
    ensures !CancelsAgainstMotion(slope, movingSpeed) ==>
      SlopeVelocityToUse(slope, targetDirection, movingSpeed) == slope
    ensures CancelsAgainstMotion(slope, movingSpeed) && !StillAlongSlide(slope, targetDirection, movingSpeed) ==>
      SlopeVelocityToUse(slope, targetDirection, movingSpeed) == ZERO
    ensures CancelsAgainstMotion(slope, movingSpeed) && StillAlongSlide(slope, targetDirection, movingSpeed) ==>
      var r := SlopeVelocityToUse(slope, targetDirection, movingSpeed);
      var reduced := ReducedPlanar(slope, targetDirection, movingSpeed);
      r == Vec3(reduced.x, slope.y, reduced.z)
  {
    if CancelsAgainstMotion(slope, movingSpeed) && StillAlongSlide(slope, targetDirection, movingSpeed) {
      ReducedPlanarLevel(slope, targetDirection, movingSpeed);
    }
  }

  // ---------------------------------------------------------------------
  // What the cancellation amounts to
  // ---------------------------------------------------------------------

  /** The player's motion as `Move` hands it to the cancellation: the
      normalized target direction times the speed. */
  function PlayerMotion(targetDirection: Vec3, movingSpeed: real): Vec3 {
    Scale(Normalize(targetDirection), movingSpeed)
  }

  lemma PositiveFactor(a: real, b: real)
    requires 0.0 < b
    ensures 0.0 < Mul(a, b) <==> 0.0 < a
  {
    MulDef(a, b);
  }

  lemma NonNegativeFactor(a: real, b: real)
    requires 0.0 <= b
    ensures 0.0 < Mul(a, b) <==> 0.0 < a && 0.0 < b
  {
    MulDef(a, b);
  }

  lemma MulOneMinus(s: real, c: real)
    ensures Mul(s, 1.0 - c) == s - Mul(c, s)
  {
    MulDef(s, 1.0 - c);
    MulDef(c, s);
  }

  /** A horizontal slide longer than 1e-5 is not the zero vector, and
      normalizing it scales it by a positive factor. */
  lemma LongSlide(p: Vec3)
    requires SqrMagnitude(p) > NORMALIZE_MIN_SQR_LENGTH
    ensures p != ZERO && 0.0 < SqrMagnitude(p)
    ensures 0.0 < InverseLength(p)
  {
    PositiveLengthNonZero(p);
  }

  /** Taking out the player's motion along the slide leaves the slide scaled
      by one minus the motion's share of it; the length the slide direction
      was normalized to plays no part. */
  lemma ReducedClosedForm(slope: Vec3, targetDirection: Vec3, movingSpeed: real)
    requires SqrMagnitude(PlanarSlope(slope)) > NORMALIZE_MIN_SQR_LENGTH
    ensures var p := PlanarSlope(slope);
      ReducedPlanar(slope, targetDirection, movingSpeed)
      == Scale(p, 1.0 - Div(Dot(PlayerMotion(targetDirection, movingSpeed), p), SqrMagnitude(p)))
  {
    var p := PlanarSlope(slope);
    var m := PlayerMotion(targetDirection, movingSpeed);
    var k := InverseLength(p);
    var c := Div(Dot(m, p), SqrMagnitude(p)) by {
      LongSlide(p);
    }
    assert MotionAlongSlide(slope, targetDirection, movingSpeed) == Scale(p, c) by {
      LongSlide(p);
      ProjectOnMultiple(m, p, k);
    }
    SubScale(p, c);
  }

  /** A multiple `a` of the slide still points along the slide exactly when
      `a` is positive and the multiple is longer than 1e-5. */
  lemma AlongSlideIff(p: Vec3, a: real)
    requires SqrMagnitude(p) > NORMALIZE_MIN_SQR_LENGTH
    ensures Dot(Normalize(Scale(p, a)), Normalize(p)) > 0.0
            <==> a > 0.0 && SqrMagnitude(Scale(p, a)) > NORMALIZE_MIN_SQR_LENGTH
  {
    LongSlide(p);
    var k := InverseLength(p);
    var k2 := InverseLength(Scale(p, a));
    ScaleScale(p, a, k2);
    DotOfMultiples(p, Mul(a, k2), k);
    PositiveFactor(Mul(Mul(a, k2), k), SqrMagnitude(p));
    PositiveFactor(Mul(a, k2), k);
    NonNegativeFactor(a, k2);
  }

  /** Cancellation against the player's motion. With the horizontal slide
      `p` longer than 1e-5 and the player's motion `m`: when the player moves
      along the slide at least as fast as the slide, no slope velocity is
      applied; otherwise (unless what is left of the slide is at most 1e-5
      long) the vertical part is kept and the motion plus the applied slope
      velocity advances along the slide exactly as the slide alone would.
      Moving against the slide therefore does not slow it: the slide grows
      by the player's own motion up the slope. */
  lemma SlideCancellation(slope: Vec3, targetDirection: Vec3, movingSpeed: real)
    requires CancelsAgainstMotion(slope, movingSpeed)
    requires SqrMagnitude(PlanarSlope(slope)) > NORMALIZE_MIN_SQR_LENGTH
    ensures var p := PlanarSlope(slope);
      var m := PlayerMotion(targetDirection, movingSpeed);
      Dot(m, p) >= SqrMagnitude(p) ==> SlopeVelocityToUse(slope, targetDirection, movingSpeed) == ZERO
    ensures var p := PlanarSlope(slope);
      var m := PlayerMotion(targetDirection, movingSpeed);
      var r := SlopeVelocityToUse(slope, targetDirection, movingSpeed);
      Dot(m, p) < SqrMagnitude(p) && SqrMagnitude(ReducedPlanar(slope, targetDirection, movingSpeed)) > NORMALIZE_MIN_SQR_LENGTH
      ==> r.y == slope.y && Dot(Add(m, r), p) == SqrMagnitude(p)
  {
    SlideOutpaced(slope, targetDirection, movingSpeed);
    SlideAdvances(slope, targetDirection, movingSpeed);
  }

  /** The first half of `SlideCancellation`: motion that keeps up with the
      slide cancels it. */
  lemma SlideOutpaced(slope: Vec3, targetDirection: Vec3, movingSpeed: real)
    requires CancelsAgainstMotion(slope, movingSpeed)
    requires SqrMagnitude(PlanarSlope(slope)) > NORMALIZE_MIN_SQR_LENGTH
    ensures var p := PlanarSlope(slope);
      var m := PlayerMotion(targetDirection, movingSpeed);
      Dot(m, p) >= SqrMagnitude(p) ==> SlopeVelocityToUse(slope, targetDirection, movingSpeed) == ZERO
  {
    var p := PlanarSlope(slope);
    var m := PlayerMotion(targetDirection, movingSpeed);
    var s := SqrMagnitude(p);
    assert 0.0 < s by {
      LongSlide(p);
    }
    var c := Div(Dot(m, p), s);
    var reduced := ReducedPlanar(slope, targetDirection, movingSpeed);
    assert reduced == Scale(p, 1.0 - c) by {
      ReducedClosedForm(slope, targetDirection, movingSpeed);
    }
    assert StillAlongSlide(slope, targetDirection, movingSpeed) ==> 1.0 - c > 0.0 by {
      AlongSlideIff(p, 1.0 - c);
    }
    assert Dot(m, p) >= s ==> c >= 1.0 by {
      DivAtLeastOne(Dot(m, p), s);
    }
  }

  /** The second half of `SlideCancellation`: slower motion keeps the
      vertical part and advances along the slide as the slide alone would. */
  lemma SlideAdvances(slope: Vec3, targetDirection: Vec3, movingSpeed: real)
    requires CancelsAgainstMotion(slope, movingSpeed)
    requires SqrMagnitude(PlanarSlope(slope)) > NORMALIZE_MIN_SQR_LENGTH
    ensures var p := PlanarSlope(slope);
      var m := PlayerMotion(targetDirection, movingSpeed);
      var r := SlopeVelocityToUse(slope, targetDirection, movingSpeed);
      Dot(m, p) < SqrMagnitude(p) && SqrMagnitude(ReducedPlanar(slope, targetDirection, movingSpeed)) > NORMALIZE_MIN_SQR_LENGTH
      ==> r.y == slope.y && Dot(Add(m, r), p) == SqrMagnitude(p)
  {
    var p := PlanarSlope(slope);
    var m := PlayerMotion(targetDirection, movingSpeed);
    var s := SqrMagnitude(p);
    var reduced := ReducedPlanar(slope, targetDirection, movingSpeed);
    if Dot(m, p) < s && SqrMagnitude(reduced) > NORMALIZE_MIN_SQR_LENGTH {
      SlowerStaysAlong(slope, targetDirection, movingSpeed);
      var vertical := VerticalPart(slope);
      var r := Add(reduced, vertical);
      assert r.y == slope.y by {
        ReducedPlanarLevel(slope, targetDirection, movingSpeed);
      }
      assert Dot(Add(m, r), p) == s by {
        assert 0.0 < s by {
          LongSlide(p);
        }
        ReducedClosedForm(slope, targetDirection, movingSpeed);
        PlanarSlopeLevel(slope);
        AdvanceAlongSlide(m, p, vertical);
      }
    }
  }

  /** Motion slower than the slide leaves a reduced slide that still points
      along the slide, so the reduced slide plus the vertical part is
      applied. */
  lemma SlowerStaysAlong(slope: Vec3, targetDirection: Vec3, movingSpeed: real)
    requires CancelsAgainstMotion(slope, movingSpeed)
    requires SqrMagnitude(PlanarSlope(slope)) > NORMALIZE_MIN_SQR_LENGTH
    requires Dot(PlayerMotion(targetDirection, movingSpeed), PlanarSlope(slope)) < SqrMagnitude(PlanarSlope(slope))
    requires SqrMagnitude(ReducedPlanar(slope, targetDirection, movingSpeed)) > NORMALIZE_MIN_SQR_LENGTH
    ensures SlopeVelocityToUse(slope, targetDirection, movingSpeed)
            == Add(ReducedPlanar(slope, targetDirection, movingSpeed), VerticalPart(slope))
  {
    var p := PlanarSlope(slope);
    var m := PlayerMotion(targetDirection, movingSpeed);
    var s := SqrMagnitude(p);
    assert 0.0 < s by {
      LongSlide(p);
    }
    var c := Div(Dot(m, p), s);
    assert ReducedPlanar(slope, targetDirection, movingSpeed) == Scale(p, 1.0 - c) by {
      ReducedClosedForm(slope, targetDirection, movingSpeed);
    }
    assert c < 1.0 by {
      DivAtLeastOne(Dot(m, p), s);
    }
    assert StillAlongSlide(slope, targetDirection, movingSpeed) by {
      AlongSlideIff(p, 1.0 - c);
    }
  }

  /** The motion `m` plus the slide `p` with `m`'s share taken out, plus any
      vertical vector, advances along a horizontal `p` exactly as `p` does. */
  lemma AdvanceAlongSlide(m: Vec3, p: Vec3, vertical: Vec3)
    requires p.y == 0.0 && vertical.x == 0.0 && vertical.z == 0.0 && 0.0 < SqrMagnitude(p)
    ensures Dot(Add(m, Add(Scale(p, 1.0 - Div(Dot(m, p), SqrMagnitude(p))), vertical)), p) == SqrMagnitude(p)
  {
    var s := SqrMagnitude(p);
    var c := Div(Dot(m, p), s);
    var reduced := Scale(p, 1.0 - c);
    assert Dot(vertical, p) == 0.0 by {
      MulZeroLeft(p.x);
      MulZeroRight(vertical.y);
      MulZeroLeft(p.z);
    }
    assert Dot(reduced, p) == s - Dot(m, p) by {
      DotCommute(reduced, p);
      DotScaleRight(p, p, 1.0 - c);
      DotSelf(p);
      MulOneMinus(s, c);
      DivCancel(Dot(m, p), s);
    }
    DotAddLeft(m, Add(reduced, vertical), p);
    DotAddLeft(reduced, vertical, p);
  }

  /** Moving across the slide, with no motion along it, leaves the slope
      velocity as it is. */
  lemma CrossSlopeMotionKeepsSlide(slope: Vec3, targetDirection: Vec3, movingSpeed: real)
    requires SqrMagnitude(PlanarSlope(slope)) > NORMALIZE_MIN_SQR_LENGTH
    requires Dot(PlayerMotion(targetDirection, movingSpeed), PlanarSlope(slope)) == 0.0
    ensures SlopeVelocityToUse(slope, targetDirection, movingSpeed) == slope
  {
    var p := PlanarSlope(slope);
    assert Div(Dot(PlayerMotion(targetDirection, movingSpeed), p), SqrMagnitude(p)) == 0.0 by {
      LongSlide(p);
      DivZero(SqrMagnitude(p));
    }
    assert ReducedPlanar(slope, targetDirection, movingSpeed) == p by {
      ReducedClosedForm(slope, targetDirection, movingSpeed);
      MulOneRight(p.x);
      MulOneRight(p.y);
      MulOneRight(p.z);
    }
    assert Scale(p, 1.0) == p by {
      MulOneRight(p.x);
      MulOneRight(p.y);
      MulOneRight(p.z);
    }
    assert StillAlongSlide(slope, targetDirection, movingSpeed) by {
      AlongSlideIff(p, 1.0);
    }
    PlanarSlopeLevel(slope);
  }

  /** While the player moves, a slope velocity whose horizontal part is at
      most 1e-5 long is not applied at all, its vertical part included. */
  lemma SteepSlideDropped(slope: Vec3, targetDirection: Vec3, movingSpeed: real)
    requires CancelsAgainstMotion(slope, movingSpeed)
    requires SqrMagnitude(PlanarSlope(slope)) <= NORMALIZE_MIN_SQR_LENGTH
    ensures SlopeVelocityToUse(slope, targetDirection, movingSpeed) == ZERO
  {
    var p := PlanarSlope(slope);
    ScaleZero(p);
    var n := Normalize(ReducedPlanar(slope, targetDirection, movingSpeed));
    MulZeroRight(n.x);
    MulZeroRight(n.y);
    MulZeroRight(n.z);
  }

  /** While the player moves, a slide reduced by the player's motion to at
      most 1e-5 is dropped as well, vertical part included, even when the
      player moves along it more slowly than it runs. */
  lemma ShortRemainderDropped(slope: Vec3, targetDirection: Vec3, movingSpeed: real)
    requires CancelsAgainstMotion(slope, movingSpeed)
    requires SqrMagnitude(ReducedPlanar(slope, targetDirection, movingSpeed)) <= NORMALIZE_MIN_SQR_LENGTH
    ensures SlopeVelocityToUse(slope, targetDirection, movingSpeed) == ZERO
  {
    var r := ReducedPlanar(slope, targetDirection, movingSpeed);
    ScaleZero(r);
    var n := Normalize(PlanarSlope(slope));
    MulZeroLeft(n.x);
    MulZeroLeft(n.y);
    MulZeroLeft(n.z);
  }
}
