/** Three-dimensional vectors over the reals, with the handful of UnityEngine
    `Vector3` and `Mathf` operations the character controller uses.
    Floats become reals; the only irrational operation, the square root, is a
    bisection with a proved error bound. */
module Vectors {

  datatype Vec3 = Vec3(x: real, y: real, z: real)

  const ZERO: Vec3 := Vec3(0.0, 0.0, 0.0)

  /** `Vector3.up`; also `transform.up`, since the controller only ever turns
      the character about the vertical axis. */
  const UP: Vec3 := Vec3(0.0, 1.0, 0.0)

  /** `Vector3.Normalize` returns zero for vectors not longer than 1e-5;
      this is that bound squared. */
  const NORMALIZE_MIN_SQR_LENGTH: real := 0.0000000001

  /** Halvings the square root performs beyond one per binary digit of its
      argument's integer part. */
  const SQRT_STEPS: nat := 24

  /** Real multiplication, as the product of a two-element list. The
      verifier unfolds a recursive function on a non-constant argument only a
      step or two on its own, so proofs see products only where `MulDef` is
      called, and otherwise work with the lemmas below instead of with raw
      nonlinear arithmetic. */
  function Mul(a: real, b: real): real {
    Product([a, b])
  }

  /** The product of a list of reals. */
  function Product(factors: seq<real>): real
    decreases |factors|
  {
    if |factors| == 0 then 1.0 else factors[0] * Product(factors[1..])
  }

  lemma MulDef(a: real, b: real)
    ensures Mul(a, b) == a * b
  {
    assert Product([]) == 1.0;
    assert [b][1..] == [];
    assert Product([b]) == b * 1.0;
    assert [a, b][1..] == [b];
    assert Product([a, b]) == a * Product([b]);
  }

  function Square(u: real): real {
    Mul(u, u)
  }

  function Max(a: real, b: real): real {
    if a >= b then a else b
  }

  lemma MultiplyMonotone(a: real, b: real, c: real)
    requires a <= b && 0.0 <= c
    ensures Mul(a, c) <= Mul(b, c)
  {
    MulDef(a, c);
    MulDef(b, c);
  }

  lemma MultiplyStrict(a: real, b: real, c: real)
    requires a < b && 0.0 < c
    ensures Mul(a, c) < Mul(b, c)
  {
    MulDef(a, c);
    MulDef(b, c);
  }

  lemma MulCommute(a: real, b: real)
    ensures Mul(a, b) == Mul(b, a)
  {
    MulDef(a, b);
    MulDef(b, a);
  }

  lemma MulOneLeft(a: real)
    ensures Mul(1.0, a) == a
  {
    MulDef(1.0, a);
  }

  lemma MulOneRight(a: real)
    ensures Mul(a, 1.0) == a
  {
    MulDef(a, 1.0);
  }

  lemma MulZeroLeft(a: real)
    ensures Mul(0.0, a) == 0.0
  {
    MulDef(0.0, a);
  }

  lemma MulZeroRight(a: real)
    ensures Mul(a, 0.0) == 0.0
  {
    MulDef(a, 0.0);
  }

  lemma MulNegate(a: real, b: real)
    ensures Mul(-a, b) == -Mul(a, b)
    ensures Mul(a, -b) == -Mul(a, b)
  {
    MulDef(-a, b);
    MulDef(a, -b);
    MulDef(a, b);
  }

  /** Multiplication distributes over a sum of three. */
  lemma MulDistributes(k: real, a: real, b: real, c: real)
    ensures Mul(k, a + b + c) == Mul(k, a) + Mul(k, b) + Mul(k, c)
  {
    MulDef(k, a + b + c);
    MulDef(k, a);
    MulDef(k, b);
    MulDef(k, c);
  }

  lemma SquareOfProduct(a: real, b: real)
    ensures Square(Mul(a, b)) == Mul(Square(a), Square(b))
  {
    MulDef(a, b);
    MulDef(a, a);
    MulDef(b, b);
    MulDef(Mul(a, b), Mul(a, b));
    MulDef(Square(a), Square(b));
  }

  /** A square is non-negative, and zero only for zero. */
  lemma SquareNonNegative(u: real)
    ensures 0.0 <= Square(u)
    ensures u != 0.0 ==> 0.0 < Square(u)
  {
    MulDef(u, u);
    if u > 0.0 {
      MultiplyStrict(0.0, u, u);
    } else if u < 0.0 {
      MultiplyStrict(0.0, -u, -u);
      MulDef(-u, -u);
    }
  }

  /** Real division, as a product with the reciprocal. */
  function Div(a: real, b: real): real
    requires 0.0 < b
  {
    Mul(a, Inverse(b))
  }

  function Inverse(b: real): real
    requires 0.0 < b
  {
    1.0 / b
  }

  lemma InverseCancels(b: real)
    requires 0.0 < b
    ensures Mul(Inverse(b), b) == 1.0
    ensures 0.0 < Inverse(b)
  {
    MulDef(Inverse(b), b);
  }

  function Add(a: Vec3, b: Vec3): Vec3 {
    Vec3(a.x + b.x, a.y + b.y, a.z + b.z)
  }

  function Sub(a: Vec3, b: Vec3): Vec3 {
    Vec3(a.x - b.x, a.y - b.y, a.z - b.z)
  }

  function Scale(a: Vec3, k: real): Vec3 {
    Vec3(Mul(a.x, k), Mul(a.y, k), Mul(a.z, k))
  }

  function Dot(a: Vec3, b: Vec3): real {
    Mul(a.x, b.x) + Mul(a.y, b.y) + Mul(a.z, b.z)
  }

  /** `Vector3.Cross`. */
  function Cross(a: Vec3, b: Vec3): Vec3 {
    Vec3(Mul(a.y, b.z) - Mul(a.z, b.y),
         Mul(a.z, b.x) - Mul(a.x, b.z),
         Mul(a.x, b.y) - Mul(a.y, b.x))
  }

  /** `sqrMagnitude`: never negative. */
  function SqrMagnitude(a: Vec3): (r: real)
    ensures 0.0 <= r
  {
    SquareNonNegative(a.x);
    SquareNonNegative(a.y);
    SquareNonNegative(a.z);
    Square(a.x) + Square(a.y) + Square(a.z)
  }

  lemma SqrMagnitudeZero()
    ensures SqrMagnitude(ZERO) == 0.0
  {
    MulZeroLeft(0.0);
  }

  /** A vector of positive squared length is not the zero vector. */
  lemma PositiveLengthNonZero(a: Vec3)
    requires 0.0 < SqrMagnitude(a)
    ensures a != ZERO
  {
    SqrMagnitudeZero();
  }

  /** Only the zero vector has squared length zero. */
  lemma SqrMagnitudePositive(a: Vec3)
    requires a != ZERO
    ensures 0.0 < SqrMagnitude(a)
  {
    SquareNonNegative(a.x);
    SquareNonNegative(a.y);
    SquareNonNegative(a.z);
  }

  /** The vector operations written with plain products. */
  lemma ScaleDef(a: Vec3, k: real)
    ensures Scale(a, k) == Vec3(a.x * k, a.y * k, a.z * k)
  {
    MulDef(a.x, k);
    MulDef(a.y, k);
    MulDef(a.z, k);
  }

  lemma CrossDef(a: Vec3, b: Vec3)
    ensures Cross(a, b) == Vec3(a.y * b.z - a.z * b.y, a.z * b.x - a.x * b.z, a.x * b.y - a.y * b.x)
  {
    MulDef(a.y, b.z);
    MulDef(a.z, b.y);
    MulDef(a.z, b.x);
    MulDef(a.x, b.z);
    MulDef(a.x, b.y);
    MulDef(a.y, b.x);
  }

  lemma SqrMagnitudeDef(a: Vec3)
    ensures SqrMagnitude(a) == a.x * a.x + a.y * a.y + a.z * a.z
  {
    MulDef(a.x, a.x);
    MulDef(a.y, a.y);
    MulDef(a.z, a.z);
  }

  /** Scaling a vector by `k` scales its squared length by `k` squared. */
  lemma ScaleSqrMagnitude(a: Vec3, k: real)
    ensures SqrMagnitude(Scale(a, k)) == Mul(Square(k), SqrMagnitude(a))
  {
    SquareOfProduct(a.x, k);
    SquareOfProduct(a.y, k);
    SquareOfProduct(a.z, k);
    MulCommute(Square(a.x), Square(k));
    MulCommute(Square(a.y), Square(k));
    MulCommute(Square(a.z), Square(k));
    MulDistributes(Square(k), Square(a.x), Square(a.y), Square(a.z));
  }

  /** The width `w` halved `n` times. */
  function Halved(w: real, n: nat): (r: real)
    requires 0.0 <= w
    ensures 0.0 <= r <= w
    decreases n
  {
    if n == 0 then w else Halved(w / 2.0, n - 1)
  }

  /** Bisection for the square root of `x` inside [lo, lo + w]: returns the
      upper end of the final interval, whose width is `Halved(w, n)`. */
  function Bisect(x: real, lo: real, w: real, n: nat): (r: real)
    requires 0.0 <= lo && 0.0 <= w
    requires Square(lo) <= x <= Square(lo + w)
    ensures lo <= r - Halved(w, n) && r <= lo + w
    ensures Square(r - Halved(w, n)) <= x <= Square(r)
    decreases n
  {
    if n == 0 then
      assert (lo + w) - w == lo;
      lo + w
    else
      Bisect(x, BisectLow(x, lo, w), w / 2.0, n - 1)
  }

  /** The lower end of the half of [lo, lo + w] that holds the root. */
  function BisectLow(x: real, lo: real, w: real): (r: real)
    requires 0.0 <= lo && 0.0 <= w
    requires Square(lo) <= x <= Square(lo + w)
    ensures lo <= r && r + w / 2.0 <= lo + w
    ensures Square(r) <= x <= Square(r + w / 2.0)
  {
    var mid := lo + w / 2.0;
    assert mid + w / 2.0 == lo + w;
    if Square(mid) <= x then mid else lo
  }

  /** The number of binary digits after the leading one. */
  function BinaryDigits(n: nat): nat
    decreases n
  {
    if n <= 1 then 0 else 1 + BinaryDigits(n / 2)
  }

  /** Halvings of the bracket [0, max(1, x)]: one per binary digit of the
      integer part of `x`, then SQRT_STEPS more, so the final bracket is
      about 2^-SQRT_STEPS wide whatever the size of `x`. */
  function SqrtSteps(x: real): nat
    requires 0.0 <= x
  {
    SQRT_STEPS + BinaryDigits(x.Floor)
  }

  /** How far above the true root `Sqrt(x)` may lie: the width of the final
      bracket. */
  function SqrtTolerance(x: real): real
    requires 0.0 <= x
  {
    Halved(Max(1.0, x), SqrtSteps(x))
  }

  /** `Mathf.Sqrt`: a non-negative value whose square is at least `x` and
      that exceeds the true root by at most `SqrtTolerance(x)`. */
  function Sqrt(x: real): (r: real)
    requires 0.0 <= x
    ensures 0.0 <= r - SqrtTolerance(x)
    ensures Square(r - SqrtTolerance(x)) <= x <= Square(r)
    ensures 0.0 < x ==> 0.0 < r
  {
    SqrtBracket(x);
    var w := Max(1.0, x);
    var n := SqrtSteps(x);
    var r := Bisect(x, 0.0, w, n);
    assert SqrtTolerance(x) == Halved(w, n);
    PositiveSquareRoot(x, r);
    r
  }

  /** 2 to the power `n`. */
  function Pow2(n: nat): (r: nat)
    ensures 1 <= r
    decreases n
  {
    if n == 0 then 1 else 2 * Pow2(n - 1)
  }

  /** The integer part of `x` is below 2^(d + 1), where `d` is its number of
      binary digits after the leading one. */
  lemma {:induction false} BinaryDigitsBound(f: nat)
    ensures f < Pow2(BinaryDigits(f) + 1)
    decreases f
  {
    if f > 1 {
      BinaryDigitsBound(f / 2);
    }
  }

  lemma {:induction false} HalvedMonotone(v: real, w: real, n: nat)
    requires 0.0 <= v <= w
    ensures Halved(v, n) <= Halved(w, n)
    decreases n
  {
    if n > 0 {
      HalvedMonotone(v / 2.0, w / 2.0, n - 1);
    }
  }

  /** A bracket at most 2^(d + 1) wide, halved `d` more times than a bracket
      of width 2, ends up no wider than that one. */
  lemma {:induction false} HalvedExtra(w: real, d: nat, n: nat)
    requires 0.0 <= w <= Pow2(d + 1) as real
    ensures Halved(w, n + d) <= Halved(2.0, n)
    decreases d
  {
    if d == 0 {
      HalvedMonotone(w, 2.0, n);
    } else {
      assert Halved(w, n + d) == Halved(w / 2.0, n + (d - 1));
      HalvedExtra(w / 2.0, d - 1, n);
    }
  }

  /** 2^-23: the bracket of width 2 after `SQRT_STEPS` halvings. */
  const SQRT_TOLERANCE_BOUND: real := 1.0 / 8388608.0

  /** Halving `n` times divides by 2^n. */
  lemma {:induction false} HalvedPow2(w: real, n: nat)
    requires 0.0 <= w
    ensures Halved(w, n) * (Pow2(n) as real) == w
    decreases n
  {
    if n > 0 {
      HalvedPow2(w / 2.0, n - 1);
    }
  }

  lemma ToleranceConstant()
    ensures Halved(2.0, SQRT_STEPS) == SQRT_TOLERANCE_BOUND
  {
    HalvedPow2(2.0, SQRT_STEPS);
    Pow2Steps();
  }

  lemma Pow2Steps()
    ensures Pow2(SQRT_STEPS) == 16777216
  {
    assert Pow2(3) == 2 * Pow2(2) == 4 * Pow2(1) == 8 * Pow2(0) == 8;
    Pow2Add(3, 3);
    Pow2Add(6, 6);
    Pow2Add(12, 12);
  }

  lemma {:induction false} Pow2Add(a: nat, b: nat)
    ensures Pow2(a + b) == Pow2(a) * Pow2(b)
    decreases a
  {
    if a > 0 {
      Pow2Add(a - 1, b);
      assert Pow2(a + b) == 2 * Pow2((a - 1) + b);
    }
  }

  /** The square-root tolerance is at most 2^-23, whatever the argument:
      the extra halvings make up for the width of a large bracket. */
  lemma ToleranceBound(x: real)
    requires 0.0 <= x
    ensures 0.0 <= SqrtTolerance(x) <= SQRT_TOLERANCE_BOUND
  {
    var d := BinaryDigits(x.Floor);
    BinaryDigitsBound(x.Floor);
    assert Max(1.0, x) <= Pow2(d + 1) as real;
    HalvedExtra(Max(1.0, x), d, SQRT_STEPS);
    ToleranceConstant();
  }

  /** The root of `x` lies between 0 and max(1, x). */
  lemma SqrtBracket(x: real)
    requires 0.0 <= x
    ensures Square(0.0) <= x <= Square(0.0 + Max(1.0, x))
  {
    MulZeroLeft(0.0);
    MulOneLeft(1.0);
    if x > 1.0 {
      MultiplyMonotone(1.0, x, x);
      MulOneLeft(x);
    }
  }

  lemma PositiveSquareRoot(x: real, r: real)
    requires 0.0 <= r && x <= Square(r)
    ensures 0.0 < x ==> 0.0 < r
  {
    MulZeroLeft(0.0);
  }

  /** `magnitude`. */
  function Magnitude(a: Vec3): real {
    Sqrt(SqrMagnitude(a))
  }

  /** The factor `Vector3.Normalize` scales by: one over the length, or zero
      when the length is at most 1e-5. */
  function InverseLength(a: Vec3): (k: real)
    ensures 0.0 <= k
    ensures 0.0 < k <==> SqrMagnitude(a) > NORMALIZE_MIN_SQR_LENGTH
  {
    if SqrMagnitude(a) > NORMALIZE_MIN_SQR_LENGTH then
      var m := Magnitude(a);
      InverseCancels(m);
      Inverse(m)
    else 0.0
  }

  lemma InverseSquareBound(s: real, m: real)
    requires 0.0 < m && 0.0 <= s <= Square(m)
    ensures Mul(Square(Inverse(m)), s) <= 1.0
  {
    var k := Inverse(m);
    InverseCancels(m);
    SquareNonNegative(k);
    MultiplyMonotone(s, Square(m), Square(k));
    MulCommute(s, Square(k));
    MulCommute(Square(m), Square(k));
    SquareOfProduct(k, m);
    MulOneLeft(1.0);
  }

  /** `normalized`: the vector scaled to (at most) unit length, or zero. */
  function Normalize(a: Vec3): Vec3 {
    Scale(a, InverseLength(a))
  }

  /** A normalized vector is never longer than one. */
  lemma NormalizeAtMostUnit(a: Vec3)
    ensures SqrMagnitude(Normalize(a)) <= 1.0
  {
    var k := InverseLength(a);
    ScaleSqrMagnitude(a, k);
    if k > 0.0 {
      InverseSquareBound(SqrMagnitude(a), Magnitude(a));
    } else {
      MulZeroLeft(0.0);
      MulZeroLeft(SqrMagnitude(a));
    }
  }

  /** Above Unity's 1e-5 threshold a normalized vector is of unit length up
      to the square-root tolerance: its squared length is at least 0.97. */
  lemma NormalizeNearUnit(a: Vec3)
    requires SqrMagnitude(a) > NORMALIZE_MIN_SQR_LENGTH
    ensures 0.97 <= SqrMagnitude(Normalize(a)) <= 1.0
  {
    NormalizeAtMostUnit(a);
    var s := SqrMagnitude(a);
    var m := Magnitude(a);
    var t := SqrtTolerance(s);
    ToleranceBound(s);
    ScaleSqrMagnitude(a, InverseLength(a));
    NearUnitMul(s, m, t);
  }

  /** `NormalizeNearUnit` for a length `m` that brackets the root of `s`
      within `t`. */
  lemma NearUnitMul(s: real, m: real, t: real)
    requires 0.0 < m && 0.0 <= t <= SQRT_TOLERANCE_BOUND && 0.0 <= m - t
    requires Square(m - t) <= s <= Square(m)
    requires s > NORMALIZE_MIN_SQR_LENGTH
    ensures 0.97 <= Mul(Square(Inverse(m)), s)
  {
    var k := Inverse(m);
    InverseCancels(m);
    MulDef(k, m);
    MulDef(k, k);
    MulDef(Square(k), s);
    MulDef(m, m);
    MulDef(m - t, m - t);
    NearUnitReal(s, m, t, k);
  }

  /** The arithmetic behind `NormalizeNearUnit`: with k = 1/m, m - t at most
      the root of s, m at least that root, t at most 2^-23 and s above 1e-10,
      k² s is at least 0.97. */
  lemma NearUnitReal(s: real, m: real, t: real, k: real)
    requires 0.0 < m && k * m == 1.0
    requires 0.0 <= t <= SQRT_TOLERANCE_BOUND && 0.0 <= m - t
    requires (m - t) * (m - t) <= s <= m * m
    requires s > NORMALIZE_MIN_SQR_LENGTH
    ensures 0.97 <= k * k * s
  {
    assert m > 0.00001 by {
      assert (m - 0.00001) * (m + 0.00001) == m * m - 0.0000000001;
    }
    assert 0.0 < k < 100000.0 by {
      assert k * m >= k * 0.00001;
    }
    var u := k * t;
    assert u <= 100000.0 * SQRT_TOLERANCE_BOUND by {
      assert k * t <= 100000.0 * t;
    }
    assert k * (m - t) == 1.0 - u;
    assert k * k * s >= k * k * ((m - t) * (m - t)) by {
      assert 0.0 <= k * k;
    }
    assert k * k * ((m - t) * (m - t)) == (1.0 - u) * (1.0 - u);
    assert 0.988 <= 1.0 - u;
    assert (1.0 - u) * (1.0 - u) >= 0.988 * (1.0 - u) >= 0.988 * 0.988;
  }

  /** `Vector3.Project`: the component of `v` along `onNormal`. Unity returns
      zero when the squared length of `onNormal` is below the smallest positive
      float, that is, when it is zero. */
  function Project(v: Vec3, onNormal: Vec3): Vec3 {
    var s := SqrMagnitude(onNormal);
    if s == 0.0 then ZERO else Scale(onNormal, Div(Dot(v, onNormal), s))
  }

  /** `Vector3.up` has unit length. */
  lemma SqrMagnitudeUp()
    ensures SqrMagnitude(UP) == 1.0
  {
    MulZeroLeft(0.0);
    MulOneLeft(1.0);
  }

  lemma DotUp(v: Vec3)
    ensures Dot(v, UP) == v.y
  {
    MulZeroRight(v.x);
    MulOneRight(v.y);
    MulZeroRight(v.z);
  }

  lemma ScaleUp(k: real)
    ensures Scale(UP, k) == Vec3(0.0, k, 0.0)
  {
    MulZeroLeft(k);
    MulOneLeft(k);
  }

  /** Projecting on up keeps just the vertical component. */
  lemma ProjectOnUp(v: Vec3)
    ensures Project(v, UP) == Vec3(0.0, v.y, 0.0)
  {
    SqrMagnitudeUp();
    DotUp(v);
    MulOneRight(v.y);
    ScaleUp(v.y);
  }

  /** `Vector3.Project(v, Vector3.up)`, in the closed form `ProjectOnUp`
      proves. */
  function VerticalPart(v: Vec3): (r: Vec3)
    ensures r == Project(v, UP)
  {
    ProjectOnUp(v);
    Vec3(0.0, v.y, 0.0)
  }

  /** `Mathf.Clamp01`. */
  function Clamp01(t: real): (r: real)
    ensures 0.0 <= r <= 1.0
    ensures 0.0 <= t <= 1.0 ==> r == t
  {
    if t < 0.0 then 0.0 else if t > 1.0 then 1.0 else t
  }

  /** `Mathf.Lerp`, with the interpolation parameter clamped to [0, 1]. */
  function LerpReal(a: real, b: real, t: real): real {
    a + Mul(b - a, Clamp01(t))
  }

  /** Because the parameter is clamped, `Mathf.Lerp` always lands between its
      two end points. */
  lemma LerpRealBetween(a: real, b: real, t: real)
    ensures a <= b ==> a <= LerpReal(a, b, t) <= b
    ensures b <= a ==> b <= LerpReal(a, b, t) <= a
  {
    var c := Clamp01(t);
    MulDef(b - a, c);
    MulDef(c, b - a);
    MulDef(0.0, b - a);
    MulDef(1.0, b - a);
    if a <= b {
      MultiplyMonotone(0.0, c, b - a);
      MultiplyMonotone(c, 1.0, b - a);
    } else {
      MulDef(0.0, a - b);
      MulDef(1.0, a - b);
      MulDef(c, a - b);
      MultiplyMonotone(0.0, c, a - b);
      MultiplyMonotone(c, 1.0, a - b);
    }
  }

  /** `Vector3.Lerp`, component by component. */
  function Lerp(a: Vec3, b: Vec3, t: real): Vec3 {
    Vec3(LerpReal(a.x, b.x, t), LerpReal(a.y, b.y, t), LerpReal(a.z, b.z, t))
  }

  /** Scaling by a non-negative factor at most one never lengthens a vector. */
  lemma ShrinkNotLonger(a: Vec3, k: real)
    requires 0.0 <= k <= 1.0
    ensures SqrMagnitude(Scale(a, k)) <= SqrMagnitude(a)
  {
    ScaleSqrMagnitude(a, k);
    MultiplyMonotone(k, 1.0, k);
    MulOneLeft(k);
    MultiplyMonotone(Square(k), 1.0, SqrMagnitude(a));
    MulOneLeft(SqrMagnitude(a));
  }

  /** Lerping a real toward zero multiplies it by one minus the clamped
      parameter. */
  lemma LerpRealToZero(a: real, t: real)
    ensures LerpReal(a, 0.0, t) == Mul(a, 1.0 - Clamp01(t))
  {
    MulDef(0.0 - a, Clamp01(t));
    MulDef(a, 1.0 - Clamp01(t));
  }

  /** Lerping toward zero scales the vector by one minus the clamped
      parameter, so its length never grows. */
  lemma LerpToZero(v: Vec3, t: real)
    ensures Lerp(v, ZERO, t) == Scale(v, 1.0 - Clamp01(t))
    ensures SqrMagnitude(Lerp(v, ZERO, t)) <= SqrMagnitude(v)
  {
    LerpRealToZero(v.x, t);
    LerpRealToZero(v.y, t);
    LerpRealToZero(v.z, t);
    ShrinkNotLonger(v, 1.0 - Clamp01(t));
  }

  // ---------------------------------------------------------------------
  // Algebra of scaled vectors
  // ---------------------------------------------------------------------

  lemma ScaleScale(a: Vec3, k: real, t: real)
    ensures Scale(Scale(a, k), t) == Scale(a, Mul(k, t))
  {
    MulDef(a.x, k); MulDef(Mul(a.x, k), t);
    MulDef(a.y, k); MulDef(Mul(a.y, k), t);
    MulDef(a.z, k); MulDef(Mul(a.z, k), t);
    MulDef(k, t);
    MulDef(a.x, Mul(k, t)); MulDef(a.y, Mul(k, t)); MulDef(a.z, Mul(k, t));
  }

  lemma ScaleZero(a: Vec3)
    ensures Scale(a, 0.0) == ZERO
    ensures Scale(ZERO, 0.0) == ZERO
  {
    MulZeroRight(a.x);
    MulZeroRight(a.y);
    MulZeroRight(a.z);
    MulZeroRight(0.0);
  }

  lemma ScaleOfZero(k: real)
    ensures Scale(ZERO, k) == ZERO
  {
    MulZeroLeft(k);
  }

  /** Taking a multiple of `p` away from `p` leaves a multiple of `p`. */
  lemma SubScale(p: Vec3, c: real)
    ensures Sub(p, Scale(p, c)) == Scale(p, 1.0 - c)
  {
    MulDef(p.x, c); MulDef(p.x, 1.0 - c);
    MulDef(p.y, c); MulDef(p.y, 1.0 - c);
    MulDef(p.z, c); MulDef(p.z, 1.0 - c);
  }

  lemma DotScaleRight(a: Vec3, b: Vec3, k: real)
    ensures Dot(a, Scale(b, k)) == Mul(Dot(a, b), k)
  {
    MulDef(b.x, k); MulDef(a.x, Mul(b.x, k)); MulDef(a.x, b.x);
    MulDef(b.y, k); MulDef(a.y, Mul(b.y, k)); MulDef(a.y, b.y);
    MulDef(b.z, k); MulDef(a.z, Mul(b.z, k)); MulDef(a.z, b.z);
    MulDef(Dot(a, b), k);
  }

  lemma DotCommute(a: Vec3, b: Vec3)
    ensures Dot(a, b) == Dot(b, a)
  {
    MulCommute(a.x, b.x);
    MulCommute(a.y, b.y);
    MulCommute(a.z, b.z);
  }

  lemma DotAddLeft(a: Vec3, b: Vec3, c: Vec3)
    ensures Dot(Add(a, b), c) == Dot(a, c) + Dot(b, c)
  {
    MulDef(a.x + b.x, c.x); MulDef(a.x, c.x); MulDef(b.x, c.x);
    MulDef(a.y + b.y, c.y); MulDef(a.y, c.y); MulDef(b.y, c.y);
    MulDef(a.z + b.z, c.z); MulDef(a.z, c.z); MulDef(b.z, c.z);
  }

  /** A vector's dot product with itself is its squared length. */
  lemma DotSelf(a: Vec3)
    ensures Dot(a, a) == SqrMagnitude(a)
  {
  }

  /** Two multiples of the same vector: the dot product is the product of
      the factors times the squared length. */
  lemma DotOfMultiples(p: Vec3, a: real, k: real)
    ensures Dot(Scale(p, a), Scale(p, k)) == Mul(Mul(a, k), SqrMagnitude(p))
  {
    DotScaleRight(Scale(p, a), p, k);
    DotCommute(Scale(p, a), p);
    DotScaleRight(p, p, a);
    DotSelf(p);
    MulDef(SqrMagnitude(p), a);
    MulDef(Mul(SqrMagnitude(p), a), k);
    MulDef(a, k);
    MulDef(Mul(a, k), SqrMagnitude(p));
  }

  /** Division undone by multiplication. */
  lemma DivCancel(d: real, s: real)
    requires 0.0 < s
    ensures Mul(Div(d, s), s) == d
  {
    MulDef(d, Inverse(s));
    MulDef(Div(d, s), s);
  }

  lemma DivZero(s: real)
    requires 0.0 < s
    ensures Div(0.0, s) == 0.0
  {
    MulZeroLeft(Inverse(s));
  }

  /** For a positive divisor, the quotient is at least one exactly when the
      dividend is at least the divisor. */
  lemma DivAtLeastOne(d: real, s: real)
    requires 0.0 < s
    ensures Div(d, s) >= 1.0 <==> d >= s
  {
    DivCancel(d, s);
    if Div(d, s) >= 1.0 {
      MultiplyMonotone(1.0, Div(d, s), s);
      MulOneLeft(s);
    } else {
      MultiplyStrict(Div(d, s), 1.0, s);
      MulOneLeft(s);
    }
  }

  /** The factor of a projection onto `Scale(p, k)` does not depend on `k`. */
  lemma ProjectFactor(d: real, k: real, s: real)
    requires k != 0.0 && 0.0 < s
    requires 0.0 < Mul(Square(k), s)
    ensures Mul(k, Div(Mul(d, k), Mul(Square(k), s))) == Div(d, s)
  {
    MulDef(d, k);
    MulDef(k, k);
    MulDef(Square(k), s);
    MulDef(Mul(d, k), Inverse(Mul(Square(k), s)));
    MulDef(k, Div(Mul(d, k), Mul(Square(k), s)));
    MulDef(d, Inverse(s));
  }

  /** Projecting on a non-zero multiple of `p` is projecting on `p`: the
      result is `p` scaled by the dot product over the squared length. */
  lemma ProjectOnMultiple(v: Vec3, p: Vec3, k: real)
    requires k != 0.0 && p != ZERO
    ensures 0.0 < SqrMagnitude(p)
    ensures Project(v, Scale(p, k)) == Scale(p, Div(Dot(v, p), SqrMagnitude(p)))
  {
    var u := Scale(p, k);
    SqrMagnitudePositive(p);
    SquareNonNegative(k);
    ScaleSqrMagnitude(p, k);
    MultiplyStrict(0.0, Square(k), SqrMagnitude(p));
    MulZeroLeft(SqrMagnitude(p));
    DotScaleRight(v, p, k);
    var t := Div(Dot(v, u), SqrMagnitude(u));
    assert Project(v, u) == Scale(u, t);
    ScaleScale(p, k, t);
    ProjectFactor(Dot(v, p), k, SqrMagnitude(p));
  }
}
