/** Three-component vectors over the reals, used alike for points, directions
    and colours, with the arithmetic of src/vec3.rs. Floating point is replaced
    by `real`; the square root that `length` needs is passed in as a function
    satisfying `IsSqrt`, since Dafny's reals have none built in. */
module Vectors {

  datatype Vec3 = Vec3(x: real, y: real, z: real)

  const Zero := Vec3(0.0, 0.0, 0.0)

  /** `sqrt` returns the non-negative square root of every non-negative real. */
  ghost predicate IsSqrt(sqrt: real -> real) {
    forall v :: IsRootOf(sqrt(v), v)
  }

  /** `s` is the non-negative square root of `v`, when `v` has one. */
  predicate IsRootOf(s: real, v: real) {
    0.0 <= v ==> 0.0 <= s && s * s == v
  }

  /** A non-negative real has exactly one non-negative square root. */
  lemma SqrtUnique(v: real, s: real, k: real)
    requires 0.0 <= s && 0.0 <= k
    requires s * s == v && k * k == v
    ensures s == k
  {
    var d, e := s - k, s + k;
    assert d * e == 0.0;
    if e == 0.0 {
      assert s == 0.0 && k == 0.0;
    } else {
      assert d == d * e / e;
    }
  }

  function Neg(v: Vec3): Vec3 {
    Vec3(-v.x, -v.y, -v.z)
  }

  function Add(a: Vec3, b: Vec3): Vec3 {
    Vec3(a.x + b.x, a.y + b.y, a.z + b.z)
  }

  function Sub(a: Vec3, b: Vec3): Vec3 {
    Vec3(a.x - b.x, a.y - b.y, a.z - b.z)
  }

  /** `Mul<f64>`: scale every component by `t`. */
  function Mul(v: Vec3, t: real): Vec3 {
    Vec3(v.x * t, v.y * t, v.z * t)
  }

  /** `Div<f64>` multiplies by the reciprocal; the source leaves `t == 0` unguarded. */
  function Div(v: Vec3, t: real): Vec3
    requires t != 0.0
  {
    Mul(v, 1.0 / t)
  }

  function Dot(a: Vec3, b: Vec3): real {
    a.x * b.x + a.y * b.y + a.z * b.z
  }

  function Cross(a: Vec3, b: Vec3): Vec3 {
    Vec3(a.y * b.z - a.z * b.y,
         a.z * b.x - a.x * b.z,
         a.x * b.y - a.y * b.x)
  }

  function LengthSquared(v: Vec3): real {
    v.x * v.x + v.y * v.y + v.z * v.z
  }

  function Length(v: Vec3, sqrt: real -> real): (r: real)
    requires IsSqrt(sqrt)
    ensures 0.0 <= r && r * r == LengthSquared(v)
    ensures 0.0 < LengthSquared(v) ==> 0.0 < r
  {
    LengthSquaredNonNegative(v);
    var r := sqrt(LengthSquared(v));
    RootOfPositive(LengthSquared(v), r);
    r
  }

  lemma RootOfPositive(v: real, r: real)
    requires 0.0 <= v ==> 0.0 <= r && r * r == v
    ensures 0.0 < v ==> 0.0 < r
  {
    if r == 0.0 {
      assert r * r == 0.0;
    }
  }

  /** `unit_vector` divides by the length; the zero vector (squared length 0) is
      excluded because the source divides by zero there. */
  function UnitVector(v: Vec3, sqrt: real -> real): (u: Vec3)
    requires IsSqrt(sqrt)
    requires 0.0 < LengthSquared(v)
    ensures LengthSquared(u) == 1.0
    ensures Mul(u, Length(v, sqrt)) == v
  {
    var len := Length(v, sqrt);
    UnitVectorFacts(v, len);
    Div(v, len)
  }

  lemma UnitVectorFacts(v: Vec3, len: real)
    requires 0.0 < len && len * len == LengthSquared(v)
    ensures LengthSquared(Div(v, len)) == 1.0
    ensures Mul(Div(v, len), len) == v
  {
    MulDivCancel(v, len);
    LengthSquaredMul(v, 1.0 / len);
    ReciprocalSquare(len, LengthSquared(v));
  }

  lemma ReciprocalSquare(len: real, ls: real)
    requires len != 0.0 && len * len == ls
    ensures (1.0 / len) * (1.0 / len) * ls == 1.0
  {
    var k := 1.0 / len;
    assert k * len == 1.0;
    calc {
      k * k * ls;
      k * k * (len * len);
      (k * len) * (k * len);
      1.0;
    }
  }

  // ---------------------------------------------------------------------------
  // Algebraic laws of the operators

  /** Subtraction and addition undo each other. */
  lemma AddSubInverse(a: Vec3, b: Vec3)
    ensures Add(Sub(a, b), b) == a
    ensures Sub(Add(a, b), b) == a
  {
  }

  /** Negation is the additive inverse, and subtraction adds the negation. */
  lemma NegIsAdditiveInverse(a: Vec3, b: Vec3)
    ensures Add(a, Neg(a)) == Zero
    ensures Sub(a, b) == Add(a, Neg(b))
    ensures Neg(Neg(a)) == a
  {
  }

  lemma DotSymmetric(a: Vec3, b: Vec3)
    ensures Dot(a, b) == Dot(b, a)
  {
  }

  /** A vector dotted with itself is its squared length, which is never
      negative and is zero for the zero vector. */
  lemma DotSelf(v: Vec3)
    ensures Dot(v, v) == LengthSquared(v)
    ensures 0.0 <= LengthSquared(v)
    ensures LengthSquared(Zero) == 0.0
  {
    LengthSquaredNonNegative(v);
  }

  lemma LengthSquaredNonNegative(v: Vec3)
    ensures 0.0 <= LengthSquared(v)
  {
  }

  /** The cross product is orthogonal to both factors. */
  lemma CrossOrthogonal(a: Vec3, b: Vec3)
    ensures Dot(Cross(a, b), a) == 0.0
    ensures Dot(Cross(a, b), b) == 0.0
  {
  }

  lemma CrossAntiCommutative(a: Vec3, b: Vec3)
    ensures Cross(a, b) == Neg(Cross(b, a))
  {
  }

  /** Division by a nonzero scalar is multiplication by its reciprocal and
      undoes multiplication by it. */
  lemma MulDivCancel(v: Vec3, t: real)
    requires t != 0.0
    ensures Div(v, t) == Mul(v, 1.0 / t)
    ensures Div(Mul(v, t), t) == v
    ensures Mul(Div(v, t), t) == v
  {
    var k := 1.0 / t;
    assert t * k == 1.0;
    assert v.x * t * k == v.x * (t * k);
    assert v.y * t * k == v.y * (t * k);
    assert v.z * t * k == v.z * (t * k);
    assert v.x * k * t == v.x * (t * k);
    assert v.y * k * t == v.y * (t * k);
    assert v.z * k * t == v.z * (t * k);
  }

  lemma LengthSquaredMul(v: Vec3, k: real)
    ensures LengthSquared(Mul(v, k)) == k * k * LengthSquared(v)
  {
  }

  lemma LengthSquaredNeg(v: Vec3)
    ensures LengthSquared(Neg(v)) == LengthSquared(v)
  {
  }

  /** Every component of a unit vector lies in [-1, 1]. */
  lemma UnitComponentsBounded(u: Vec3)
    requires LengthSquared(u) == 1.0
    ensures -1.0 <= u.x <= 1.0 && -1.0 <= u.y <= 1.0 && -1.0 <= u.z <= 1.0
  {
    SquareAtMostOne(u.x, u.y * u.y + u.z * u.z);
    SquareAtMostOne(u.y, u.x * u.x + u.z * u.z);
    SquareAtMostOne(u.z, u.x * u.x + u.y * u.y);
  }

  lemma SquareAtMostOne(c: real, rest: real)
    requires 0.0 <= rest && c * c + rest == 1.0
    ensures -1.0 <= c <= 1.0
  {
  }
}
