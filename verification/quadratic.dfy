/** Facts about the real quadratic `a*t^2 + 2*halfB*t + c` in the half-b form
    that the sphere solver of src/sphere.rs:29-41 uses. */
module Quadratic {

  function Eval(a: real, halfB: real, c: real, t: real): real {
    a * t * t + 2.0 * halfB * t + c
  }

  function Discriminant(a: real, halfB: real, c: real): real {
    halfB * halfB - a * c
  }

  /** The nearer root `(-halfB - sqrtd) / a`. */
  function NearRoot(a: real, halfB: real, sqrtd: real): real
    requires a != 0.0
  {
    (-halfB - sqrtd) / a
  }

  /** The farther root `(-halfB + sqrtd) / a`. */
  function FarRoot(a: real, halfB: real, sqrtd: real): real
    requires a != 0.0
  {
    (-halfB + sqrtd) / a
  }

  /** Completing the square: `a * q(t) == (a*t + halfB)^2 - D`. */
  lemma CompletedSquare(a: real, halfB: real, c: real, t: real)
    ensures a * Eval(a, halfB, c, t)
         == (a * t + halfB) * (a * t + halfB) - Discriminant(a, halfB, c)
  {
  }

  /** With `a > 0` and `D >= 0`, `q(t) == 0` holds exactly at the two roots. */
  lemma RootsOfQuadratic(a: real, halfB: real, c: real, sqrtd: real, t: real)
    requires 0.0 < a
    requires 0.0 <= sqrtd && sqrtd * sqrtd == Discriminant(a, halfB, c)
    ensures Eval(a, halfB, c, t) == 0.0
        <==> (t == NearRoot(a, halfB, sqrtd) || t == FarRoot(a, halfB, sqrtd))
  {
    CompletedSquare(a, halfB, c, t);
    var u := a * t + halfB;
    assert a * Eval(a, halfB, c, t) == (u - sqrtd) * (u + sqrtd);
    ZeroProduct(a, Eval(a, halfB, c, t));
    ZeroProduct(u - sqrtd, u + sqrtd);
    SolveLinear(a, halfB, -sqrtd, t);
    SolveLinear(a, halfB, sqrtd, t);
  }

  /** A negative discriminant leaves `q` without real roots. */
  lemma NoRealRoots(a: real, halfB: real, c: real, t: real)
    requires 0.0 < a
    requires Discriminant(a, halfB, c) < 0.0
    ensures Eval(a, halfB, c, t) != 0.0
  {
    CompletedSquare(a, halfB, c, t);
    var u := a * t + halfB;
    assert 0.0 <= u * u;
    ZeroProduct(a, Eval(a, halfB, c, t));
  }

  /** The nearer root is never above the farther one. */
  lemma RootsOrdered(a: real, halfB: real, sqrtd: real)
    requires 0.0 < a && 0.0 <= sqrtd
    ensures NearRoot(a, halfB, sqrtd) <= FarRoot(a, halfB, sqrtd)
  {
    DivideMonotone(-halfB - sqrtd, -halfB + sqrtd, a);
  }

  lemma ZeroProduct(x: real, y: real)
    ensures x * y == 0.0 <==> (x == 0.0 || y == 0.0)
  {
  }

  /** `a*t + halfB == -s` exactly when `t == (-halfB - s) / a`. */
  lemma SolveLinear(a: real, halfB: real, s: real, t: real)
    requires a != 0.0
    ensures a * t + halfB == -s <==> t == (-halfB - s) / a
  {
  }

  lemma DivideMonotone(x: real, y: real, a: real)
    requires x <= y && 0.0 < a
    ensures x / a <= y / a
  {
  }
}
