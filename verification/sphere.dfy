/** The sphere primitive of src/sphere.rs and its analytic ray intersection. */
module Spheres {
  import opened Vectors
  import opened Rays
  import opened Hittables
  import Quadratic

  /** `Sphere::new(center, radius)` is this constructor. */
  datatype Sphere = Sphere(center: Vec3, radius: real)

  /** The point `At(ray, t)` lies on the sphere's surface. */
  predicate IsRoot(s: Sphere, ray: Ray, t: real) {
    LengthSquared(Sub(At(ray, t), s.center)) == s.radius * s.radius
  }

  /** The coefficients the solver computes: `a = |direction|^2`,
      `half_b = (origin - center) . direction`, `c = |origin - center|^2 - r^2`. */
  function CoeffA(ray: Ray): real {
    LengthSquared(ray.direction)
  }

  function HalfB(s: Sphere, ray: Ray): real {
    Dot(Sub(ray.origin, s.center), ray.direction)
  }

  function CoeffC(s: Sphere, ray: Ray): real {
    LengthSquared(Sub(ray.origin, s.center)) - s.radius * s.radius
  }

  function Discriminant(s: Sphere, ray: Ray): real {
    Quadratic.Discriminant(CoeffA(ray), HalfB(s, ray), CoeffC(s, ray))
  }

  /** The inputs on which the source does not divide by zero: a ray with a
      nonzero direction (`a > 0`) and a sphere with a nonzero radius. */
  predicate Solvable(s: Sphere, ray: Ray) {
    0.0 < LengthSquared(ray.direction) && s.radius != 0.0
  }

  /** The record written on success: parameter, point, and the outward normal
      `(p - center) / radius` turned against the ray. */
  function Record(s: Sphere, ray: Ray, root: real, rec: HitRecord): HitRecord
    requires s.radius != 0.0
  {
    var p := At(ray, root);
    SetFaceNormal(rec.(t := root, p := p), ray, Div(Sub(p, s.center), s.radius))
  }

  /** `Sphere::hit`. The nearer root is accepted when it lies in
      `[tMin, tMax]`, otherwise the farther one, otherwise nothing is hit; `rec`
      is replaced only on success. */
  function Hit(s: Sphere, ray: Ray, tMin: real, tMax: Bound, rec: HitRecord,
               sqrt: real -> real): (r: Probe)
    requires IsSqrt(sqrt)
    requires Solvable(s, ray)
    ensures !r.hit ==> r.rec == rec
    ensures r.hit ==> InRange(r.rec.t, tMin, tMax)
    ensures r.hit ==> r.rec.p == At(ray, r.rec.t)
  {
    var a := CoeffA(ray);
    var halfB := HalfB(s, ray);
    var discriminant := Discriminant(s, ray);
    if discriminant < 0.0 then
      Probe(false, rec)
    else
      var sqrtd := sqrt(discriminant);
      var near := Quadratic.NearRoot(a, halfB, sqrtd);
      if InRange(near, tMin, tMax) then
        Probe(true, Record(s, ray, near, rec))
      else
        var far := Quadratic.FarRoot(a, halfB, sqrtd);
        if InRange(far, tMin, tMax) then
          Probe(true, Record(s, ray, far, rec))
        else
          Probe(false, rec)
  }

  // ---------------------------------------------------------------------------
  // The surface equation as the quadratic

  /** `|origin + direction*t - center|^2 - r^2` is the solver's quadratic in `t`. */
  lemma RootIsQuadraticZero(s: Sphere, ray: Ray, t: real)
    ensures IsRoot(s, ray, t)
        <==> Quadratic.Eval(CoeffA(ray), HalfB(s, ray), CoeffC(s, ray), t) == 0.0
  {
    var o, d, c := ray.origin, ray.direction, s.center;
    ExpandComponent(o.x, d.x, c.x, t);
    ExpandComponent(o.y, d.y, c.y, t);
    ExpandComponent(o.z, d.z, c.z, t);
    assert LengthSquared(Sub(At(ray, t), c))
        == CoeffA(ray) * t * t + 2.0 * HalfB(s, ray) * t
           + LengthSquared(Sub(o, c));
  }

  lemma ExpandComponent(o: real, d: real, c: real, t: real)
    ensures (o + d * t - c) * (o + d * t - c)
         == d * d * t * t + 2.0 * ((o - c) * d) * t + (o - c) * (o - c)
  {
  }

  /** Over the whole real line, the surface points of the ray are the roots the
      solver computes: none when the discriminant is negative, otherwise exactly
      the nearer and the farther root, in that order. */
  lemma RootsOfRay(s: Sphere, ray: Ray, sqrt: real -> real)
    requires IsSqrt(sqrt)
    requires Solvable(s, ray)
    ensures Discriminant(s, ray) < 0.0 ==> forall t :: !IsRoot(s, ray, t)
    ensures 0.0 <= Discriminant(s, ray) ==>
      var sqrtd := sqrt(Discriminant(s, ray));
      var near := Quadratic.NearRoot(CoeffA(ray), HalfB(s, ray), sqrtd);
      var far := Quadratic.FarRoot(CoeffA(ray), HalfB(s, ray), sqrtd);
      near <= far && forall t :: IsRoot(s, ray, t) <==> (t == near || t == far)
  {
    var a, halfB, c := CoeffA(ray), HalfB(s, ray), CoeffC(s, ray);
    var d := Discriminant(s, ray);
    if d < 0.0 {
      forall t
        ensures !IsRoot(s, ray, t)
      {
        RootIsQuadraticZero(s, ray, t);
        Quadratic.NoRealRoots(a, halfB, c, t);
      }
    } else {
      var sqrtd := sqrt(d);
      Quadratic.RootsOrdered(a, halfB, sqrtd);
      forall t
        ensures IsRoot(s, ray, t) <==> (t == Quadratic.NearRoot(a, halfB, sqrtd)
                                      || t == Quadratic.FarRoot(a, halfB, sqrtd))
      {
        RootIsQuadraticZero(s, ray, t);
        Quadratic.RootsOfQuadratic(a, halfB, c, sqrtd, t);
      }
    }
  }

  /** `Sphere::hit` reports the smallest root in `[tMin, tMax]`: on success the
      parameter is a root and no root lies in `[tMin, t)`; on failure no root
      lies in the interval at all. */
  lemma HitIsNearestRoot(s: Sphere, ray: Ray, tMin: real, tMax: Bound,
                         rec: HitRecord, sqrt: real -> real)
    requires IsSqrt(sqrt)
    requires Solvable(s, ray)
    ensures var r := Hit(s, ray, tMin, tMax, rec, sqrt);
      (r.hit ==> IsRoot(s, ray, r.rec.t)) &&
      (r.hit ==> forall t :: tMin <= t < r.rec.t ==> !IsRoot(s, ray, t)) &&
      (!r.hit ==> forall t :: InRange(t, tMin, tMax) ==> !IsRoot(s, ray, t))
  {
    RootsOfRay(s, ray, sqrt);
  }

  /** The sphere reports a hit exactly when one of its roots lies in the
      interval; in particular a negative discriminant means no hit. */
  lemma HitIffRootInRange(s: Sphere, ray: Ray, tMin: real, tMax: Bound,
                          rec: HitRecord, sqrt: real -> real)
    requires IsSqrt(sqrt)
    requires Solvable(s, ray)
    ensures Hit(s, ray, tMin, tMax, rec, sqrt).hit
        <==> exists t :: InRange(t, tMin, tMax) && IsRoot(s, ray, t)
    ensures Discriminant(s, ray) < 0.0 ==> !Hit(s, ray, tMin, tMax, rec, sqrt).hit
  {
    HitIsNearestRoot(s, ray, tMin, tMax, rec, sqrt);
    RootsOfRay(s, ray, sqrt);
  }

  /** On success the record is the one `Record` builds from the reported
      parameter, whatever `rec` held before. */
  lemma HitWritesRecord(s: Sphere, ray: Ray, tMin: real, tMax: Bound,
                        rec: HitRecord, sqrt: real -> real)
    requires IsSqrt(sqrt)
    requires Solvable(s, ray)
    ensures var r := Hit(s, ray, tMin, tMax, rec, sqrt);
      r.hit ==> r.rec == Record(s, ray, r.rec.t, DefaultRecord)
  {
  }

  /** At a surface point `p`, `(p - center) / radius` has unit length. */
  lemma OutwardNormalIsUnit(p: Vec3, center: Vec3, radius: real)
    requires radius != 0.0
    requires LengthSquared(Sub(p, center)) == radius * radius
    ensures LengthSquared(Div(Sub(p, center), radius)) == 1.0
  {
    var v := Sub(p, center);
    LengthSquaredMul(v, 1.0 / radius);
    ReciprocalSquare(radius, LengthSquared(v));
  }

  /** A record built at a root has a unit normal facing against the ray and
      lies on the ray at its parameter. */
  lemma RecordAtRoot(s: Sphere, ray: Ray, t: real)
    requires s.radius != 0.0
    requires IsRoot(s, ray, t)
    ensures var rec := Record(s, ray, t, DefaultRecord);
      rec.t == t && rec.p == At(ray, t) &&
      LengthSquared(rec.normal) == 1.0 &&
      Dot(ray.direction, rec.normal) <= 0.0
  {
    OutwardNormalIsUnit(At(ray, t), s.center, s.radius);
  }

  /** On success the point lies on the sphere, the outward normal
      `(p - center) / radius` has unit length, and the stored normal is that
      normal when the ray arrives from outside and its negation otherwise, a
      grazing ray included; either way it faces against the ray. */
  lemma HitNormalIsUnit(s: Sphere, ray: Ray, tMin: real, tMax: Bound,
                        rec: HitRecord, sqrt: real -> real)
    requires IsSqrt(sqrt)
    requires Solvable(s, ray)
    ensures var r := Hit(s, ray, tMin, tMax, rec, sqrt);
      r.hit ==>
        var outward := Div(Sub(r.rec.p, s.center), s.radius);
        LengthSquared(Sub(r.rec.p, s.center)) == s.radius * s.radius &&
        LengthSquared(outward) == 1.0 &&
        r.rec.normal == (if r.rec.frontFace then outward else Neg(outward)) &&
        (r.rec.frontFace <==> Dot(ray.direction, outward) < 0.0) &&
        Dot(ray.direction, r.rec.normal) <= 0.0 &&
        LengthSquared(r.rec.normal) == 1.0
  {
    var r := Hit(s, ray, tMin, tMax, rec, sqrt);
    if r.hit {
      HitIsNearestRoot(s, ray, tMin, tMax, rec, sqrt);
      HitWritesRecord(s, ray, tMin, tMax, rec, sqrt);
      OutwardNormalIsUnit(r.rec.p, s.center, s.radius);
    }
  }
}
