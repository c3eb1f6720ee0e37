/** `ray_color` of src/main.rs and the two-sphere scene it renders: a hit is
    shaded by mapping its normal from `[-1, 1]` to `[0, 1]` per channel, a miss
    by a vertical gradient from white (looking down) to sky blue (looking up). */
module Render {
  import opened Vectors
  import opened Rays
  import opened Hittables
  import opened Spheres
  import HittableLists

  const White := Vec3(1.0, 1.0, 1.0)
  const SkyBlue := Vec3(0.5, 0.7, 1.0)

  /** The miss colour: blend white and sky blue by how far the unit direction
      points up. */
  function Background(direction: Vec3, sqrt: real -> real): (c: Vec3)
    requires IsSqrt(sqrt)
    requires 0.0 < LengthSquared(direction)
    ensures 0.5 <= c.x <= 1.0 && 0.7 <= c.y <= 1.0 && c.z == 1.0
  {
    var unit := UnitVector(direction, sqrt);
    UnitComponentsBounded(unit);
    var t := 0.5 * (unit.y + 1.0);
    Add(Mul(White, 1.0 - t), Mul(SkyBlue, t))
  }

  /** `ray_color`: query the scene over `[0, infinity]` from a default record.
      A hit's colour decodes back to its normal, and every channel of either
      colour lies in `[0, 1]`. */
  function RayColor(ray: Ray, world: HittableLists.HittableList, sqrt: real -> real): (c: Vec3)
    requires IsSqrt(sqrt)
    requires 0.0 < LengthSquared(ray.direction)
    requires HittableLists.AllSolvable(world.objects, ray)
    ensures 0.0 <= c.x <= 1.0 && 0.0 <= c.y <= 1.0 && 0.0 <= c.z <= 1.0
    ensures var r := HittableLists.ListHit(world, ray, 0.0, Infinity, DefaultRecord, sqrt);
      r.hit ==> Sub(Mul(c, 2.0), White) == r.rec.normal
    ensures !HittableLists.ListHit(world, ray, 0.0, Infinity, DefaultRecord, sqrt).hit ==>
      0.5 <= c.x && 0.7 <= c.y && c.z == 1.0
  {
    var r := HittableLists.ListHit(world, ray, 0.0, Infinity, DefaultRecord, sqrt);
    if r.hit then
      HittableLists.ListHitNormal(world, ray, 0.0, Infinity, DefaultRecord, sqrt);
      UnitComponentsBounded(r.rec.normal);
      Mul(Add(r.rec.normal, White), 0.5)
    else
      Background(ray.direction, sqrt)
  }

  /** Looking straight up gives sky blue and straight down gives white,
      whatever the length of the direction. */
  lemma BackgroundEndpoints(d: Vec3, sqrt: real -> real)
    requires IsSqrt(sqrt)
    requires d.x == 0.0 && d.z == 0.0 && 0.0 < LengthSquared(d)
    ensures 0.0 < d.y ==> Background(d, sqrt) == SkyBlue
    ensures d.y < 0.0 ==> Background(d, sqrt) == White
  {
    var abs := if d.y < 0.0 then -d.y else d.y;
    var len := Length(d, sqrt);
    SqrtUnique(LengthSquared(d), len, abs);
    var unit := UnitVector(d, sqrt);
    assert unit.y == d.y * (1.0 / abs);
  }

  /** The two spheres of the rendered scene, added in the source's order: a
      small one straight ahead and a large one below acting as the ground. */
  function Scene(): (w: HittableLists.HittableList)
    ensures w.objects == [SmallSphere, GroundSphere]
  {
    HittableLists.Add(HittableLists.Add(HittableLists.New(), SmallSphere), GroundSphere)
  }

  /** The ray from the origin straight ahead, along `(0, 0, -1)`. */
  const CentreRay := Ray(Zero, Vec3(0.0, 0.0, -1.0))

  const SmallSphere := Sphere(Vec3(0.0, 0.0, -1.0), 0.5)
  const GroundSphere := Sphere(Vec3(0.0, -100.5, -1.0), 100.0)

  /** The record the small sphere writes where the centre ray meets it. */
  const SmallSphereRecord := HitRecord(Vec3(0.0, 0.0, -0.5), Vec3(0.0, 0.0, 1.0), 0.5, true)

  /** For a sphere of radius `r` centred at distance `d` straight ahead the
      centre ray's quadratic has `a = 1`, `half_b = -d` and discriminant
      `r * r`. */
  lemma SphereAheadQuadratic(d: real, r: real)
    ensures CoeffA(CentreRay) == 1.0
    ensures HalfB(Sphere(Vec3(0.0, 0.0, -d), r), CentreRay) == -d
    ensures Discriminant(Sphere(Vec3(0.0, 0.0, -d), r), CentreRay) == r * r
  {
    var s := Sphere(Vec3(0.0, 0.0, -d), r);
    assert Sub(CentreRay.origin, s.center) == Vec3(0.0, 0.0, d);
    assert CoeffC(s, CentreRay) == d * d - r * r;
  }

  /** At `t = d - r` the centre ray is on the sphere's front, at
      `(0, 0, r - d)`, where the outward normal is `(0, 0, 1)`, facing the
      ray. */
  lemma SphereAheadRecord(d: real, r: real, rec: HitRecord)
    requires 0.0 < r
    ensures Record(Sphere(Vec3(0.0, 0.0, -d), r), CentreRay, d - r, rec)
         == HitRecord(Vec3(0.0, 0.0, r - d), Vec3(0.0, 0.0, 1.0), d - r, true)
  {
    var s := Sphere(Vec3(0.0, 0.0, -d), r);
    var p := At(CentreRay, d - r);
    var outward := Vec3(0.0, 0.0, 1.0);
    assert p == Vec3(0.0, 0.0, r - d);
    assert Sub(p, s.center) == Mul(outward, r);
    MulDivCancel(outward, r);
    assert Dot(CentreRay.direction, outward) == -1.0;
  }

  /** A sphere of radius `r` centred at distance `d > r` straight ahead is met
      first at `t = d - r`, on its front, where the normal points back along
      the ray, for any upper bound from `d - r` up. */
  lemma SphereAheadHit(d: real, r: real, closest: Bound, rec: HitRecord, sqrt: real -> real)
    requires IsSqrt(sqrt)
    requires 0.0 < r < d
    requires BoundLe(Finite(d - r), closest)
    ensures Hit(Sphere(Vec3(0.0, 0.0, -d), r), CentreRay, 0.0, closest, rec, sqrt)
         == Probe(true, HitRecord(Vec3(0.0, 0.0, r - d), Vec3(0.0, 0.0, 1.0), d - r, true))
  {
    SphereAheadQuadratic(d, r);
    SqrtUnique(r * r, sqrt(r * r), r);
    assert Quadratic.NearRoot(1.0, -d, r) == d - r;
    SphereAheadRecord(d, r, rec);
  }

  /** A sphere centred at `(x, y, -d)` lies at distance `sqrt(x^2 + y^2)` from
      the centre ray's line; when that exceeds its radius the discriminant is
      negative and the sphere is missed under any bound. */
  lemma SphereOffAxisMissed(x: real, y: real, d: real, radius: real, closest: Bound,
                            rec: HitRecord, sqrt: real -> real)
    requires IsSqrt(sqrt)
    requires radius != 0.0 && radius * radius < x * x + y * y
    ensures Discriminant(Sphere(Vec3(x, y, -d), radius), CentreRay) < 0.0
    ensures !Hit(Sphere(Vec3(x, y, -d), radius), CentreRay, 0.0, closest, rec, sqrt).hit
  {
    var s := Sphere(Vec3(x, y, -d), radius);
    assert Discriminant(s, CentreRay) == radius * radius - (x * x + y * y);
  }

  lemma SquareMonotone(a: real, b: real)
    requires 0.0 < a < b
    ensures a * a < b * b
  {
    assert a * a < a * b;
    assert a * b < b * b;
  }

  /** A scene of a sphere straight ahead followed by one centred `h` below the
      ray's line, with `h` more than its radius: the first reports its front at `t = d - r` and
      the second, tried under the narrowed bound, misses, so the first
      sphere's record stands, whatever record the query started from. */
  lemma AheadThenOffAxis(d: real, r: real, h: real, d2: real, radius: real,
                         rec: HitRecord, sqrt: real -> real)
    requires IsSqrt(sqrt)
    requires 0.0 < r < d && 0.0 < radius < h
    ensures var world := HittableLists.HittableList(
                           [Sphere(Vec3(0.0, 0.0, -d), r), Sphere(Vec3(0.0, -h, -d2), radius)]);
      HittableLists.ListHit(world, CentreRay, 0.0, Infinity, rec, sqrt)
        == Probe(true, HitRecord(Vec3(0.0, 0.0, r - d), Vec3(0.0, 0.0, 1.0), d - r, true))
  {
    var first := HitRecord(Vec3(0.0, 0.0, r - d), Vec3(0.0, 0.0, 1.0), d - r, true);
    var second := Sphere(Vec3(0.0, -h, -d2), radius);
    SphereAheadHit(d, r, Infinity, DefaultRecord, sqrt);
    SquareMonotone(radius, h);
    SphereOffAxisMissed(0.0, -h, d2, radius, Finite(d - r), first, sqrt);
    assert [second][1..] == [];
    assert HittableLists.Scan([second], CentreRay, 0.0, Finite(d - r), Probe(true, first), first, sqrt)
        == Probe(true, first);
  }

  /** Querying the scene along the centre ray over `[0, infinity]` reports
      the small sphere's front at `t = 0.5` with normal `(0, 0, 1)`: the small
      sphere hits first and the ground sphere, tried with the narrowed bound,
      misses, as it would under any bound. */
  lemma SceneCentreHit(sqrt: real -> real)
    requires IsSqrt(sqrt)
    ensures HittableLists.ListHit(Scene(), CentreRay, 0.0, Infinity, DefaultRecord, sqrt)
         == Probe(true, SmallSphereRecord)
    ensures !Hit(GroundSphere, CentreRay, 0.0, Infinity, DefaultRecord, sqrt).hit
  {
    AheadThenOffAxis(1.0, 0.5, 100.5, 1.0, 100.0, DefaultRecord, sqrt);
    SphereOffAxisMissed(0.0, -100.5, 1.0, 100.0, Infinity, DefaultRecord, sqrt);
  }

  /** The pixel along the centre ray is `(0.5, 0.5, 1)`: the normal
      `(0, 0, 1)` mapped to a colour. */
  lemma SceneCentreColour(sqrt: real -> real)
    requires IsSqrt(sqrt)
    ensures RayColor(CentreRay, Scene(), sqrt) == Vec3(0.5, 0.5, 1.0)
  {
    SceneCentreHit(sqrt);
  }
}
