/** The hit record and the interval bound shared by every intersectable. The
    source's src/hittable.rs is not part of this model; the record and the
    face-normal rule follow their uses at src/sphere.rs:46-50 and
    src/main.rs:61-64. */
module Hittables {
  import opened Vectors
  import opened Rays

  /** What an intersection test writes: the point, the normal (always facing
      against the ray), the ray parameter and whether the ray hit the outside. */
  datatype HitRecord = HitRecord(p: Vec3, normal: Vec3, t: real, frontFace: bool)

  /** `HitRecord::default()`: all zeros and `front_face == false`. */
  const DefaultRecord := HitRecord(Zero, Zero, 0.0, false)

  /** The upper end of a query interval; `Infinity` stands for `util::INFINITY`,
      above every real. */
  datatype Bound = Finite(value: real) | Infinity

  /** `t` lies in the closed interval `[tMin, tMax]`. */
  predicate InRange(t: real, tMin: real, tMax: Bound) {
    tMin <= t && (tMax.Finite? ==> t <= tMax.value)
  }

  /** `b` is no larger than `c`. */
  predicate BoundLe(b: Bound, c: Bound) {
    c.Infinity? || (b.Finite? && b.value <= c.value)
  }

  /** The result of `hit(ray, t_min, t_max, &mut rec) -> bool`: the returned flag
      and the record as it stands afterwards. */
  datatype Probe = Probe(hit: bool, rec: HitRecord)

  /** `set_face_normal`: keep the outward normal when the ray arrives from
      outside (`direction . outward < 0`), otherwise flip it; record which. The
      point and parameter are left as they are. */
  function SetFaceNormal(rec: HitRecord, ray: Ray, outward: Vec3): (r: HitRecord)
    ensures r.p == rec.p && r.t == rec.t
    ensures r.frontFace <==> Dot(ray.direction, outward) < 0.0
    ensures r.normal == if r.frontFace then outward else Neg(outward)
    ensures Dot(ray.direction, r.normal) <= 0.0
    ensures LengthSquared(r.normal) == LengthSquared(outward)
  {
    var front := Dot(ray.direction, outward) < 0.0;
    LengthSquaredNeg(outward);
    rec.(frontFace := front, normal := if front then outward else Neg(outward))
  }
}
