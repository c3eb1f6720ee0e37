/** Rays: an origin and a direction that need not be unit length. The source's
    src/ray.rs is not part of this model; `At` follows its use at
    src/sphere.rs:47. */
module Rays {
  import opened Vectors

  datatype Ray = Ray(origin: Vec3, direction: Vec3)

  /** The point `origin + direction * t`. */
  function At(ray: Ray, t: real): Vec3 {
    Add(ray.origin, Mul(ray.direction, t))
  }

  /** The ray starts at its origin, and moving along it by `t` covers `t`
      times the direction: `At(t) - origin == direction * t`. */
  lemma AtOffset(ray: Ray, t: real)
    ensures At(ray, 0.0) == ray.origin
    ensures Sub(At(ray, t), ray.origin) == Mul(ray.direction, t)
  {
  }
}
