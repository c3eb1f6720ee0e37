# Ray–scene intersection of a small Rust ray tracer, in Dafny

This project models the core of the Rust ray tracer *Ray Tracing in One
Weekend* over Dafny's exact `real` numbers instead of `f64`, and proves its
properties. The core covers:

- **Vectors** (`vec3.dfy`, src/vec3.rs): `Vec3` with negation, addition,
  subtraction, scaling, division by a scalar, dot and cross products, squared
  length, length and `unit_vector`.
- **Rays** (`ray.dfy`): `Ray` and `at(t) = origin + direction * t`.
- **Hit records** (`hittable.dfy`): the hit record, the query interval
  `[t_min, t_max]` with an unbounded upper end, and `set_face_normal`.
- **Quadratic** (`quadratic.dfy`): the half-b quadratic that the sphere test
  solves.
- **Spheres** (`sphere.dfy`, src/sphere.rs): `Sphere::hit`. It takes the nearer
  root if it lies in the closed interval, otherwise the farther one, otherwise
  nothing. The record is written only on success.
- **Hittable lists** (`hittable_list.dfy`, src/hittable_list.rs):
  `HittableList::new`, `add` and `hit`. `hit` scans the members in order and
  narrows `closest_so_far` to every hit a member reports. It appears twice:
  - `WorldHit`, the loop as written;
  - `ListHit`, an equivalent fold. The lemmas are stated over the fold.
- **Render** (`main.dfy`, src/main.rs): `ray_color`, which queries the world
  over `[0, infinity]`. A hit maps the unit normal from `[-1, 1]` to a colour in
  `[0, 1]`. A miss blends white into sky blue by the height of the unit
  direction. The module also holds the two-sphere scene the program renders.

Modelling choices:

- **Square root.** Dafny's reals have no square root. Every operation that
  needs one takes a function `sqrt: real -> real` and requires `IsSqrt(sqrt)`:
  for every `v >= 0`, `sqrt(v) >= 0` and `sqrt(v) * sqrt(v) == v`.
- **Results.** `hit(&ray, t_min, t_max, &mut rec) -> bool` becomes a function
  returning `Probe(hit, rec)`. Here `rec` is the record as it stands after the
  call.
- **Upper bound.** `t_max` is a `Bound`, either `Finite(v)` or `Infinity`.
  `Infinity` stands for `util::INFINITY`.
- **Spheres and roots.** A sphere is `Sphere(center, radius)`, the constructor
  `Sphere::new`. "`t` is a root" means that `at(t)` lies on the sphere's
  surface: `|at(t) - center|^2 == radius^2`.

The file src/sphere.rs:25 says the sphere test returns "the smallest
(positive) value of t". The code returns the smallest root in
`[t_min, t_max]`, which may be negative when `t_min` is. The model follows the
code.

## Model

| member | source | states |
|---|---|---|
| Vectors.Length | src/vec3.rs:72-78 | the length is non-negative, its square is the squared length, and it is positive for a vector of positive squared length |
| Vectors.UnitVector | src/vec3.rs:91-93 | the unit vector has squared length 1, and scaling it by the original length gives back the original vector |
| Vectors.AddSubInverse | src/vec3.rs:122-142 | `(a - b) + b == a` and `(a + b) - b == a` |
| Vectors.NegIsAdditiveInverse | src/vec3.rs:111-142 | `a + (-a)` is the zero vector, `a - b == a + (-b)`, and `-(-a) == a` |
| Vectors.DotSymmetric | src/vec3.rs:80-82 | `dot(a, b) == dot(b, a)` |
| Vectors.DotSelf | src/vec3.rs:76-82 | `dot(v, v) == length_squared(v)`, this is never negative, and it is 0 for the zero vector |
| Vectors.CrossOrthogonal | src/vec3.rs:84-89 | `cross(a, b)` is orthogonal to both `a` and `b` |
| Vectors.CrossAntiCommutative | src/vec3.rs:84-89 | `cross(a, b) == -cross(b, a)` |
| Vectors.MulDivCancel | src/vec3.rs:144-161 | for `t != 0`: `v / t == v * (1/t)`, `(v * t) / t == v` and `(v / t) * t == v` |
| Vectors.LengthSquaredMul | src/vec3.rs:144-153 | scaling by `k` multiplies the squared length by `k * k` |
| Vectors.LengthSquaredNeg | src/vec3.rs:111-120 | negation keeps the squared length |
| Vectors.UnitComponentsBounded | src/vec3.rs:91-93 | every component of a vector of squared length 1 lies in `[-1, 1]` |
| Rays.AtOffset | src/sphere.rs:47 | the ray starts at its origin, and `at(t) - origin == direction * t` |
| Hittables.SetFaceNormal | src/sphere.rs:48-50 | keeps `p` and `t`; `front_face` holds exactly when the ray meets the outward normal head-on (`direction . outward < 0`); the stored normal is the outward one on the front face and its negation otherwise, a grazing ray (`direction . outward == 0`) included; it faces against the ray and has the outward normal's squared length |
| Quadratic.CompletedSquare | src/sphere.rs:29-33 | `a * q(t) == (a*t + half_b)^2 - discriminant` for the solver's quadratic `q` |
| Quadratic.RootsOfQuadratic | src/sphere.rs:37-41 | with `a > 0` and `sqrtd` the root of a non-negative discriminant, `q(t) == 0` exactly when `t` is the nearer or the farther root |
| Quadratic.NoRealRoots | src/sphere.rs:33-36 | a negative discriminant leaves `q` with no real root |
| Quadratic.RootsOrdered | src/sphere.rs:39-41 | the nearer root `(-half_b - sqrtd)/a` never exceeds the farther one |
| Spheres.Hit | src/sphere.rs:27-53 | a miss leaves `rec` as it was; a hit lies in the closed interval `[t_min, t_max]` and its point is `at(t)` |
| Spheres.RootIsQuadraticZero | src/sphere.rs:18-33 | `at(t)` lies on the sphere exactly when `t` solves the solver's quadratic `a t^2 + 2 half_b t + c` |
| Spheres.RootsOfRay | src/sphere.rs:29-41 | with a negative discriminant no `t` puts the ray on the sphere; otherwise exactly the nearer and the farther root do, nearer first |
| Spheres.HitIsNearestRoot | src/sphere.rs:38-45 | a hit's `t` is a root and no root lies in `[t_min, t)`, so it is the smallest root in the interval; a miss means no root lies in the interval |
| Spheres.HitIffRootInRange | src/sphere.rs:33-45 | the sphere reports a hit exactly when some root lies in `[t_min, t_max]`; a negative discriminant means no hit |
| Spheres.HitWritesRecord | src/sphere.rs:46-50 | a hit's record is the one built from the chosen root alone, whatever `rec` held before |
| Spheres.OutwardNormalIsUnit | src/sphere.rs:47-49 | for a nonzero radius, `(p - center) / radius` at a surface point has squared length 1 |
| Spheres.RecordAtRoot | src/sphere.rs:46-50 | the record built at a root holds that `t` and `at(t)`, and a unit normal facing against the ray |
| Spheres.HitNormalIsUnit | src/sphere.rs:46-50 | on a hit the point is on the sphere and the outward normal is a unit vector. The stored normal is the outward one when `front_face` holds and its negation otherwise, with `front_face` holding exactly when the ray meets the outward normal head-on. That normal faces against the ray and is a unit vector |
| HittableLists.New | src/hittable_list.rs:9-11 | the new list is empty |
| HittableLists.Add | src/hittable_list.rs:12-14 | the list grows by one, the new member is last, and earlier members keep their places |
| HittableLists.Scan | src/hittable_list.rs:23-32 | once a hit has been recorded the scan still ends with a hit; a scan that ends without a hit leaves the flag and `rec` as they were |
| HittableLists.ListHit | src/hittable_list.rs:18-34 | the fold that stands for `HittableList::hit`: a miss leaves `rec` as it was; a hit lies in `[t_min, t_max]` and is a root of some member |
| HittableLists.ScanIsNearest | src/hittable_list.rs:21-33 | the inductive invariant of the scan. A miss means no remaining member has a root up to the current bound. A hit lies under the bound and has no member root before it. The record is either the earlier best, kept because no remaining member has a root at its `t`, or the record of the last remaining member with a root there |
| HittableLists.ListHitNearest | src/hittable_list.rs:18-34 | a miss leaves `rec` unchanged and means no member has a root in `[t_min, t_max]`. A hit lies in the interval and no member has a root before it, so it is the global nearest. Its record is the one written by the last member with a root at that `t`, so on a tie the later member wins |
| HittableLists.ListHitIffSomeRoot | src/hittable_list.rs:20-33 | the list reports a hit exactly when some member has a root in `[t_min, t_max]` |
| HittableLists.EmptyListMisses | src/hittable_list.rs:19-33 | the empty list misses and leaves `rec` unchanged |
| HittableLists.ListHitOrderIndependent | src/hittable_list.rs:23-31 | two lists holding the same spheres in any order agree on whether the ray hits and at which `t` |
| HittableLists.ListHitNormal | src/hittable_list.rs:24-30 | a list hit carries a unit normal that faces against the ray |
| HittableLists.WorldHit | src/hittable_list.rs:18-34 | the loop computes exactly the fold `ListHit`. A miss leaves `rec` as given. A hit lies in `[t_min, t_max]`. Its invariants keep `closest_so_far` at or below `t_max`, equal to `t_max` with `rec` untouched until the first hit, and equal to `rec.t` after it |
| Render.Background | src/main.rs:66-69 | the miss colour has red in `[0.5, 1]`, green in `[0.7, 1]` and blue exactly 1 |
| Render.RayColor | src/main.rs:60-71 | every channel lies in `[0, 1]`; on a hit the colour decodes back to the hit normal (`2c - (1,1,1) == normal`); on a miss the red, green and blue bounds of the gradient hold |
| Render.BackgroundEndpoints | src/main.rs:67-69 | looking straight up gives `(0.5, 0.7, 1.0)` and straight down gives `(1, 1, 1)`, whatever the direction's length |
| Render.Scene | src/main.rs:21-23 | the scene holds the small sphere and then the ground sphere, in insertion order |
| Render.SphereAheadQuadratic | src/sphere.rs:29-33 | for a sphere of radius `r` centred `d` straight ahead of the centre ray: `a = 1`, `half_b = -d`, discriminant `r^2` |
| Render.SphereAheadRecord | src/sphere.rs:46-50 | at `t = d - r` the record has point `(0, 0, r - d)`, normal `(0, 0, 1)` and the front face |
| Render.SphereAheadHit | src/sphere.rs:29-50 | such a sphere, with `0 < r < d`, is hit at `t = d - r` on its front with normal `(0, 0, 1)`, under any bound from `d - r` up |
| Render.SphereOffAxisMissed | src/sphere.rs:33-36 | any sphere centred at `(x, y, -d)` with `radius^2 < x^2 + y^2`, i.e. further off the centre ray's line than its radius, has a negative discriminant and is missed under any bound |
| Render.AheadThenOffAxis | src/hittable_list.rs:23-33 | a list of such a sphere ahead followed by a sphere centred `h > radius` straight below the ray's line reports the first sphere's record at `t = d - r`, whatever record the query started from |
| Render.SceneCentreHit | src/main.rs:21-23 | in the rendered scene the ray from the origin along `(0, 0, -1)` hits the small sphere at `t = 0.5`, at point `(0, 0, -0.5)`, with normal `(0, 0, 1)`, on its front; the ground sphere on its own misses that ray under any bound |
| Render.SceneCentreColour | src/main.rs:62-64 | that ray's pixel colour is `(0.5, 0.5, 1.0)` |

## Left out

- Floating point: `f64` rounding, NaN and infinity propagation. Everything is over exact reals; `util::INFINITY` is the `Infinity` bound.
- The square root: `f64::sqrt` is a parameter constrained by `IsSqrt`, because Dafny's reals have no square root.
- Spheres.Hit: requires a ray direction with positive squared length and a nonzero radius, because the source divides by `a` and by the radius unguarded.
- Vectors.UnitVector: requires a vector of positive squared length, because the source divides by the zero length otherwise; `Vectors.Div` likewise requires a nonzero divisor.
- Render.RayColor: requires a nonzero ray direction and nonzero radii, for the same two unguarded divisions.
- The vector operators (`Neg`, `Add`, `Sub`, `Mul`, `Div`, `Dot`, `Cross`, `LengthSquared`) are component-wise definitions with no contracts of their own. Their algebraic laws are stated as the lemmas above.
- Rays.At (`Ray::at`) and Spheres.Record (the record written at src/sphere.rs:46-50) are also definitions with no contracts of their own. `Rays.AtOffset` states `At`'s properties. `Spheres.RecordAtRoot`, `Spheres.HitWritesRecord` and `Spheres.HitNormalIsUnit` state `Record`'s.
- `HittableList` holds spheres directly. The source's `Rc<RefCell<dyn Hittable>>` dispatch only ever holds spheres here and changes nothing observable.
- src/ray.rs, src/hittable.rs and src/util.rs are not part of this model. `Ray::at`, `HitRecord`, `HitRecord::default`, `set_face_normal` and `util::INFINITY` are modelled from their uses at src/sphere.rs:46-50 and src/main.rs:61-62.
- `main()`'s camera set-up, pixel loop, PPM header and progress output (src/main.rs:14-58): this is I/O. The scene it builds at src/main.rs:21-23 is modelled.
- `write_color` and `fmt::Display` (src/vec3.rs:96-109): these only print.
- src/color.rs: gamma correction, clamping and printing. It is not wired into the program.
- Any recursive diffuse-bounce or random-sampling estimator: the program has none.
