/** The scene of src/hittable_list.rs: an ordered list of spheres that answers
    a hit query with the nearest hit of any member. The source stores
    `Rc<RefCell<dyn Hittable>>`; the only primitive is the sphere, so the list
    holds spheres directly. */
module HittableLists {
  import opened Vectors
  import opened Rays
  import opened Hittables
  import opened Spheres

  datatype HittableList = HittableList(objects: seq<Sphere>)

  /** `HittableList::new()`: the empty scene. */
  function New(): (l: HittableList)
    ensures |l.objects| == 0
  {
    HittableList([])
  }

  /** `add`: the new member goes last and the earlier ones keep their order. */
  function Add(l: HittableList, s: Sphere): (r: HittableList)
    ensures |r.objects| == |l.objects| + 1
    ensures r.objects[|l.objects|] == s
    ensures forall i :: 0 <= i < |l.objects| ==> r.objects[i] == l.objects[i]
  {
    HittableList(l.objects + [s])
  }

  /** Every member can be intersected with `ray` without dividing by zero. */
  predicate AllSolvable(objects: seq<Sphere>, ray: Ray) {
    forall i :: 0 <= i < |objects| ==> Solvable(objects[i], ray)
  }

  /** No member has a root in `[tMin, t)`. */
  ghost predicate NoRootBelow(objects: seq<Sphere>, ray: Ray, tMin: real, t: real) {
    forall j, u :: 0 <= j < |objects| && tMin <= u < t ==> !IsRoot(objects[j], ray, u)
  }

  /** No member has a root in `[tMin, tMax]`. */
  ghost predicate NoRootIn(objects: seq<Sphere>, ray: Ray, tMin: real, tMax: Bound) {
    forall j, u :: 0 <= j < |objects| && InRange(u, tMin, tMax) ==> !IsRoot(objects[j], ray, u)
  }

  /** No member has `t` as a root. */
  ghost predicate NoRootAt(objects: seq<Sphere>, ray: Ray, t: real) {
    forall j :: 0 <= j < |objects| ==> !IsRoot(objects[j], ray, t)
  }

  /** Member `j` has a root at `rec.t`, `rec` is the record it writes there,
      and no later member has a root at `rec.t`. */
  ghost predicate WrittenAt(objects: seq<Sphere>, ray: Ray, rec: HitRecord, j: int) {
    0 <= j < |objects| && objects[j].radius != 0.0 &&
    IsRoot(objects[j], ray, rec.t) && rec == Record(objects[j], ray, rec.t, DefaultRecord) &&
    NoRootAt(objects[j + 1..], ray, rec.t)
  }

  /** The record is the one written by the last member with a root at `rec.t`. */
  ghost predicate WrittenByLast(objects: seq<Sphere>, ray: Ray, rec: HitRecord) {
    exists j :: WrittenAt(objects, ray, rec, j)
  }

  /** The remaining iterations of the loop of `HittableList::hit` over
      `objects`, from a state with bound `closest`, best result `best`
      (`hit_anything` and `rec`) and scratch record `temp`. */
  function Scan(objects: seq<Sphere>, ray: Ray, tMin: real, closest: Bound,
                best: Probe, temp: HitRecord, sqrt: real -> real): (r: Probe)
    requires IsSqrt(sqrt)
    requires AllSolvable(objects, ray)
    ensures best.hit ==> r.hit
    ensures !r.hit ==> r == best
    decreases |objects|
  {
    if |objects| == 0 then
      best
    else
      var p := Hit(objects[0], ray, tMin, closest, temp, sqrt);
      if p.hit then
        Scan(objects[1..], ray, tMin, Finite(p.rec.t), Probe(true, p.rec), p.rec, sqrt)
      else
        Scan(objects[1..], ray, tMin, closest, best, p.rec, sqrt)
  }

  /** `HittableList::hit`: scan with `closest_so_far = t_max`,
      `hit_anything = false` and a default scratch record. A miss leaves `rec`
      as it was; a hit lies in `[tMin, tMax]` on the surface of some member. */
  function ListHit(list: HittableList, ray: Ray, tMin: real, tMax: Bound,
                   rec: HitRecord, sqrt: real -> real): (r: Probe)
    requires IsSqrt(sqrt)
    requires AllSolvable(list.objects, ray)
    ensures !r.hit ==> r.rec == rec
    ensures r.hit ==> InRange(r.rec.t, tMin, tMax)
    ensures r.hit ==> exists j :: 0 <= j < |list.objects| && IsRoot(list.objects[j], ray, r.rec.t)
  {
    var best := Probe(false, rec);
    ScanIsNearest(list.objects, ray, tMin, tMax, best, DefaultRecord, sqrt);
    Scan(list.objects, ray, tMin, tMax, best, DefaultRecord, sqrt)
  }

  /** What the remaining scan guarantees, given that `closest` is the bound the
      best hit so far set: a final miss found no root up to `closest`; a final
      hit lies below `closest` and no member has a root in front of it; and the
      final record is either the earlier best, kept because no remaining member
      has a root at its `t`, or the one written by the last remaining member
      with a root at its `t`. */
  lemma {:induction false} ScanIsNearest(objects: seq<Sphere>, ray: Ray, tMin: real,
                                         closest: Bound, best: Probe, temp: HitRecord,
                                         sqrt: real -> real)
    requires IsSqrt(sqrt)
    requires AllSolvable(objects, ray)
    requires best.hit ==> closest == Finite(best.rec.t) && tMin <= best.rec.t
    ensures var r := Scan(objects, ray, tMin, closest, best, temp, sqrt);
      (!r.hit ==> NoRootIn(objects, ray, tMin, closest)) &&
      (r.hit ==> InRange(r.rec.t, tMin, closest)) &&
      (r.hit ==> NoRootBelow(objects, ray, tMin, r.rec.t)) &&
      (r.hit ==> (best.hit && r.rec == best.rec && NoRootAt(objects, ray, r.rec.t)) ||
                 WrittenByLast(objects, ray, r.rec))
    decreases |objects|
  {
    if |objects| > 0 {
      var s0, rest := objects[0], objects[1..];
      assert forall j :: 0 <= j < |rest| ==> rest[j] == objects[j + 1];
      var p := Hit(s0, ray, tMin, closest, temp, sqrt);
      HitIsNearestRoot(s0, ray, tMin, closest, temp, sqrt);
      var r := Scan(objects, ray, tMin, closest, best, temp, sqrt);
      if p.hit {
        HitWritesRecord(s0, ray, tMin, closest, temp, sqrt);
        ScanIsNearest(rest, ray, tMin, Finite(p.rec.t), Probe(true, p.rec), p.rec, sqrt);
        assert r == Scan(rest, ray, tMin, Finite(p.rec.t), Probe(true, p.rec), p.rec, sqrt);
        if WrittenByLast(rest, ray, r.rec) {
          var j :| WrittenAt(rest, ray, r.rec, j);
          // behind the first member, the writer's index shifts by one
          assert rest[j + 1..] == objects[j + 2..];
          assert WrittenAt(objects, ray, r.rec, j + 1);
        } else {
          assert objects[1..] == rest;
          assert WrittenAt(objects, ray, r.rec, 0);
        }
      } else {
        ScanIsNearest(rest, ray, tMin, closest, best, p.rec, sqrt);
        assert r == Scan(rest, ray, tMin, closest, best, p.rec, sqrt);
        if r.hit {
          if WrittenByLast(rest, ray, r.rec) {
            var j :| WrittenAt(rest, ray, r.rec, j);
            assert rest[j + 1..] == objects[j + 2..];
            assert WrittenAt(objects, ray, r.rec, j + 1);
          } else {
            assert InRange(best.rec.t, tMin, closest);
            assert !IsRoot(s0, ray, best.rec.t);
          }
        }
      }
    }
  }

  /** The scene's answer: a miss leaves `rec` as it was and means no member
      has a root in `[tMin, tMax]`; a hit lies in that interval, no member has
      a root before it, and its record is the one written by the last member
      with a root at that `t` (the bound check is inclusive, so on a tie the
      later member overwrites the earlier one). */
  lemma ListHitNearest(list: HittableList, ray: Ray, tMin: real, tMax: Bound,
                       rec: HitRecord, sqrt: real -> real)
    requires IsSqrt(sqrt)
    requires AllSolvable(list.objects, ray)
    ensures var r := ListHit(list, ray, tMin, tMax, rec, sqrt);
      (!r.hit ==> r.rec == rec && NoRootIn(list.objects, ray, tMin, tMax)) &&
      (r.hit ==> InRange(r.rec.t, tMin, tMax)) &&
      (r.hit ==> NoRootBelow(list.objects, ray, tMin, r.rec.t)) &&
      (r.hit ==> WrittenByLast(list.objects, ray, r.rec))
  {
    ScanIsNearest(list.objects, ray, tMin, tMax, Probe(false, rec), DefaultRecord, sqrt);
  }

  /** The scene reports a hit exactly when some member has a root in
      `[tMin, tMax]`. */
  lemma ListHitIffSomeRoot(list: HittableList, ray: Ray, tMin: real, tMax: Bound,
                           rec: HitRecord, sqrt: real -> real)
    requires IsSqrt(sqrt)
    requires AllSolvable(list.objects, ray)
    ensures ListHit(list, ray, tMin, tMax, rec, sqrt).hit <==>
      exists j, t :: 0 <= j < |list.objects| && InRange(t, tMin, tMax) &&
                     IsRoot(list.objects[j], ray, t)
  {
    ListHitNearest(list, ray, tMin, tMax, rec, sqrt);
    var r := ListHit(list, ray, tMin, tMax, rec, sqrt);
    if r.hit {
      var j :| WrittenAt(list.objects, ray, r.rec, j);
      assert InRange(r.rec.t, tMin, tMax) && IsRoot(list.objects[j], ray, r.rec.t);
    }
  }

  /** The empty scene misses and leaves `rec` as it was. */
  lemma EmptyListMisses(ray: Ray, tMin: real, tMax: Bound, rec: HitRecord,
                        sqrt: real -> real)
    requires IsSqrt(sqrt)
    ensures ListHit(New(), ray, tMin, tMax, rec, sqrt) == Probe(false, rec)
  {
  }

  /** The nearest `t` is a minimum over the members, so two scenes holding the
      same spheres in any order agree on whether and where the ray hits. */
  lemma ListHitOrderIndependent(l1: HittableList, l2: HittableList, ray: Ray,
                                tMin: real, tMax: Bound, rec: HitRecord,
                                sqrt: real -> real)
    requires IsSqrt(sqrt)
    requires AllSolvable(l1.objects, ray) && AllSolvable(l2.objects, ray)
    requires multiset(l1.objects) == multiset(l2.objects)
    ensures var r1, r2 := ListHit(l1, ray, tMin, tMax, rec, sqrt),
                          ListHit(l2, ray, tMin, tMax, rec, sqrt);
      r1.hit == r2.hit && (r1.hit ==> r1.rec.t == r2.rec.t)
  {
    var r1 := ListHit(l1, ray, tMin, tMax, rec, sqrt);
    var r2 := ListHit(l2, ray, tMin, tMax, rec, sqrt);
    ListHitNearest(l1, ray, tMin, tMax, rec, sqrt);
    ListHitNearest(l2, ray, tMin, tMax, rec, sqrt);
    // The member that wrote a hit is also a member of the other scene.
    if r1.hit {
      var j :| WrittenAt(l1.objects, ray, r1.rec, j);
      assert l1.objects[j] in multiset(l2.objects);
    }
    if r2.hit {
      var j :| WrittenAt(l2.objects, ray, r2.rec, j);
      assert l2.objects[j] in multiset(l1.objects);
    }
  }

  /** A scene hit carries a unit normal that faces against the ray. */
  lemma ListHitNormal(list: HittableList, ray: Ray, tMin: real, tMax: Bound,
                      rec: HitRecord, sqrt: real -> real)
    requires IsSqrt(sqrt)
    requires AllSolvable(list.objects, ray)
    ensures var r := ListHit(list, ray, tMin, tMax, rec, sqrt);
      r.hit ==> LengthSquared(r.rec.normal) == 1.0 && Dot(ray.direction, r.rec.normal) <= 0.0
  {
    ListHitNearest(list, ray, tMin, tMax, rec, sqrt);
    var r := ListHit(list, ray, tMin, tMax, rec, sqrt);
    if r.hit {
      var j :| WrittenAt(list.objects, ray, r.rec, j);
      RecordAtRoot(list.objects[j], ray, r.rec.t);
    }
  }

  /** `HittableList::hit` as the source writes it: a loop over the members
      that narrows `closest_so_far` to each reported hit and copies the scratch
      record into `rec`. It computes exactly the fold `ListHit`. */
  method WorldHit(list: HittableList, ray: Ray, tMin: real, tMax: Bound,
                  rec0: HitRecord, sqrt: real -> real)
    returns (hitAnything: bool, rec: HitRecord)
    requires IsSqrt(sqrt)
    requires AllSolvable(list.objects, ray)
    ensures Probe(hitAnything, rec) == ListHit(list, ray, tMin, tMax, rec0, sqrt)
    ensures !hitAnything ==> rec == rec0
    ensures hitAnything ==> InRange(rec.t, tMin, tMax)
  {
    var objects := list.objects;
    var temp := DefaultRecord;
    hitAnything := false;
    var closest := tMax;
    rec := rec0;
    var i := 0;
    while i < |objects|
      invariant 0 <= i <= |objects|
      invariant BoundLe(closest, tMax)
      invariant hitAnything ==> closest == Finite(rec.t) && InRange(rec.t, tMin, tMax)
      invariant !hitAnything ==> closest == tMax && rec == rec0
      invariant Scan(objects[i..], ray, tMin, closest, Probe(hitAnything, rec), temp, sqrt)
             == ListHit(list, ray, tMin, tMax, rec0, sqrt)
    {
      ghost var before := closest;
      var p := Hit(objects[i], ray, tMin, closest, temp, sqrt);
      temp := p.rec;
      if p.hit {
        hitAnything := true;
        closest := Finite(temp.t);
        rec := temp;
      }
      // `closest_so_far` never grows
      assert BoundLe(closest, before);
      assert objects[i..][1..] == objects[i + 1..];
      i := i + 1;
    }
  }
}
