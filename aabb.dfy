/** Axis-aligned bounding boxes (src/aabb.rs): the scalar `min`/`max`, the
    union of two boxes and the per-axis slab test. */
module Boxes {

  import opened Vector
  import opened Rays
  import opened RealArith

  /** `min`: the smaller argument, `b` on ties. */
  function Min(a: real, b: real): (m: real)
    ensures m <= a && m <= b
    ensures m == a || m == b
  {
    if a < b then a else b
  }

  /** `max`: the larger argument, `b` on ties. */
  function Max(a: real, b: real): (m: real)
    ensures a <= m && b <= m
    ensures m == a || m == b
  {
    if a > b then a else b
  }

  datatype Aabb = Aabb(min: Vec3, max: Vec3)

  /** `min <= max` on every axis. */
  predicate WellFormed(b: Aabb) {
    b.min.x <= b.max.x && b.min.y <= b.max.y && b.min.z <= b.max.z
  }

  /** `outer` contains `inner` component by component. */
  predicate Encloses(outer: Aabb, inner: Aabb) {
    outer.min.x <= inner.min.x && outer.min.y <= inner.min.y && outer.min.z <= inner.min.z &&
    inner.max.x <= outer.max.x && inner.max.y <= outer.max.y && inner.max.z <= outer.max.z
  }

  predicate ContainsPoint(b: Aabb, p: Vec3) {
    b.min.x <= p.x <= b.max.x && b.min.y <= p.y <= b.max.y && b.min.z <= p.z <= b.max.z
  }

  /** `surrounding_box`: the component-wise minimum of the corners below and
      maximum above (`f32::min`/`f32::max`, which agree with `Min`/`Max` on
      every value that is not NaN). */
  function SurroundingBox(b0: Aabb, b1: Aabb): (r: Aabb)
    ensures Encloses(r, b0) && Encloses(r, b1)
    ensures WellFormed(b0) || WellFormed(b1) ==> WellFormed(r)
  {
    Aabb(Vec3(Min(b0.min.x, b1.min.x), Min(b0.min.y, b1.min.y), Min(b0.min.z, b1.min.z)),
         Vec3(Max(b0.max.x, b1.max.x), Max(b0.max.y, b1.max.y), Max(b0.max.z, b1.max.z)))
  }

  /** The union is the least box enclosing both inputs. */
  lemma SurroundingBoxIsLeast(b0: Aabb, b1: Aabb, c: Aabb)
    requires Encloses(c, b0) && Encloses(c, b1)
    ensures Encloses(c, SurroundingBox(b0, b1))
  {
  }

  lemma SurroundingBoxAlgebra(a: Aabb, b: Aabb, c: Aabb)
    ensures SurroundingBox(a, b) == SurroundingBox(b, a)
    ensures SurroundingBox(SurroundingBox(a, b), c) == SurroundingBox(a, SurroundingBox(b, c))
    ensures SurroundingBox(a, a) == a
  {
  }

  /** A box that encloses a box encloses everything the inner one encloses. */
  lemma EnclosesTransitive(a: Aabb, b: Aabb, c: Aabb)
    requires Encloses(a, b) && Encloses(b, c)
    ensures Encloses(a, c)
  {
  }

  // The slab test.

  /** `(bound - origin) * inv_d`: the parameter at which the ray crosses the
      plane `bound` of one axis. */
  function SlabParameter(bound: real, o: real, invD: real): real {
    (bound - o) * invD
  }

  /** The entry and exit parameters of the slab `lo..hi` for a ray starting at
      `o` whose direction component has inverse `invD`, swapped when the
      inverse is negative. */
  function SlabInterval(lo: real, hi: real, o: real, invD: real): (real, real) {
    var t0 := SlabParameter(lo, o, invD);
    var t1 := SlabParameter(hi, o, invD);
    if invD < 0.0 then (t1, t0) else (t0, t1)
  }

  /** The verdict of one iteration of the slab loop (src/aabb.rs:25-40) for
      an axis whose direction component is nonzero: `min` and `max` are chosen
      as written, `max` by comparing `t1` against `t_min`, and the axis fails
      when `max <= min`. */
  predicate SlabPasses(lo: real, hi: real, o: real, invD: real, tMin: real, tMax: real) {
    var t := SlabInterval(lo, hi, o, invD);
    var lower := if t.0 > tMin then t.0 else tMin;
    var upper := if t.1 < tMin then t.1 else tMax;
    !(upper <= lower)
  }

  /** The verdict for one axis with slab `lo..hi`, origin component `o` and
      direction component `d`. A zero direction component divides by zero;
      under IEEE-754 the resulting infinities (and the NaN of `0 * inf` on a
      face) let the axis pass iff the origin lies within the slab and
      `t_min < t_max`, and the model states that outcome directly. */
  predicate AxisVerdict(lo: real, hi: real, o: real, d: real, tMin: real, tMax: real) {
    if d == 0.0 then lo <= o <= hi && tMin < tMax
    else SlabPasses(lo, hi, o, 1.0 / d, tMin, tMax)
  }

  predicate AxisPasses(b: Aabb, ray: Ray, a: int, tMin: real, tMax: real)
    requires 0 <= a < 3
  {
    AxisVerdict(Component(b.min, a), Component(b.max, a), Component(ray.origin, a),
                Component(ray.direction, a), tMin, tMax)
  }

  /** The whole test: every axis passes, each against the original
      `t_min`/`t_max` (the interval is never narrowed). */
  predicate SlabHit(b: Aabb, ray: Ray, tMin: real, tMax: real) {
    AxisPasses(b, ray, 0, tMin, tMax) && AxisPasses(b, ray, 1, tMin, tMax) &&
    AxisPasses(b, ray, 2, tMin, tMax)
  }

  /** `Aabb::hit`: the loop over the three axes, returning `false` at the
      first axis whose interval is empty. */
  method Hit(b: Aabb, ray: Ray, tMin: real, tMax: real) returns (hit: bool)
    ensures hit == SlabHit(b, ray, tMin, tMax)
  {
    for a := 0 to 3
      invariant forall k :: 0 <= k < a ==> AxisPasses(b, ray, k, tMin, tMax)
    {
      var passes := AxisTest(Component(b.min, a), Component(b.max, a), Component(ray.origin, a),
                             Component(ray.direction, a), tMin, tMax);
      if !passes {
        return false;
      }
    }
    return true;
  }

  /** One iteration of the loop of `Aabb::hit`: the inverse direction, the
      two slab parameters, the swap for a negative inverse, and the verdict
      `!(max <= min)`. */
  method AxisTest(lo: real, hi: real, o: real, d: real, tMin: real, tMax: real) returns (passes: bool)
    ensures passes == AxisVerdict(lo, hi, o, d, tMin, tMax)
  {
    if d == 0.0 {
      passes := lo <= o <= hi && tMin < tMax;
      return;
    }
    var invD := 1.0 / d;
    var t0 := SlabParameter(lo, o, invD);
    var t1 := SlabParameter(hi, o, invD);
    if invD < 0.0 {
      t0, t1 := t1, t0;
    }
    assert (t0, t1) == SlabInterval(lo, hi, o, invD);
    var lower := if t0 > tMin then t0 else tMin;
    var upper := if t1 < tMin then t1 else tMax;
    passes := !(upper <= lower);
    assert passes == SlabPasses(lo, hi, o, invD, tMin, tMax);
  }

  /** Because `max` is chosen against `t_min`, an axis passes iff its exit
      parameter is at least `t_min`, its entry parameter is below `t_max` and
      the query interval is nonempty. */
  lemma SlabPassesIff(lo: real, hi: real, o: real, invD: real, tMin: real, tMax: real)
    ensures SlabPasses(lo, hi, o, invD, tMin, tMax) <==>
            tMin <= SlabInterval(lo, hi, o, invD).1 && SlabInterval(lo, hi, o, invD).0 < tMax && tMin < tMax
  {
  }

  /** An empty or reversed parameter interval never hits. */
  lemma SlabMissesEmptyInterval(b: Aabb, ray: Ray, tMin: real, tMax: real)
    requires tMax <= tMin
    ensures !SlabHit(b, ray, tMin, tMax)
  {
  }

  /** For an ordered slab the swap puts the entry parameter first. */
  lemma SlabIntervalOrdered(lo: real, hi: real, o: real, invD: real)
    requires lo <= hi
    ensures SlabInterval(lo, hi, o, invD).0 <= SlabInterval(lo, hi, o, invD).1
  {
    SlabParameterMonotone(lo, hi, o, invD);
  }

  /** Slab parameters keep the order of the bounds for a non-negative
      inverse and reverse it for a negative one. */
  lemma SlabParameterMonotone(x: real, y: real, o: real, invD: real)
    requires x <= y
    ensures 0.0 <= invD ==> SlabParameter(x, o, invD) <= SlabParameter(y, o, invD)
    ensures invD < 0.0 ==> SlabParameter(y, o, invD) <= SlabParameter(x, o, invD)
  {
    if invD < 0.0 {
      ScaleByNegative(x - o, y - o, invD);
    } else {
      ScaleByNonNegative(x - o, y - o, invD);
    }
  }

  /** The slab parameter of the ray's own point at `t` is `t`. */
  lemma SlabParameterAtPoint(o: real, d: real, t: real)
    requires d != 0.0
    ensures SlabParameter(o + d * t, o, 1.0 / d) == t
  {
    assert o + d * t - o == d * t;
    ReciprocalCancels(d, t);
  }

  /** The test is conservative: if the ray's point at some parameter strictly
      between `t_min` and `t_max` lies in the box, the test reports a hit. */
  lemma SlabConservative(b: Aabb, ray: Ray, tMin: real, tMax: real, t: real)
    requires tMin < t < tMax
    requires ContainsPoint(b, PointAt(ray, t))
    ensures SlabHit(b, ray, tMin, tMax)
  {
    AxisConservative(b, ray, 0, tMin, tMax, t);
    AxisConservative(b, ray, 1, tMin, tMax, t);
    AxisConservative(b, ray, 2, tMin, tMax, t);
  }

  lemma AxisConservative(b: Aabb, ray: Ray, a: int, tMin: real, tMax: real, t: real)
    requires 0 <= a < 3
    requires tMin < t < tMax
    requires ContainsPoint(b, PointAt(ray, t))
    ensures AxisPasses(b, ray, a, tMin, tMax)
  {
    var d := Component(ray.direction, a);
    var o := Component(ray.origin, a);
    assert Component(PointAt(ray, t), a) == o + d * t;
    if d != 0.0 {
      SlabContainsParameter(Component(b.min, a), Component(b.max, a), o, d, t);
      SlabPassesIff(Component(b.min, a), Component(b.max, a), o, 1.0 / d, tMin, tMax);
    }
  }

  /** A parameter whose point lies in the slab lies between the entry and
      exit parameters. */
  lemma SlabContainsParameter(lo: real, hi: real, o: real, d: real, t: real)
    requires d != 0.0
    requires lo <= o + d * t <= hi
    ensures SlabInterval(lo, hi, o, 1.0 / d).0 <= t <= SlabInterval(lo, hi, o, 1.0 / d).1
  {
    SlabParameterAtPoint(o, d, t);
    SlabParameterMonotone(lo, o + d * t, o, 1.0 / d);
    SlabParameterMonotone(o + d * t, hi, o, 1.0 / d);
  }

  /** The test does not narrow the interval across axes: a ray whose x slab
      is crossed for parameters in [1, 2] and whose y slab for parameters in
      [3, 4] never enters the unit box, yet the test reports a hit. */
  lemma SlabHitWithoutEntering()
    ensures SlabHit(Aabb(Vec3(0.0, 0.0, 0.0), Vec3(1.0, 1.0, 1.0)),
                    Ray(Vec3(-1.0, -3.0, 0.5), Vec3(1.0, 1.0, 0.0), 1.0), 0.0, 10.0)
    ensures forall t :: !ContainsPoint(Aabb(Vec3(0.0, 0.0, 0.0), Vec3(1.0, 1.0, 1.0)),
                                       PointAt(Ray(Vec3(-1.0, -3.0, 0.5), Vec3(1.0, 1.0, 0.0), 1.0), t))
  {
    var b := Aabb(Vec3(0.0, 0.0, 0.0), Vec3(1.0, 1.0, 1.0));
    var ray := Ray(Vec3(-1.0, -3.0, 0.5), Vec3(1.0, 1.0, 0.0), 1.0);
    assert SlabInterval(0.0, 1.0, -1.0, 1.0 / 1.0) == (1.0, 2.0);
    assert SlabInterval(0.0, 1.0, -3.0, 1.0 / 1.0) == (3.0, 4.0);
    forall t
      ensures !ContainsPoint(b, PointAt(ray, t))
    {
      assert PointAt(ray, t).x == -1.0 + t;
      assert PointAt(ray, t).y == -3.0 + t;
    }
  }
}
