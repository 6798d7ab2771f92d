/** A sphere whose centre moves linearly between two instants
    (src/moving_sphere.rs). */
module MovingSpheres {

  import opened Wrappers
  import opened Vector
  import opened Rays
  import opened Materials
  import opened Boxes
  import Spheres

  datatype MovingSphere = MovingSphere(center0: Vec3, center1: Vec3, time0: real, time1: real,
                                       radius: real, material: Material)

  /** `center(time)`: `(center1 - center0) * ((time - time0) / (time1 - time0)) + center0`. */
  function Center(m: MovingSphere, time: real): Vec3 {
    Add(Scale(Sub(m.center1, m.center0), Divide(time - m.time0, m.time1 - m.time0)), m.center0)
  }

  /** The static sphere the moving one occupies at `time`. */
  function At(m: MovingSphere, time: real): Spheres.Sphere {
    Spheres.Sphere(Center(m, time), m.radius, m.material)
  }

  /** `MovingSphere::hit`: the quadratic of `Sphere::hit` with the centre
      taken at the ray's time, the normal divided by the radius. */
  function Hit(m: MovingSphere, ray: Ray, tMin: real, tMax: real): (r: Option<HitRecord>)
    ensures Spheres.Discriminant(At(m, ray.time), ray) <= 0.0 ==> r.None?
    ensures r.Some? ==> tMin < r.value.t < tMax
    ensures r.Some? ==> r.value.p == PointAt(ray, r.value.t) &&
                        r.value.normal == DivScalar(Sub(r.value.p, Center(m, ray.time)), m.radius) &&
                        r.value.material == m.material
    ensures 0.0 < Spheres.Discriminant(At(m, ray.time), ray) &&
            Spheres.Within(Spheres.NearRoot(At(m, ray.time), ray), tMin, tMax) ==>
              r.Some? && r.value.t == Spheres.NearRoot(At(m, ray.time), ray)
    ensures r.Some? ==> r.value.t == Spheres.NearRoot(At(m, ray.time), ray) ||
                        r.value.t == Spheres.FarRoot(At(m, ray.time), ray)
    ensures 0.0 < Spheres.Discriminant(At(m, ray.time), ray) &&
            !Spheres.Within(Spheres.NearRoot(At(m, ray.time), ray), tMin, tMax) ==>
              (r.Some? <==> Spheres.Within(Spheres.FarRoot(At(m, ray.time), ray), tMin, tMax)) &&
              (r.Some? ==> r.value.t == Spheres.FarRoot(At(m, ray.time), ray))
  {
    Spheres.Hit(At(m, ray.time), ray, tMin, tMax)
  }

  /** The box `center - (r, r, r) .. center + (r, r, r)`. */
  function BoxAround(center: Vec3, radius: real): Aabb {
    Aabb(Sub(center, Vec3(radius, radius, radius)), Add(center, Vec3(radius, radius, radius)))
  }

  /** `MovingSphere::bounding_box`: the union of the boxes around the centre
      at `t0` and at `t1`; always present. */
  function BoundingBox(m: MovingSphere, t0: real, t1: real): (r: Option<Aabb>)
    ensures r.Some?
    ensures Encloses(r.value, BoxAround(Center(m, t0), m.radius))
    ensures Encloses(r.value, BoxAround(Center(m, t1), m.radius))
    ensures 0.0 <= m.radius ==> WellFormed(r.value)
  {
    Some(SurroundingBox(BoxAround(Center(m, t0), m.radius), BoxAround(Center(m, t1), m.radius)))
  }

  /** At `time0` the centre is `center0`; at `time1` it is `center1` unless
      the two instants coincide. */
  lemma CenterAtEndpoints(m: MovingSphere)
    ensures Center(m, m.time0) == m.center0
    ensures m.time1 != m.time0 ==> Center(m, m.time1) == m.center1
  {
  }

  /** The centre moves affinely: halfway between the instants it is halfway
      between the centres. */
  lemma CenterAtMidpoint(m: MovingSphere)
    requires m.time1 != m.time0
    ensures Center(m, (m.time0 + m.time1) / 2.0) == Scale(Add(m.center0, m.center1), 0.5)
  {
    var span := m.time1 - m.time0;
    assert (m.time0 + m.time1) / 2.0 - m.time0 == 0.5 * span;
    assert (0.5 * span) / span == 0.5;
  }

  /** The moving sphere inherits the narrowing property of the static one at
      the ray's time. */
  lemma HitShrinks(m: MovingSphere, ray: Ray, tMin: real, tMax: real, bound: real)
    requires 0.0 < Spheres.Discriminant(At(m, ray.time), ray) ==>
               0.0 <= Sqrt(Spheres.Discriminant(At(m, ray.time), ray))
    requires bound <= tMax
    ensures Hit(m, ray, tMin, bound) == Clip(Hit(m, ray, tMin, tMax), bound)
  {
    Spheres.HitShrinks(At(m, ray.time), ray, tMin, tMax, bound);
  }
}
