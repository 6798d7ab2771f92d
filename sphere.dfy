/** Ray-sphere intersection (src/sphere.rs): the roots of the quadratic in
    the ray parameter, the nearer one tried first. */
module Spheres {

  import opened Wrappers
  import opened RealArith
  import opened Vector
  import opened Rays
  import opened Materials

  datatype Sphere = Sphere(center: Vec3, radius: real, material: Material)

  // The quadratic `a t^2 + 2 b t + c` whose roots are the parameters at
  // which the ray meets the sphere.

  function Disc(a: real, b: real, c: real): real {
    b * b - a * c
  }

  function Quadratic(a: real, b: real, c: real, t: real): real {
    a * t * t + 2.0 * b * t + c
  }

  /** `a = direction . direction`. */
  function QuadA(ray: Ray): real {
    Dot(ray.direction, ray.direction)
  }

  /** `b = oc . direction` with `oc = origin - center`. */
  function QuadB(s: Sphere, ray: Ray): real {
    Dot(Sub(ray.origin, s.center), ray.direction)
  }

  /** `c = oc . oc - radius * radius`. */
  function QuadC(s: Sphere, ray: Ray): real {
    Dot(Sub(ray.origin, s.center), Sub(ray.origin, s.center)) - s.radius * s.radius
  }

  function Discriminant(s: Sphere, ray: Ray): real {
    Disc(QuadA(ray), QuadB(s, ray), QuadC(s, ray))
  }

  /** `(-b - sqrt(discriminant)) / a`. */
  function NearRoot(s: Sphere, ray: Ray): real {
    Divide(-QuadB(s, ray) - Sqrt(Discriminant(s, ray)), QuadA(ray))
  }

  /** `(-b + sqrt(discriminant)) / a`. */
  function FarRoot(s: Sphere, ray: Ray): real {
    Divide(-QuadB(s, ray) + Sqrt(Discriminant(s, ray)), QuadA(ray))
  }

  /** The open-interval test `t < t_max && t > t_min`. */
  predicate Within(t: real, tMin: real, tMax: real) {
    t < tMax && t > tMin
  }

  /** The record built for parameter `t`: the point on the ray and the
      normal `(p - center) / radius`. */
  function RecordAt(s: Sphere, ray: Ray, t: real): HitRecord {
    HitRecord(t, PointAt(ray, t), DivScalar(Sub(PointAt(ray, t), s.center), s.radius), s.material)
  }

  /** `Sphere::hit`. No hit unless the discriminant is positive; then the
      nearer root if it lies strictly inside the interval, else the farther
      root if it does, else no hit. */
  function Hit(s: Sphere, ray: Ray, tMin: real, tMax: real): (r: Option<HitRecord>)
    ensures Discriminant(s, ray) <= 0.0 ==> r.None?
    ensures r.Some? ==> tMin < r.value.t < tMax
    ensures r.Some? ==> r.value == RecordAt(s, ray, r.value.t)
    ensures r.Some? ==> r.value.t == NearRoot(s, ray) || r.value.t == FarRoot(s, ray)
    ensures 0.0 < Discriminant(s, ray) && Within(NearRoot(s, ray), tMin, tMax) ==>
              r == Some(RecordAt(s, ray, NearRoot(s, ray)))
    ensures 0.0 < Discriminant(s, ray) && !Within(NearRoot(s, ray), tMin, tMax) ==>
              (r.Some? <==> Within(FarRoot(s, ray), tMin, tMax))
  {
    if Discriminant(s, ray) > 0.0 then
      var t := NearRoot(s, ray);
      if Within(t, tMin, tMax) then Some(RecordAt(s, ray, t))
      else
        var t' := FarRoot(s, ray);
        if Within(t', tMin, tMax) then Some(RecordAt(s, ray, t')) else None
    else
      None
  }

  /** A positive discriminant needs a nonzero direction, so the division by
      `a` in either root is a true division. */
  lemma PositiveDiscriminantHasDirection(s: Sphere, ray: Ray)
    requires 0.0 < Discriminant(s, ray)
    ensures 0.0 < QuadA(ray)
  {
    SquaredLengthIsSelfDot(ray.direction);
    if ray.direction == Zero {
      assert false;
    }
    PositiveSquaredLength(ray.direction);
  }

  /** Either root of `a t^2 + 2 b t + c` with an exact root `s` of the
      discriminant solves it. */
  lemma RootOfQuadratic(a: real, b: real, c: real, s: real, t: real)
    requires a != 0.0 && Square(s) == Disc(a, b, c)
    requires t == (-b - s) / a || t == (-b + s) / a
    ensures Quadratic(a, b, c, t) == 0.0
  {
    var u := a * t;
    assert u == -b - s || u == -b + s;
    assert a * Quadratic(a, b, c, t) == u * u + 2.0 * b * u + a * c;
    assert u * u + 2.0 * b * u + a * c == s * s - b * b + a * c;
    ZeroProduct(Quadratic(a, b, c, t), a);
  }

  /** The squared distance from the centre of the point at parameter `t`,
      less the squared radius, is the quadratic at `t`. */
  lemma SquaredDistanceIsQuadratic(s: Sphere, ray: Ray, t: real)
    ensures SquaredLength(Sub(PointAt(ray, t), s.center)) ==
            Quadratic(QuadA(ray), QuadB(s, ray), QuadC(s, ray), t) + s.radius * s.radius
  {
    var oc := Sub(ray.origin, s.center);
    assert Sub(PointAt(ray, t), s.center) == Add(oc, Scale(ray.direction, t));
    ExpandSquaredLength(oc, ray.direction, t);
    QuadraticShift(QuadA(ray), QuadB(s, ray), Dot(oc, oc), s.radius * s.radius, t);
  }

  lemma QuadraticShift(a: real, b: real, c: real, k: real, t: real)
    ensures Quadratic(a, b, c - k, t) == Quadratic(a, b, c, t) - k
  {
  }

  lemma ExpandSquaredLength(u: Vec3, d: Vec3, t: real)
    ensures SquaredLength(Add(u, Scale(d, t))) ==
            Quadratic(Dot(d, d), Dot(u, d), Dot(u, u), t)
  {
    ExpandSquare(u.x, d.x, t);
    ExpandSquare(u.y, d.y, t);
    ExpandSquare(u.z, d.z, t);
    QuadraticSum(d.x * d.x, u.x * d.x, u.x * u.x, d.y * d.y, u.y * d.y, u.y * u.y,
                 d.z * d.z, u.z * d.z, u.z * u.z, t);
  }

  lemma ExpandSquare(u: real, d: real, t: real)
    ensures (u + d * t) * (u + d * t) == (d * d) * t * t + 2.0 * (u * d) * t + u * u
  {
  }

  /** Quadratics in the same variable add coefficient by coefficient. */
  lemma QuadraticSum(a1: real, b1: real, c1: real, a2: real, b2: real, c2: real,
                     a3: real, b3: real, c3: real, t: real)
    ensures Quadratic(a1, b1, c1, t) + Quadratic(a2, b2, c2, t) + Quadratic(a3, b3, c3, t) ==
            Quadratic(a1 + a2 + a3, b1 + b2 + b3, c1 + c2 + c3, t)
  {
  }

  /** With an exact square root the point reported lies on the sphere. */
  lemma HitPointOnSphere(s: Sphere, ray: Ray, tMin: real, tMax: real)
    requires ExactSqrtAt(Discriminant(s, ray))
    requires Hit(s, ray, tMin, tMax).Some?
    ensures SquaredLength(Sub(Hit(s, ray, tMin, tMax).value.p, s.center)) == s.radius * s.radius
  {
    var t := Hit(s, ray, tMin, tMax).value.t;
    PositiveDiscriminantHasDirection(s, ray);
    RootOfQuadratic(QuadA(ray), QuadB(s, ray), QuadC(s, ray), Sqrt(Discriminant(s, ray)), t);
    SquaredDistanceIsQuadratic(s, ray, t);
  }

  /** With an exact square root and a nonzero radius the normal has unit
      length. */
  lemma HitNormalIsUnit(s: Sphere, ray: Ray, tMin: real, tMax: real)
    requires ExactSqrtAt(Discriminant(s, ray))
    requires s.radius != 0.0
    requires Hit(s, ray, tMin, tMax).Some?
    ensures SquaredLength(Hit(s, ray, tMin, tMax).value.normal) == 1.0
  {
    var rec := Hit(s, ray, tMin, tMax).value;
    HitPointOnSphere(s, ray, tMin, tMax);
    DivideByOwnLength(Sub(rec.p, s.center), s.radius);
  }

  /** The normal points away from the centre for a positive radius and
      towards it for a negative one (exact square root assumed). */
  lemma HitNormalFollowsRadiusSign(s: Sphere, ray: Ray, tMin: real, tMax: real)
    requires ExactSqrtAt(Discriminant(s, ray))
    requires s.radius != 0.0
    requires Hit(s, ray, tMin, tMax).Some?
    ensures var rec := Hit(s, ray, tMin, tMax).value;
            Dot(rec.normal, Sub(rec.p, s.center)) < 0.0 <==> s.radius < 0.0
  {
    var rec := Hit(s, ray, tMin, tMax).value;
    HitPointOnSphere(s, ray, tMin, tMax);
    SquarePositive(s.radius);
    DotDivScalar(Sub(rec.p, s.center), s.radius);
    assert 0.0 < SquaredLength(Sub(rec.p, s.center));
  }

  /** When the square root is non-negative the near root is at most the far
      one. */
  lemma NearRootFirst(s: Sphere, ray: Ray)
    requires 0.0 < Discriminant(s, ray)
    requires 0.0 <= Sqrt(Discriminant(s, ray))
    ensures NearRoot(s, ray) <= FarRoot(s, ray)
  {
    PositiveDiscriminantHasDirection(s, ray);
    DivideByPositive(-QuadB(s, ray) - Sqrt(Discriminant(s, ray)),
                     -QuadB(s, ray) + Sqrt(Discriminant(s, ray)), QuadA(ray));
  }

  /** Narrowing the upper bound to `bound` answers with the part of the wider
      answer below `bound`: the property the nearest-hit scans rely on. */
  lemma HitShrinks(s: Sphere, ray: Ray, tMin: real, tMax: real, bound: real)
    requires 0.0 < Discriminant(s, ray) ==> 0.0 <= Sqrt(Discriminant(s, ray))
    requires bound <= tMax
    ensures Hit(s, ray, tMin, bound) == Clip(Hit(s, ray, tMin, tMax), bound)
  {
    if 0.0 < Discriminant(s, ray) {
      NearRootFirst(s, ray);
    }
  }
}
