/** Rays (src/ray.rs): an origin, a direction and the instant the ray is cast. */
module Rays {

  import opened Vector

  datatype Ray = Ray(origin: Vec3, direction: Vec3, time: real)

  /** `Ray::new`: a ray cast at time 1.0. */
  function NewRay(origin: Vec3, direction: Vec3): (r: Ray)
    ensures r.origin == origin && r.direction == direction
    ensures r.time == 1.0
  {
    Ray(origin, direction, 1.0)
  }

  /** `Ray::with_time`: the time is stored as given. */
  function WithTime(origin: Vec3, direction: Vec3, time: real): (r: Ray)
    ensures r.origin == origin && r.direction == direction && r.time == time
  {
    Ray(origin, direction, time)
  }

  /** `point_at_parameter`: `origin + direction * t`. */
  function PointAt(ray: Ray, t: real): Vec3 {
    Add(ray.origin, Scale(ray.direction, t))
  }

  /** The ray starts at its origin, and advancing the parameter by `t` moves
      the point by `direction * t`. */
  lemma PointAtIsAffine(ray: Ray, s: real, t: real)
    ensures PointAt(ray, 0.0) == ray.origin
    ensures PointAt(ray, s + t) == Add(PointAt(ray, s), Scale(ray.direction, t))
  {
  }

  /** The point at parameter `t` depends only on the origin and direction,
      never on the time the ray is cast. */
  lemma PointAtIgnoresTime(ray: Ray, time: real, t: real)
    ensures PointAt(WithTime(ray.origin, ray.direction, time), t) == PointAt(ray, t)
  {
  }
}
