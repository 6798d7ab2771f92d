/** The thin-lens camera (src/camera.rs): the viewport built from the eye,
    the target, the up vector and the field of view, and the primary rays. */
module Cameras {

  import opened Vector
  import opened Rays

  /** `f32::tan`, left unspecified. */
  const Tan: real -> real

  /** `std::f32::consts::PI`, the `f32` nearest to pi. */
  const Pi: real := 3.1415927410125732421875

  datatype Camera = Camera(origin: Vec3, lowerLeftCorner: Vec3, horizontal: Vec3, vertical: Vec3,
                           w: Vec3, u: Vec3, v: Vec3, lensRadius: real)

  /** Half the height of the viewport at unit distance for a vertical field
      of view of `fov` degrees. */
  function HalfHeight(fov: real): real {
    Tan(fov * Pi / 180.0 / 2.0)
  }

  /** Half the width of the viewport at unit distance. */
  function HalfWidth(fov: real, aspect: real): real {
    aspect * HalfHeight(fov)
  }

  /** `axis * half * focus_dist * 2.0`: the full extent of the viewport
      along one basis vector. */
  function Span(axis: Vec3, half: real, focusDist: real): Vec3 {
    Scale(Scale(Scale(axis, half), focusDist), 2.0)
  }

  /** `Camera::new`. `w` points from the target back to the eye, `u` is the
      normalised `up x w` and `v` is `w x u`, each with the `cross` of
      src/vector.rs as written. */
  function NewCamera(eye: Vec3, center: Vec3, up: Vec3, fov: real, aspect: real,
                     aperture: real, focusDist: real): (c: Camera)
    ensures c.origin == eye && c.lensRadius == aperture / 2.0
  {
    var halfHeight := HalfHeight(fov);
    var halfWidth := HalfWidth(fov, aspect);
    var w := Normalize(Sub(eye, center));
    var u := Normalize(Cross(up, w));
    var v := Cross(w, u);
    Camera(eye,
           Sub(Sub(Sub(eye, Scale(Scale(u, focusDist), halfWidth)), Scale(Scale(v, focusDist), halfHeight)),
               Scale(w, focusDist)),
           Span(u, halfWidth, focusDist),
           Span(v, halfHeight, focusDist),
           w, u, v, aperture / 2.0)
  }

  /** The lens offset `u * rd.x + v * rd.y` of `rd = disk * lens_radius`. */
  function LensOffset(c: Camera, disk: Vec3): Vec3 {
    var rd := Scale(disk, c.lensRadius);
    Add(Scale(c.u, rd.x), Scale(c.v, rd.y))
  }

  /** The point of the focal plane that `(s, t)` names. */
  function Target(c: Camera, s: real, t: real): Vec3 {
    Add(Add(c.lowerLeftCorner, Scale(c.horizontal, s)), Scale(c.vertical, t))
  }

  /** `Camera::ray`. `disk` is the point `random_in_unit_disk()` returns for
      this call. The ray leaves the lens at the eye moved by the lens offset
      and passes through the target point, whatever the offset. */
  function GetRay(c: Camera, s: real, t: real, disk: Vec3): (r: Ray)
    ensures r.origin == Add(c.origin, LensOffset(c, disk))
    ensures Add(r.origin, r.direction) == Target(c, s, t)
    ensures r.time == 1.0
  {
    var offset := LensOffset(c, disk);
    NewRay(Add(c.origin, offset),
           Sub(Sub(Add(Add(c.lowerLeftCorner, Scale(c.horizontal, s)), Scale(c.vertical, t)), c.origin), offset))
  }

  /** Without lens displacement (a zero sample or a zero aperture) every ray
      starts at the eye. */
  lemma PinholeWithoutLens(c: Camera, s: real, t: real, disk: Vec3)
    requires disk == Zero || c.lensRadius == 0.0
    ensures GetRay(c, s, t, disk).origin == c.origin
  {
    assert LensOffset(c, disk) == Zero;
  }

  /** The middle of the viewport is the point at distance `focus_dist` from
      the eye along `-w`. */
  lemma ViewportCentredOnFocalPoint(eye: Vec3, center: Vec3, up: Vec3, fov: real, aspect: real,
                                    aperture: real, focusDist: real)
    ensures var c := NewCamera(eye, center, up, fov, aspect, aperture, focusDist);
            Target(c, 0.5, 0.5) == Sub(eye, Scale(c.w, focusDist))
  {
    var c := NewCamera(eye, center, up, fov, aspect, aperture, focusDist);
    var halfWidth := HalfWidth(fov, aspect);
    assert c.horizontal == Span(c.u, halfWidth, focusDist);
    assert c.vertical == Span(c.v, HalfHeight(fov), focusDist);
    assert c.lowerLeftCorner == Sub(Sub(Sub(eye, Scale(Scale(c.u, focusDist), halfWidth)),
                                        Scale(Scale(c.v, focusDist), HalfHeight(fov))), Scale(c.w, focusDist));
    HalfOfDoubled(c.u, halfWidth, focusDist);
    HalfOfDoubled(c.v, HalfHeight(fov), focusDist);
  }

  lemma HalfOfDoubled(a: Vec3, h: real, f: real)
    ensures Scale(Scale(Scale(Scale(a, h), f), 2.0), 0.5) == Scale(Scale(a, f), h)
  {
  }

  /** The viewport spans `2 * half_width * focus_dist` along `u`, with
      `half_width` the aspect ratio times `half_height`. */
  lemma HorizontalSpan(eye: Vec3, center: Vec3, up: Vec3, fov: real, aspect: real,
                       aperture: real, focusDist: real)
    ensures var c := NewCamera(eye, center, up, fov, aspect, aperture, focusDist);
            c.horizontal == Scale(c.u, 2.0 * HalfWidth(fov, aspect) * focusDist)
  {
    var c := NewCamera(eye, center, up, fov, aspect, aperture, focusDist);
    ScaledThrice(c.horizontal, c.u, HalfWidth(fov, aspect), focusDist);
  }

  /** The viewport spans `2 * half_height * focus_dist` along `v`. */
  lemma VerticalSpan(eye: Vec3, center: Vec3, up: Vec3, fov: real, aspect: real,
                     aperture: real, focusDist: real)
    ensures var c := NewCamera(eye, center, up, fov, aspect, aperture, focusDist);
            c.vertical == Scale(c.v, 2.0 * HalfHeight(fov) * focusDist)
  {
    var c := NewCamera(eye, center, up, fov, aspect, aperture, focusDist);
    ScaledThrice(c.vertical, c.v, HalfHeight(fov), focusDist);
  }

  lemma ScaledThrice(span: Vec3, a: Vec3, h: real, f: real)
    requires span == Span(a, h, f)
    ensures span == Scale(a, 2.0 * h * f)
  {
  }
}
