/** Surface materials and their scattering rule (src/material.rs), and the
    record of a ray-surface intersection the rule consumes (src/hit.rs). */
module Materials {

  import opened Wrappers
  import opened Vector
  import opened Rays

  datatype Material =
    | Lambertian(albedo: Vec3)
    | Metal(albedo: Vec3, fuzz: real)
    | Dielectric(refractiveIndex: real)

  /** `Material::default()`: a Lambertian surface of zero albedo. */
  const DefaultMaterial: Material := Lambertian(Zero)

  /** `HitRecord`: the parameter of the hit, the point, the normal there and
      the material of the surface hit. */
  datatype HitRecord = HitRecord(t: real, p: Vec3, normal: Vec3, material: Material)

  /** The part of a query's answer that lies below `bound`: what the same
      query answers over a narrower interval when the surface is consistent. */
  function Clip(r: Option<HitRecord>, bound: real): Option<HitRecord> {
    if r.Some? && r.value.t < bound then r else None
  }

  /** `Scatter`: the attenuation colour and the scattered ray. */
  datatype Scatter = Scatter(color: Vec3, ray: Option<Ray>)

  /** `f32::min(fuzz, 1.0)`. */
  function ClampFuzz(fuzz: real): (f: real)
    ensures f <= 1.0 && f <= fuzz
    ensures f == fuzz || f == 1.0
  {
    if fuzz < 1.0 then fuzz else 1.0
  }

  /** The direction a metal surface sends a ray in: the mirror image of the
      normalised incoming direction, perturbed by `sample` scaled by the
      clamped fuzz. */
  function MetalDirection(fuzz: real, rayIn: Ray, rec: HitRecord, sample: Vec3): Vec3 {
    Add(Reflect(Normalize(rayIn.direction), rec.normal), Scale(sample, ClampFuzz(fuzz)))
  }

  /** `Material::scatter`. `sample` is the point `random_in_unit_sphere()`
      returns for this call. A Lambertian surface always scatters towards
      `p + normal + sample`; a metal one scatters only when the perturbed
      reflection leaves the surface; a dielectric one never scatters. */
  function ScatterRay(m: Material, rayIn: Ray, rec: HitRecord, sample: Vec3): (r: Option<Scatter>)
    ensures r.Some? ==> r.value.ray.Some? && r.value.ray.value.origin == rec.p
    ensures r.Some? ==> !m.Dielectric? && r.value.ray.value.time == 1.0 && r.value.color == m.albedo
    ensures m.Lambertian? ==> r.Some? && r.value.ray.value.direction == Add(rec.normal, sample)
    ensures m.Metal? ==>
      (r.Some? <==> Dot(MetalDirection(m.fuzz, rayIn, rec, sample), rec.normal) > 0.0)
    ensures m.Metal? && r.Some? ==> r.value.ray.value.direction == MetalDirection(m.fuzz, rayIn, rec, sample)
    ensures m.Dielectric? ==> r.None?
  {
    match m
    case Lambertian(albedo) =>
      var target := Add(Add(rec.p, rec.normal), sample);
      Some(Scatter(albedo, Some(NewRay(rec.p, Sub(target, rec.p)))))
    case Metal(albedo, fuzz) =>
      var reflected := Reflect(Normalize(rayIn.direction), rec.normal);
      var scattered := Scatter(albedo, Some(NewRay(rec.p, Add(reflected, Scale(sample, ClampFuzz(fuzz))))));
      if Dot(scattered.ray.value.direction, rec.normal) > 0.0 then Some(scattered) else None
    case Dielectric(_) =>
      None
  }

  /** A perfect mirror (zero fuzz) with a unit normal scatters exactly the
      rays that arrive against the normal. */
  lemma MirrorScattersIncomingRays(albedo: Vec3, rayIn: Ray, rec: HitRecord, sample: Vec3)
    requires Dot(rec.normal, rec.normal) == 1.0
    ensures ScatterRay(Metal(albedo, 0.0), rayIn, rec, sample).Some? <==>
            Dot(Normalize(rayIn.direction), rec.normal) < 0.0
  {
    var u := Normalize(rayIn.direction);
    assert MetalDirection(0.0, rayIn, rec, sample) == Reflect(u, rec.normal);
    ReflectAboutUnitNormal(u, rec.normal);
    DotCommutes(u, rec.normal);
  }

  /** A fuzz of one or more is clamped: the metal then behaves as one of
      fuzz exactly one. */
  lemma FuzzClampedAtOne(albedo: Vec3, fuzz: real, rayIn: Ray, rec: HitRecord, sample: Vec3)
    requires 1.0 <= fuzz
    ensures ScatterRay(Metal(albedo, fuzz), rayIn, rec, sample) ==
            ScatterRay(Metal(albedo, 1.0), rayIn, rec, sample)
  {
    assert ClampFuzz(fuzz) == ClampFuzz(1.0);
  }
}
