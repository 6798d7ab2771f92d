/** The first renderer of src/main.rs: its own rejection sampler and its
    colour recursion over the list of spheres. */
module Program {

  import opened Wrappers
  import opened Vector
  import opened Rays
  import opened Materials
  import opened Hittables
  import Worlds
  import Sampling
  import Rendering

  /** The bounce limit of `color`. */
  const MaxDepth: int := 50

  /** The near end of the hit interval of `color`. */
  const TMin: real := 0.001

  /** The exit test of this sampler: strictly inside the unit sphere. */
  predicate Inside(p: Vec3) {
    SquaredLength(p) < 1.0
  }

  /** `random_in_unit_sphere` of src/main.rs: the first trial point strictly
      inside the unit sphere. `trials` holds the draws of each iteration;
      when they run out without such a point the model answers `None` (the
      program would go on drawing). Unlike the sampler of src/random.rs,
      the point returned is one that sampler would reject. */
  method RandomInUnitSphere(trials: seq<Vec3>) returns (p: Option<Vec3>)
    ensures p.None? <==> forall k :: 0 <= k < |trials| ==> !Inside(Sampling.Candidate(trials[k]))
    ensures p.Some? ==> exists i :: 0 <= i < |trials| && p.value == Sampling.Candidate(trials[i]) &&
                          forall k :: 0 <= k < i ==> !Inside(Sampling.Candidate(trials[k]))
    ensures p.Some? ==> Inside(p.value) && !Sampling.Accepted(p.value)
  {
    for i := 0 to |trials|
      invariant forall k :: 0 <= k < i ==> !Inside(Sampling.Candidate(trials[k]))
    {
      var candidate := Sub(Scale(trials[i], 2.0), Vec3(1.0, 1.0, 1.0));
      if SquaredLength(candidate) < 1.0 {
        return Some(candidate);
      }
    }
    return None;
  }

  /** The background of `color`: white lerped towards sky blue by the
      height of the normalised direction. It is the sky of the BVH
      renderer, written as a lerp. */
  function SkyLerp(ray: Ray): (c: Vec3)
    ensures c == Rendering.Sky(ray)
  {
    var nd := Normalize(ray.direction);
    var t := 0.5 * (nd.y + 1.0);
    Lerp(Vec3(1.0, 1.0, 1.0), Vec3(0.5, 0.7, 1.0), t)
  }

  /** `color` of src/main.rs over the list `world`. `samples(d)` is the
      point the scatter at bounce `d` draws. A miss, an absorbed ray and a
      ray past the bounce limit all end on the sky; only a scattered ray
      below the limit recurses, tinted by the material's colour. */
  function Color(ray: Ray, world: seq<Hittable>, depth: int, samples: int -> Vec3): (c: Vec3)
    ensures Worlds.Scan(world, ray, TMin, Rendering.F32Max).None? ==> c == Rendering.Sky(ray)
    ensures depth >= MaxDepth ==> c == Rendering.Sky(ray)
    ensures var hit := Worlds.Scan(world, ray, TMin, Rendering.F32Max);
            hit.Some? && ScatterRay(hit.value.material, ray, hit.value, samples(depth)).None? ==>
              c == Rendering.Sky(ray)
    decreases MaxDepth - depth
  {
    match Worlds.Scan(world, ray, TMin, Rendering.F32Max)
    case Some(record) =>
      (match ScatterRay(record.material, ray, record, samples(depth))
       case Some(scattered) =>
         if depth < MaxDepth then Mul(scattered.color, Color(scattered.ray.value, world, depth + 1, samples))
         else SkyLerp(ray)
       case None => SkyLerp(ray))
    case None => SkyLerp(ray)
  }

  /** A hit below depth 50 that scatters continues with the scattered ray
      one bounce deeper, tinted by the scatter's colour. */
  lemma ColorFollowsScatter(ray: Ray, world: seq<Hittable>, depth: int, samples: int -> Vec3)
    requires depth < MaxDepth
    requires Worlds.Scan(world, ray, TMin, Rendering.F32Max).Some?
    requires var record := Worlds.Scan(world, ray, TMin, Rendering.F32Max).value;
             ScatterRay(record.material, ray, record, samples(depth)).Some?
    ensures var record := Worlds.Scan(world, ray, TMin, Rendering.F32Max).value;
            var s := ScatterRay(record.material, ray, record, samples(depth)).value;
            Color(ray, world, depth, samples) == Mul(s.color, Color(s.ray.value, world, depth + 1, samples))
  {
  }

  /** Where the material absorbs the ray below both bounce limits, the two
      renderers disagree: the BVH renderer answers black, this one the sky,
      which is never black. */
  lemma AbsorptionDiffers(scene: Rendering.Scene, world: seq<Hittable>, ray: Ray, depth: int,
                          samples: int -> Vec3)
    requires Hittables.Hit(scene.bvh, ray, Rendering.TMin, Rendering.F32Max).Some?
    requires Worlds.Scan(world, ray, TMin, Rendering.F32Max).Some?
    requires var r := Hittables.Hit(scene.bvh, ray, Rendering.TMin, Rendering.F32Max).value;
             ScatterRay(r.material, ray, r, samples(depth)).None?
    requires var r := Worlds.Scan(world, ray, TMin, Rendering.F32Max).value;
             ScatterRay(r.material, ray, r, samples(depth)).None?
    requires depth < scene.settings.maxBounce
    ensures Rendering.Color(scene, ray, depth, samples) == Zero
    ensures Color(ray, world, depth, samples) != Rendering.Color(scene, ray, depth, samples)
  {
    assert Color(ray, world, depth, samples).z == 1.0;
  }
}
