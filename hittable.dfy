/** Everything a ray can hit (the `Hit` trait of src/hit.rs):
    the two sphere kinds and the two node kinds of the bounding volume
    hierarchy of src/bvh.rs, as one closed datatype. */
module Hittables {

  import opened Wrappers
  import opened Vector
  import opened Rays
  import opened Materials
  import opened Boxes
  import Spheres
  import MovingSpheres

  datatype Hittable =
    | SphereShape(sphere: Spheres.Sphere)
    | MovingShape(moving: MovingSpheres.MovingSphere)
      /** `NullBvhNode`: a box and nothing in it. */
    | NullNode(box: Aabb)
      /** `BvhNode`: two children and the box around both. */
    | BvhNode(left: Hittable, right: Hittable, box: Aabb)

  /** The `match` of `BvhNode::hit`: the only hit if one child hits, the left
      one if it is strictly nearer, the right one otherwise. */
  function Nearer(left: Option<HitRecord>, right: Option<HitRecord>): (n: Option<HitRecord>)
    ensures n.None? <==> left.None? && right.None?
    ensures n == left || n == right
    ensures n.Some? && left.Some? ==> n.value.t <= left.value.t
    ensures n.Some? && right.Some? ==> n.value.t <= right.value.t
    ensures left.Some? && right.Some? && left.value.t == right.value.t ==> n == right
  {
    match (left, right)
    case (Some(l), Some(r)) => if l.t < r.t then left else right
    case (Some(_), None) => left
    case (None, _) => right
  }

  /** `hit` of each kind. A node answers only when the ray passes its box
      test, and then with the nearer of its children's answers; both children
      are queried over the same interval. */
  function Hit(h: Hittable, ray: Ray, tMin: real, tMax: real): (r: Option<HitRecord>)
    ensures r.Some? ==> tMin < r.value.t < tMax
    ensures h.NullNode? ==> r.None?
    ensures h.BvhNode? && !SlabHit(h.box, ray, tMin, tMax) ==> r.None?
    decreases h
  {
    match h
    case SphereShape(s) => Spheres.Hit(s, ray, tMin, tMax)
    case MovingShape(m) => MovingSpheres.Hit(m, ray, tMin, tMax)
    case NullNode(_) => None
    case BvhNode(left, right, box) =>
      if SlabHit(box, ray, tMin, tMax) then Nearer(Hit(left, ray, tMin, tMax), Hit(right, ray, tMin, tMax))
      else None
  }

  /** `m` is the material of a primitive somewhere in `h`. */
  predicate HasMaterial(h: Hittable, m: Material)
    decreases h
  {
    match h
    case SphereShape(s) => s.material == m
    case MovingShape(ms) => ms.material == m
    case NullNode(_) => false
    case BvhNode(left, right, _) => HasMaterial(left, m) || HasMaterial(right, m)
  }

  /** A hit carries the material of one of the primitives: no query
      invents a material. */
  lemma {:induction false} HitMaterialIsPrimitive(h: Hittable, ray: Ray, tMin: real, tMax: real)
    ensures Hit(h, ray, tMin, tMax).Some? ==> HasMaterial(h, Hit(h, ray, tMin, tMax).value.material)
    decreases h
  {
    match h
    case SphereShape(_) =>
    case MovingShape(_) =>
    case NullNode(_) =>
    case BvhNode(left, right, _) =>
      HitMaterialIsPrimitive(left, ray, tMin, tMax);
      HitMaterialIsPrimitive(right, ray, tMin, tMax);
  }

  /** `bounding_box` of each kind. A node returns its stored box whatever
      the instants; the static sphere of src/sphere.rs defines no box. */
  function BoundingBox(h: Hittable, t0: real, t1: real): (r: Option<Aabb>)
    ensures r.None? <==> h.SphereShape?
    ensures h.NullNode? || h.BvhNode? ==> r == Some(h.box)
  {
    match h
    case SphereShape(_) => None
    case MovingShape(m) => MovingSpheres.BoundingBox(m, t0, t1)
    case NullNode(box) => Some(box)
    case BvhNode(_, _, box) => Some(box)
  }

  /** A node whose box test passes answers when some child does, with the
      hit of its nearest child: the answer is one of the children's, and no
      child's hit is nearer. */
  lemma NodeHitIsNearestChild(h: Hittable, ray: Ray, tMin: real, tMax: real)
    requires h.BvhNode? && SlabHit(h.box, ray, tMin, tMax)
    ensures Hit(h, ray, tMin, tMax).Some? <==>
            Hit(h.left, ray, tMin, tMax).Some? || Hit(h.right, ray, tMin, tMax).Some?
    ensures Hit(h, ray, tMin, tMax) == Hit(h.left, ray, tMin, tMax) ||
            Hit(h, ray, tMin, tMax) == Hit(h.right, ray, tMin, tMax)
    ensures Hit(h, ray, tMin, tMax).Some? && Hit(h.left, ray, tMin, tMax).Some? ==>
              Hit(h, ray, tMin, tMax).value.t <= Hit(h.left, ray, tMin, tMax).value.t
    ensures Hit(h, ray, tMin, tMax).Some? && Hit(h.right, ray, tMin, tMax).Some? ==>
              Hit(h, ray, tMin, tMax).value.t <= Hit(h.right, ray, tMin, tMax).value.t
  {
  }

  /** Answering over `(tMin, bound)` gives the part below `bound` of the
      answer over `(tMin, tMax)`, for every `bound <= tMax`. Spheres have it
      whenever the square root is non-negative; it is what makes a linear
      scan that shrinks its bound find the nearest hit. */
  ghost predicate ShrinkConsistent(h: Hittable, ray: Ray, tMin: real, tMax: real) {
    forall bound {:trigger Hit(h, ray, tMin, bound)} :: bound <= tMax ==>
      Hit(h, ray, tMin, bound) == Clip(Hit(h, ray, tMin, tMax), bound)
  }

  /** A sphere, static or moving, and an empty node are consistent under
      narrowing, provided the square root of a positive discriminant is
      non-negative (the root is taken only for a positive one). */
  lemma PrimitivesShrinkConsistent(h: Hittable, ray: Ray, tMin: real, tMax: real)
    requires h.SphereShape? && 0.0 < Spheres.Discriminant(h.sphere, ray) ==>
               0.0 <= Sqrt(Spheres.Discriminant(h.sphere, ray))
    requires h.MovingShape? ==>
               var s := MovingSpheres.At(h.moving, ray.time);
               0.0 < Spheres.Discriminant(s, ray) ==> 0.0 <= Sqrt(Spheres.Discriminant(s, ray))
    requires !h.BvhNode?
    ensures ShrinkConsistent(h, ray, tMin, tMax)
  {
    forall bound | bound <= tMax
      ensures Hit(h, ray, tMin, bound) == Clip(Hit(h, ray, tMin, tMax), bound)
    {
      match h
      case SphereShape(s) => Spheres.HitShrinks(s, ray, tMin, tMax, bound);
      case MovingShape(m) => MovingSpheres.HitShrinks(m, ray, tMin, tMax, bound);
      case NullNode(_) =>
    }
  }
}
