/** The older list of primitives (src/hit_list.rs), whose query answers a
    flag and a record instead of an optional record. */
module HitLists {

  import opened Wrappers
  import opened Vector
  import opened Rays
  import opened Materials
  import opened Hittables
  import Worlds

  /** `HitRecord::new()`: the record returned when nothing is hit. The
      record of src/record.rs has no material; the model fills in the
      default one. */
  const DefaultRecord: HitRecord := HitRecord(0.0, Zero, Zero, DefaultMaterial)

  /** An element's answer in the `(bool, HitRecord)` form of this revision. */
  function Flagged(answer: Option<HitRecord>): (bool, HitRecord) {
    if answer.Some? then (true, answer.value) else (false, DefaultRecord)
  }

  class HitList {
    var hits: seq<Hittable>

    /** `HitList::new`: no elements. */
    constructor ()
      ensures hits == []
    {
      hits := [];
    }

    /** `HitList::add`: one element pushed at the end. */
    method Add(h: Hittable)
      modifies this
      ensures hits == old(hits) + [h]
    {
      hits := hits + [h];
    }

    /** `HitList::hit`: each element queried up to `closest`, which starts at
        `tMax`; a reported hit sets the flag, the record and `closest`. The
        answer is the one the scan of `World::hit` finds. */
    method Hit(ray: Ray, tMin: real, tMax: real) returns (hitAnything: bool, record: HitRecord)
      ensures hitAnything == Worlds.Scan(hits, ray, tMin, tMax).Some?
      ensures hitAnything ==> record == Worlds.Scan(hits, ray, tMin, tMax).value && tMin < record.t < tMax
      ensures !hitAnything ==> record == DefaultRecord
    {
      record := DefaultRecord;
      hitAnything := false;
      var closest := tMax;
      for i := 0 to |hits|
        invariant hitAnything == Worlds.Scan(hits[..i], ray, tMin, tMax).Some?
        invariant hitAnything ==> record == Worlds.Scan(hits[..i], ray, tMin, tMax).value
        invariant !hitAnything ==> record == DefaultRecord
        invariant closest == Worlds.Closest(Worlds.Scan(hits[..i], ray, tMin, tMax), tMax)
      {
        assert hits[..i + 1][..i] == hits[..i];
        var (hit, found) := Flagged(Hittables.Hit(hits[i], ray, tMin, closest));
        if hit {
          hitAnything := true;
          closest := found.t;
          record := found;
        }
      }
      assert hits[..|hits|] == hits;
    }
  }

  /** The flag is raised exactly when some element is hit over the whole
      interval, provided every element is consistent under narrowing. */
  lemma FlagMeansSomeHit(hits: seq<Hittable>, ray: Ray, tMin: real, tMax: real)
    requires forall j :: 0 <= j < |hits| ==> ShrinkConsistent(hits[j], ray, tMin, tMax)
    ensures Worlds.Scan(hits, ray, tMin, tMax).Some? <==>
            exists j :: 0 <= j < |hits| && Hittables.Hit(hits[j], ray, tMin, tMax).Some?
  {
    Worlds.ScanFindsNearest(hits, ray, tMin, tMax);
    var ws := Worlds.Answers(hits, ray, tMin, tMax);
    assert forall j :: 0 <= j < |hits| ==> ws[j] == Hittables.Hit(hits[j], ray, tMin, tMax);
  }
}
