/** The list of everything in a scene (src/world.rs): a linear scan for the
    nearest hit that shrinks its upper bound, and the union of all boxes. */
module Worlds {

  import opened Wrappers
  import opened Rays
  import opened Materials
  import Boxes
  import opened Hittables

  /** The upper bound of the next query: the parameter of the hit found so
      far, or `tMax` before any. */
  function Closest(found: Option<HitRecord>, tMax: real): real {
    if found.Some? then found.value.t else tMax
  }

  /** What the scan of `World::hit` holds after visiting `hits` in order:
      each element is queried up to the closest parameter found before it,
      and a hit replaces the one held. */
  function Scan(hits: seq<Hittable>, ray: Ray, tMin: real, tMax: real): (r: Option<HitRecord>)
    ensures r.Some? ==> tMin < r.value.t < tMax
    decreases |hits|
  {
    if |hits| == 0 then None
    else
      var before := Scan(hits[..|hits| - 1], ray, tMin, tMax);
      match Hit(hits[|hits| - 1], ray, tMin, Closest(before, tMax))
      case Some(record) => Some(record)
      case None => before
  }

  /** The union of the boxes of `hits` folded from the left, or nothing when
      the list is empty or some element has no box. */
  function FoldBoxes(hits: seq<Hittable>, t0: real, t1: real): Option<Boxes.Aabb>
    decreases |hits|
  {
    if |hits| == 0 then None
    else if |hits| == 1 then BoundingBox(hits[0], t0, t1)
    else
      var before := FoldBoxes(hits[..|hits| - 1], t0, t1);
      var last := BoundingBox(hits[|hits| - 1], t0, t1);
      if before.Some? && last.Some? then Some(Boxes.SurroundingBox(before.value, last.value)) else None
  }

  class World {
    var hits: seq<Hittable>

    /** `World::new`: no elements. */
    constructor ()
      ensures hits == []
    {
      hits := [];
    }

    /** `World::add`: one element appended at the end. */
    method Add(h: Hittable)
      modifies this
      ensures hits == old(hits) + [h]
    {
      hits := hits + [h];
    }

    /** `World::hit`: each element queried over `(tMin, closest)`, where
        `closest` starts at `tMax` and becomes the parameter of each hit. */
    method Hit(ray: Ray, tMin: real, tMax: real) returns (result: Option<HitRecord>)
      ensures result == Scan(hits, ray, tMin, tMax)
      ensures result.Some? ==> tMin < result.value.t < tMax
    {
      result := None;
      var closest := tMax;
      for i := 0 to |hits|
        invariant result == Scan(hits[..i], ray, tMin, tMax)
        invariant closest == Closest(result, tMax) && closest <= tMax
      {
        assert hits[..i + 1][..i] == hits[..i];
        var record := Hittables.Hit(hits[i], ray, tMin, closest);
        if record.Some? {
          closest := record.value.t;
          result := record;
        }
      }
      assert hits[..|hits|] == hits;
    }

    /** `World::bounding_box`: nothing for an empty list; otherwise the box
        of the first element widened by the box of each later one, and
        nothing as soon as an element has none. */
    method BoundingBox(t0: real, t1: real) returns (result: Option<Boxes.Aabb>)
      ensures result == FoldBoxes(hits, t0, t1)
    {
      if |hits| < 1 {
        return None;
      }
      var first := Hittables.BoundingBox(hits[0], t0, t1);
      if first.None? {
        FoldWithoutFirstBox(hits, t0, t1);
        return None;
      }
      var bb := first.value;
      for i := 1 to |hits|
        invariant FoldBoxes(hits[..i], t0, t1) == Some(bb)
      {
        assert hits[..i + 1][..i] == hits[..i];
        var next := Hittables.BoundingBox(hits[i], t0, t1);
        if next.None? {
          FoldWithoutBox(hits, i, t0, t1);
          return None;
        }
        bb := Boxes.SurroundingBox(bb, next.value);
      }
      assert hits[..|hits|] == hits;
      return Some(bb);
    }
  }

  /** Once an element without a box is folded in, the fold has no box. */
  lemma {:induction false} FoldWithoutBox(hits: seq<Hittable>, i: int, t0: real, t1: real)
    requires 0 <= i < |hits| && BoundingBox(hits[i], t0, t1).None?
    ensures FoldBoxes(hits, t0, t1).None?
    decreases |hits|
  {
    if i < |hits| - 1 {
      FoldWithoutBox(hits[..|hits| - 1], i, t0, t1);
    }
  }

  lemma FoldWithoutFirstBox(hits: seq<Hittable>, t0: real, t1: real)
    requires 0 < |hits| && BoundingBox(hits[0], t0, t1).None?
    ensures FoldBoxes(hits, t0, t1).None?
  {
    FoldWithoutBox(hits, 0, t0, t1);
  }

  /** The union has a box exactly when the list is nonempty and every
      element has one. */
  lemma {:induction false} FoldBoxesPresent(hits: seq<Hittable>, t0: real, t1: real)
    ensures FoldBoxes(hits, t0, t1).Some? <==>
            0 < |hits| && forall i :: 0 <= i < |hits| ==> BoundingBox(hits[i], t0, t1).Some?
    decreases |hits|
  {
    if 1 < |hits| {
      var init := hits[..|hits| - 1];
      FoldBoxesPresent(init, t0, t1);
      assert forall i :: 0 <= i < |init| ==> init[i] == hits[i];
    }
  }

  /** The union, when there is one, encloses the box of every element. */
  lemma {:induction false} FoldBoxesEncloses(hits: seq<Hittable>, t0: real, t1: real)
    requires FoldBoxes(hits, t0, t1).Some?
    ensures forall i :: 0 <= i < |hits| ==>
              BoundingBox(hits[i], t0, t1).Some? &&
              Boxes.Encloses(FoldBoxes(hits, t0, t1).value, BoundingBox(hits[i], t0, t1).value)
    decreases |hits|
  {
    FoldBoxesPresent(hits, t0, t1);
    if 1 < |hits| {
      var init := hits[..|hits| - 1];
      FoldBoxesEncloses(init, t0, t1);
      var u := FoldBoxes(hits, t0, t1).value;
      forall i | 0 <= i < |hits| - 1
        ensures Boxes.Encloses(u, BoundingBox(hits[i], t0, t1).value)
      {
        assert init[i] == hits[i];
        Boxes.EnclosesTransitive(u, FoldBoxes(init, t0, t1).value, BoundingBox(hits[i], t0, t1).value);
      }
    }
  }

  /** The closest bound never grows: each step of the scan answers at or
      below the bound the previous steps left. */
  lemma ScanClosestShrinks(hits: seq<Hittable>, ray: Ray, tMin: real, tMax: real)
    requires 0 < |hits|
    ensures Closest(Scan(hits, ray, tMin, tMax), tMax) <=
            Closest(Scan(hits[..|hits| - 1], ray, tMin, tMax), tMax)
  {
  }

  /** The answer of each element to the full query `(tMin, tMax)`. */
  function Answers(hits: seq<Hittable>, ray: Ray, tMin: real, tMax: real): (ws: seq<Option<HitRecord>>)
    ensures |ws| == |hits|
    ensures forall j :: 0 <= j < |hits| ==> ws[j] == Hit(hits[j], ray, tMin, tMax)
    decreases |hits|
  {
    if |hits| == 0 then []
    else Answers(hits[..|hits| - 1], ray, tMin, tMax) + [Hit(hits[|hits| - 1], ray, tMin, tMax)]
  }

  /** `r` is the nearest of the answers `ws`, the earliest winning ties, or
      nothing when every answer is empty. */
  ghost predicate NearestAnswer(ws: seq<Option<HitRecord>>, r: Option<HitRecord>) {
    (r.None? <==> forall j :: 0 <= j < |ws| ==> ws[j].None?) &&
    (r.Some? ==> forall j :: 0 <= j < |ws| && ws[j].Some? ==> r.value.t <= ws[j].value.t) &&
    (r.Some? ==> exists i :: 0 <= i < |ws| && ws[i] == r &&
                   forall j :: 0 <= j < i && ws[j].Some? ==> r.value.t < ws[j].value.t)
  }

  /** The scan of `World::hit` read over the elements' full answers: an
      answer replaces the held one when it is strictly nearer. */
  function KeepNearer(ws: seq<Option<HitRecord>>, tMax: real): Option<HitRecord>
    decreases |ws|
  {
    if |ws| == 0 then None
    else
      var before := KeepNearer(ws[..|ws| - 1], tMax);
      var last := ws[|ws| - 1];
      if last.Some? && last.value.t < Closest(before, tMax) then last else before
  }

  /** When every element answers a narrower query with the part of its wider
      answer below the new bound, the scan finds the nearest hit. */
  lemma ScanFindsNearest(hits: seq<Hittable>, ray: Ray, tMin: real, tMax: real)
    requires forall j :: 0 <= j < |hits| ==> ShrinkConsistent(hits[j], ray, tMin, tMax)
    ensures NearestAnswer(Answers(hits, ray, tMin, tMax), Scan(hits, ray, tMin, tMax))
  {
    var ws := Answers(hits, ray, tMin, tMax);
    ScanKeepsNearer(hits, ray, tMin, tMax);
    KeepNearerMissesOnlyWhenAllMiss(ws, tMax);
    KeepNearerBelowEveryAnswer(ws, tMax);
    KeepNearerKeepsEarliest(ws, tMax);
  }

  /** One step of the scan under narrowing consistency: the last element's
      full answer replaces the held hit exactly when it is strictly nearer. */
  lemma ScanStep(hits: seq<Hittable>, ray: Ray, tMin: real, tMax: real)
    requires 0 < |hits|
    requires ShrinkConsistent(hits[|hits| - 1], ray, tMin, tMax)
    ensures var before := Scan(hits[..|hits| - 1], ray, tMin, tMax);
            var wide := Hit(hits[|hits| - 1], ray, tMin, tMax);
            Scan(hits, ray, tMin, tMax) ==
              if wide.Some? && wide.value.t < Closest(before, tMax) then wide else before
  {
    var before := Scan(hits[..|hits| - 1], ray, tMin, tMax);
    assert Hit(hits[|hits| - 1], ray, tMin, Closest(before, tMax)) ==
           Clip(Hit(hits[|hits| - 1], ray, tMin, tMax), Closest(before, tMax));
  }

  lemma {:induction false} ScanKeepsNearer(hits: seq<Hittable>, ray: Ray, tMin: real, tMax: real)
    requires forall j :: 0 <= j < |hits| ==> ShrinkConsistent(hits[j], ray, tMin, tMax)
    ensures Scan(hits, ray, tMin, tMax) == KeepNearer(Answers(hits, ray, tMin, tMax), tMax)
    decreases |hits|
  {
    if 0 < |hits| {
      var init := hits[..|hits| - 1];
      assert forall j :: 0 <= j < |init| ==> init[j] == hits[j];
      ScanKeepsNearer(init, ray, tMin, tMax);
      ScanStep(hits, ray, tMin, tMax);
      var ws := Answers(hits, ray, tMin, tMax);
      assert ws == Answers(init, ray, tMin, tMax) + [Hit(hits[|hits| - 1], ray, tMin, tMax)];
      assert ws[..|ws| - 1] == Answers(init, ray, tMin, tMax);
    }
  }

  lemma {:induction false} KeepNearerMissesOnlyWhenAllMiss(ws: seq<Option<HitRecord>>, tMax: real)
    requires forall j :: 0 <= j < |ws| && ws[j].Some? ==> ws[j].value.t < tMax
    ensures KeepNearer(ws, tMax).None? <==> forall j :: 0 <= j < |ws| ==> ws[j].None?
    decreases |ws|
  {
    if 0 < |ws| {
      var init := ws[..|ws| - 1];
      assert forall j :: 0 <= j < |init| ==> init[j] == ws[j];
      KeepNearerMissesOnlyWhenAllMiss(init, tMax);
    }
  }

  lemma {:induction false} KeepNearerBelowEveryAnswer(ws: seq<Option<HitRecord>>, tMax: real)
    requires forall j :: 0 <= j < |ws| && ws[j].Some? ==> ws[j].value.t < tMax
    ensures KeepNearer(ws, tMax).Some? ==>
            forall j :: 0 <= j < |ws| && ws[j].Some? ==> KeepNearer(ws, tMax).value.t <= ws[j].value.t
    decreases |ws|
  {
    if 0 < |ws| {
      var init := ws[..|ws| - 1];
      assert forall j :: 0 <= j < |init| ==> init[j] == ws[j];
      KeepNearerBelowEveryAnswer(init, tMax);
      KeepNearerMissesOnlyWhenAllMiss(init, tMax);
    }
  }

  lemma {:induction false} KeepNearerKeepsEarliest(ws: seq<Option<HitRecord>>, tMax: real)
    requires forall j :: 0 <= j < |ws| && ws[j].Some? ==> ws[j].value.t < tMax
    ensures KeepNearer(ws, tMax).Some? ==>
            exists i :: 0 <= i < |ws| && ws[i] == KeepNearer(ws, tMax) &&
              forall j :: 0 <= j < i && ws[j].Some? ==> KeepNearer(ws, tMax).value.t < ws[j].value.t
    decreases |ws|
  {
    if 0 < |ws| {
      var n := |ws| - 1;
      var init := ws[..n];
      assert forall j :: 0 <= j < |init| ==> init[j] == ws[j];
      var before := KeepNearer(init, tMax);
      var r := KeepNearer(ws, tMax);
      if r != before {
        KeepNearerBelowEveryAnswer(init, tMax);
        KeepNearerMissesOnlyWhenAllMiss(init, tMax);
        assert ws[n] == r;
      } else if before.Some? {
        KeepNearerKeepsEarliest(init, tMax);
        var i :| 0 <= i < n && init[i] == before &&
          forall j :: 0 <= j < i && init[j].Some? ==> before.value.t < init[j].value.t;
        assert ws[i] == r;
      }
    }
  }

  /** An empty world is never hit. */
  lemma EmptyScan(ray: Ray, tMin: real, tMax: real)
    ensures Scan([], ray, tMin, tMax).None?
  {
  }
}
