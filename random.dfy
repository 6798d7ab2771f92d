/** Rejection sampling of src/random.rs. The random source is replaced by
    the sequence of triples of draws it would produce, one triple per trial. */
module Sampling {

  import opened Wrappers
  import opened RealArith
  import opened Vector

  /** A draw of `random_float()`, which lies in [0, 1). */
  predicate UnitDraw(r: real) {
    0.0 <= r < 1.0
  }

  predicate UnitDraws(d: Vec3) {
    UnitDraw(d.x) && UnitDraw(d.y) && UnitDraw(d.z)
  }

  /** The trial point of one iteration: `draws * 2.0 - (1, 1, 1)`. */
  function Candidate(d: Vec3): Vec3 {
    Sub(Scale(d, 2.0), Vec3(1.0, 1.0, 1.0))
  }

  /** The exit test of src/random.rs: on or outside the unit sphere. */
  predicate Accepted(p: Vec3) {
    SquaredLength(p) >= 1.0
  }

  /** `random_in_unit_sphere` of src/random.rs: the first trial point whose
      squared length is at least one. The loop has no other exit; when the
      given trials run out without one, the model answers `None` (the
      program would go on drawing). */
  method RandomInUnitSphere(trials: seq<Vec3>) returns (p: Option<Vec3>)
    ensures p.None? <==> forall k :: 0 <= k < |trials| ==> !Accepted(Candidate(trials[k]))
    ensures p.Some? ==> exists i :: 0 <= i < |trials| && p.value == Candidate(trials[i]) &&
                          forall k :: 0 <= k < i ==> !Accepted(Candidate(trials[k]))
    ensures p.Some? ==> Accepted(p.value)
  {
    for i := 0 to |trials|
      invariant forall k :: 0 <= k < i ==> !Accepted(Candidate(trials[k]))
    {
      var candidate := Sub(Scale(trials[i], 2.0), Vec3(1.0, 1.0, 1.0));
      if SquaredLength(candidate) >= 1.0 {
        return Some(candidate);
      }
    }
    return None;
  }

  /** Each coordinate of a trial point lies in [-1, 1). */
  lemma CandidateInCube(d: Vec3)
    requires UnitDraws(d)
    ensures -1.0 <= Candidate(d).x < 1.0 && -1.0 <= Candidate(d).y < 1.0 && -1.0 <= Candidate(d).z < 1.0
  {
  }

  /** A point returned from draws in [0, 1) has squared length between one
      and three: it lies outside the unit sphere, inside the cube. */
  lemma AcceptedOutsideUnitSphere(d: Vec3)
    requires UnitDraws(d) && Accepted(Candidate(d))
    ensures 1.0 <= SquaredLength(Candidate(d)) <= 3.0
  {
    var c := Candidate(d);
    SquareAtMostOne(c.x);
    SquareAtMostOne(c.y);
    SquareAtMostOne(c.z);
  }

  lemma SquareAtMostOne(c: real)
    requires -1.0 <= c <= 1.0
    ensures c * c <= 1.0
  {
    ProductNonNegative(1.0 - c, 1.0 + c);
    assert (1.0 - c) * (1.0 + c) == 1.0 - c * c;
  }
}
