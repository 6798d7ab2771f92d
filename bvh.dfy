/** Building the bounding volume hierarchy (src/bvh.rs): a random axis, a
    sort of the primitives by the lower corner of their boxes on that axis,
    and a split at the midpoint. */
module Bvh {

  import opened Wrappers
  import opened Boxes
  import opened Hittables

  datatype Axis = X | Y | Z

  /** `(3.0 * draw) as i32`, which truncates towards zero, selects x for 0, y
      for 1 and z for anything else. */
  function ChooseAxis(draw: real): (a: Axis)
    ensures a == X <==> -1.0 < 3.0 * draw < 1.0
    ensures a == Y <==> 1.0 <= 3.0 * draw < 2.0
  {
    var index := TruncateToInt(3.0 * draw);
    if index == 0 then X else if index == 1 then Y else Z
  }

  /** `as i32` on a value in range: the integer part, rounded towards zero. */
  function TruncateToInt(x: real): (i: int)
    ensures 0.0 <= x ==> i as real <= x < i as real + 1.0
    ensures x < 0.0 ==> i as real - 1.0 < x <= i as real
  {
    if 0.0 <= x then x.Floor else -((-x).Floor)
  }

  predicate HasBox(h: Hittable) {
    BoundingBox(h, 0.0, 0.0).Some?
  }

  predicate AllBoxed(s: seq<Hittable>) {
    forall i :: 0 <= i < |s| ==> HasBox(s[i])
  }

  /** The lower corner of the box at time (0, 0) on `axis`: what the
      comparators read, whatever the build's own instants are. */
  function Key(h: Hittable, axis: Axis): real
    requires HasBox(h)
  {
    var b := BoundingBox(h, 0.0, 0.0).value;
    match axis
    case X => b.min.x
    case Y => b.min.y
    case Z => b.min.z
  }

  datatype Ordering = Less | Equal | Greater

  /** Why a build stops: an `unwrap` of a missing box, an index past the end
      of the vector, or a recursion that never ends. */
  datatype BuildError = MissingBox | IndexOutOfBounds | NoTermination

  /** `box_x_compare`, `box_y_compare`, `box_z_compare`: `Less` when the
      first box starts strictly lower on the axis, otherwise `Greater`; a
      primitive without a box makes the `unwrap` fail. */
  function BoxCompare(a: Hittable, b: Hittable, axis: Axis): (r: Result<Ordering, BuildError>)
    ensures r.Err? <==> !HasBox(a) || !HasBox(b)
    ensures r.Err? ==> r.error == MissingBox
    ensures r.Ok? ==> r.value != Equal
    ensures r.Ok? ==> (r.value == Less <==> Key(a, axis) < Key(b, axis))
  {
    if !HasBox(a) || !HasBox(b) then Err(MissingBox)
    else if Key(a, axis) - Key(b, axis) < 0.0 then Ok(Less)
    else Ok(Greater)
  }

  predicate SortedByKey(s: seq<Hittable>, axis: Axis)
    requires AllBoxed(s)
  {
    forall i, j :: 0 <= i < j < |s| ==> Key(s[i], axis) <= Key(s[j], axis)
  }

  /** `sort_by` with the comparator of `axis`: a permutation of the input in
      non-decreasing order of the key. */
  method SortByAxis(hits: seq<Hittable>, axis: Axis) returns (sorted: seq<Hittable>)
    requires AllBoxed(hits)
    ensures multiset(sorted) == multiset(hits)
    ensures AllBoxed(sorted) && SortedByKey(sorted, axis)
  {
    sorted := [];
    for i := 0 to |hits|
      invariant multiset(sorted) == multiset(hits[..i])
      invariant AllBoxed(sorted) && SortedByKey(sorted, axis)
    {
      assert hits[..i + 1] == hits[..i] + [hits[i]];
      sorted := Insert(sorted, hits[i], axis);
    }
    assert hits[..|hits|] == hits;
  }

  /** Inserts `x` after every element whose key is not above its own. */
  method Insert(s: seq<Hittable>, x: Hittable, axis: Axis) returns (r: seq<Hittable>)
    requires AllBoxed(s) && SortedByKey(s, axis) && HasBox(x)
    ensures multiset(r) == multiset(s) + multiset{x}
    ensures AllBoxed(r) && SortedByKey(r, axis)
  {
    var j := |s|;
    while j > 0 && BoxCompare(x, s[j - 1], axis) == Ok(Less)
      invariant 0 <= j <= |s|
      invariant forall k :: j <= k < |s| ==> Key(x, axis) < Key(s[k], axis)
    {
      j := j - 1;
    }
    r := s[..j] + [x] + s[j..];
    assert s == s[..j] + s[j..];
    InsertedSorted(s, x, j, axis);
  }

  /** Placing `x` after the keys not above its own and before the keys above
      it keeps a sorted sequence sorted. */
  lemma InsertedSorted(s: seq<Hittable>, x: Hittable, j: int, axis: Axis)
    requires AllBoxed(s) && SortedByKey(s, axis) && HasBox(x)
    requires 0 <= j <= |s|
    requires j > 0 ==> Key(s[j - 1], axis) <= Key(x, axis)
    requires forall k :: j <= k < |s| ==> Key(x, axis) < Key(s[k], axis)
    ensures AllBoxed(s[..j] + [x] + s[j..])
    ensures SortedByKey(s[..j] + [x] + s[j..], axis)
  {
    var r := s[..j] + [x] + s[j..];
    assert r[j] == x;
    assert forall k :: 0 <= k < j ==> r[k] == s[k];
    assert forall k :: j < k < |r| ==> r[k] == s[k - 1];
    assert AllBoxed(r);
    forall a, b | 0 <= a < b < |r|
      ensures Key(r[a], axis) <= Key(r[b], axis)
    {
      if b < j {
        assert r[a] == s[a] && r[b] == s[b];
      } else if b == j {
        assert r[a] == s[a];
        assert Key(s[a], axis) <= Key(s[j - 1], axis);
      } else if a < j {
        assert r[a] == s[a] && r[b] == s[b - 1];
      } else if a == j {
        assert Key(x, axis) < Key(s[b - 1], axis);
      } else {
        assert r[a] == s[a - 1] && r[b] == s[b - 1];
      }
    }
  }

  /** `split_off(l / 2)`: the first half stays, the rest moves out; for two
      or more elements both halves are nonempty and shorter. */
  function Split(s: seq<Hittable>): (h: (seq<Hittable>, seq<Hittable>))
    requires 2 <= |s|
    ensures h.0 + h.1 == s && |h.0| == |s| / 2
    ensures 0 < |h.0| < |s| && 0 < |h.1| < |s|
  {
    (s[..|s| / 2], s[|s| / 2..])
  }

  /** `BvhNode::new`, drawing the axis of each call from `draw` starting at
      index `next` and returning the index after the last draw used. One
      primitive gives a node whose right child is an empty node carrying the
      primitive's box. Two primitives make `remove(1)` run past the end of
      the one-element vector that `remove(0)` leaves. Three or more are
      split after sorting and both halves built. An empty vector recurses
      through `split_off(0)` forever. */
  method Build(hits: seq<Hittable>, time0: real, time1: real, draw: nat -> real, next: nat)
    returns (r: Result<Hittable, BuildError>, after: nat)
    ensures r.Ok? <==> |hits| == 1 && HasBox(hits[0])
    ensures r.Ok? ==> r.value.BvhNode? && r.value.left == hits[0] &&
                      r.value.right == NullNode(r.value.box) &&
                      Some(r.value.box) == BoundingBox(hits[0], time0, time1)
    ensures |hits| == 0 ==> r == Err(NoTermination)
    ensures |hits| == 1 && !HasBox(hits[0]) ==> r == Err(MissingBox)
    ensures 2 <= |hits| ==> r == Err(if AllBoxed(hits) then IndexOutOfBounds else MissingBox)
    ensures next < after
    decreases |hits|
  {
    var axis := ChooseAxis(draw(next));
    after := next + 1;
    if |hits| == 0 {
      return Err(NoTermination), after;
    }
    if 2 <= |hits| && !AllBoxed(hits) {
      return Err(MissingBox), after;
    }
    var sorted := hits;
    if 2 <= |hits| {
      sorted := SortByAxis(hits, axis);
      assert |multiset(sorted)| == |multiset(hits)|;
    }
    var left: Hittable, right: Hittable;
    if |sorted| == 1 {
      left := sorted[0];
      var b := BoundingBox(left, time0, time1);
      if b.None? {
        return Err(MissingBox), after;
      }
      right := NullNode(b.value);
    } else if |sorted| == 2 {
      return Err(IndexOutOfBounds), after;
    } else {
      var halves := Split(sorted);
      AllBoxedParts(halves.0, halves.1);
      var leftResult, afterLeft := Build(halves.0, time0, time1, draw, after);
      after := afterLeft;
      if leftResult.Err? {
        return Err(leftResult.error), after;
      }
      left := leftResult.value;
      var rightResult, afterRight := Build(halves.1, time0, time1, draw, after);
      after := afterRight;
      match rightResult {
        case Err(e) => return Err(e), after;
        case Ok(node) => right := node;
      }
    }
    var boxLeft := BoundingBox(left, time0, time1);
    var boxRight := BoundingBox(right, time0, time1);
    if boxLeft.None? || boxRight.None? {
      return Err(MissingBox), after;
    }
    SurroundingBoxAlgebra(boxLeft.value, boxLeft.value, boxLeft.value);
    r := Ok(BvhNode(left, right, SurroundingBox(boxLeft.value, boxRight.value)));
  }

  /** The two parts of a sequence of boxed primitives are boxed. */
  lemma AllBoxedParts(a: seq<Hittable>, b: seq<Hittable>)
    requires AllBoxed(a + b)
    ensures AllBoxed(a) && AllBoxed(b)
  {
    assert forall i :: 0 <= i < |a| ==> (a + b)[i] == a[i];
    assert forall i :: 0 <= i < |b| ==> (a + b)[|a| + i] == b[i];
  }
}
