/**
 * Axis-aligned bounding boxes: the partial-order helpers, the union of a
 * list of boxes, the larger side and the image of a box under a transform.
 *
 * Coordinates are reals; `f32` rounding and NaN are not modelled, so the
 * partial order of the source is total here.
 */
module Aabb {
  import opened Wrappers

  datatype Vec3 = Vec3(x: real, y: real, z: real)
  datatype Axis = X | Y | Z

  function Coord(v: Vec3, a: Axis): real
  {
    match a
    case X => v.x
    case Y => v.y
    case Z => v.z
  }

  datatype Box = Box(min: Vec3, max: Vec3)

  const ZERO_BOX: Box := Box(Vec3(0.0, 0.0, 0.0), Vec3(0.0, 0.0, 0.0))

  predicate WellFormed(b: Box)
  {
    forall a: Axis :: Coord(b.min, a) <= Coord(b.max, a)
  }

  /** `outer` encloses `inner` on every axis. */
  predicate Encloses(outer: Box, inner: Box)
  {
    forall a: Axis :: Coord(outer.min, a) <= Coord(inner.min, a) && Coord(inner.max, a) <= Coord(outer.max, a)
  }

  /** `min`: the first argument only when it is strictly less, otherwise the second. */
  function Min(v1: real, v2: real): (r: real)
    ensures r <= v1 && r <= v2
    ensures r == v1 || r == v2
    ensures v1 == v2 ==> r == v2
  {
    if v1 < v2 then v1 else v2
  }

  /** `max`: the first argument only when it is strictly greater, otherwise the second. */
  function Max(v1: real, v2: real): (r: real)
    ensures r >= v1 && r >= v2
    ensures r == v1 || r == v2
    ensures v1 == v2 ==> r == v2
  {
    if v1 > v2 then v1 else v2
  }

  /** `partial_min`: the least element, `None` for an empty iterator. */
  function PartialMin(s: seq<real>): (r: Option<real>)
    ensures r.None? <==> |s| == 0
    ensures r.Some? ==> r.value in s && forall i :: 0 <= i < |s| ==> r.value <= s[i]
  {
    if |s| == 0 then None
    else
      match PartialMin(s[1..])
      case None => Some(s[0])
      case Some(m) => Some(if m < s[0] then m else s[0])
  }

  /** `partial_max`: the greatest element, `None` for an empty iterator. */
  function PartialMax(s: seq<real>): (r: Option<real>)
    ensures r.None? <==> |s| == 0
    ensures r.Some? ==> r.value in s && forall i :: 0 <= i < |s| ==> s[i] <= r.value
  {
    if |s| == 0 then None
    else
      match PartialMax(s[1..])
      case None => Some(s[0])
      case Some(m) => Some(if m > s[0] then m else s[0])
  }

  /** Sequences with the same multiset have the same length and the same members. */
  lemma SameElements(s: seq<real>, t: seq<real>)
    requires multiset(s) == multiset(t)
    ensures |s| == |t| && forall x :: x in s <==> x in t
  {
    assert |s| == |multiset(s)| && |t| == |multiset(t)|;
    forall x
      ensures x in s <==> x in t
    {
      assert x in s <==> x in multiset(s);
      assert x in t <==> x in multiset(t);
    }
  }

  /** The least element is determined by the elements alone, whatever their order. */
  lemma PartialMinOrderIndependent(s: seq<real>, t: seq<real>)
    requires multiset(s) == multiset(t)
    ensures PartialMin(s) == PartialMin(t)
  {
    SameElements(s, t);
    if |s| > 0 {
      var ms, mt := PartialMin(s).value, PartialMin(t).value;
      var i :| 0 <= i < |t| && t[i] == ms;
      var j :| 0 <= j < |s| && s[j] == mt;
    }
  }

  /** The greatest element is determined by the elements alone, whatever their order. */
  lemma PartialMaxOrderIndependent(s: seq<real>, t: seq<real>)
    requires multiset(s) == multiset(t)
    ensures PartialMax(s) == PartialMax(t)
  {
    SameElements(s, t);
    if |s| > 0 {
      var ms, mt := PartialMax(s).value, PartialMax(t).value;
      var i :| 0 <= i < |t| && t[i] == ms;
      var j :| 0 <= j < |s| && s[j] == mt;
    }
  }

  function MinCoords(boxes: seq<Box>, a: Axis): (r: seq<real>)
    ensures |r| == |boxes| && forall i :: 0 <= i < |boxes| ==> r[i] == Coord(boxes[i].min, a)
  {
    seq(|boxes|, i requires 0 <= i < |boxes| => Coord(boxes[i].min, a))
  }

  function MaxCoords(boxes: seq<Box>, a: Axis): (r: seq<real>)
    ensures |r| == |boxes| && forall i :: 0 <= i < |boxes| ==> r[i] == Coord(boxes[i].max, a)
  {
    seq(|boxes|, i requires 0 <= i < |boxes| => Coord(boxes[i].max, a))
  }

  /** The lowest min face of `boxes` on axis `a`. */
  function LowFace(boxes: seq<Box>, a: Axis): (r: real)
    requires |boxes| > 0
    ensures forall i :: 0 <= i < |boxes| ==> r <= Coord(boxes[i].min, a)
    ensures exists i :: 0 <= i < |boxes| && r == Coord(boxes[i].min, a)
  {
    var lo := MinCoords(boxes, a);
    var m := PartialMin(lo).value;
    var i :| 0 <= i < |lo| && lo[i] == m;
    m
  }

  /** The highest max face of `boxes` on axis `a`. */
  function HighFace(boxes: seq<Box>, a: Axis): (r: real)
    requires |boxes| > 0
    ensures forall i :: 0 <= i < |boxes| ==> Coord(boxes[i].max, a) <= r
    ensures exists i :: 0 <= i < |boxes| && r == Coord(boxes[i].max, a)
  {
    var hi := MaxCoords(boxes, a);
    var m := PartialMax(hi).value;
    var i :| 0 <= i < |hi| && hi[i] == m;
    m
  }

  /** The box whose faces are the extreme faces of `boxes` on every axis. */
  function Hull(boxes: seq<Box>): (r: Box)
    requires |boxes| > 0
  {
    Box(Vec3(LowFace(boxes, X), LowFace(boxes, Y), LowFace(boxes, Z)),
        Vec3(HighFace(boxes, X), HighFace(boxes, Y), HighFace(boxes, Z)))
  }

  lemma HullFaces(boxes: seq<Box>, a: Axis)
    requires |boxes| > 0
    ensures Coord(Hull(boxes).min, a) == LowFace(boxes, a)
    ensures Coord(Hull(boxes).max, a) == HighFace(boxes, a)
  {
  }

  lemma HullEncloses(boxes: seq<Box>)
    requires |boxes| > 0
    ensures forall i :: 0 <= i < |boxes| ==> Encloses(Hull(boxes), boxes[i])
  {
    forall a: Axis {
      HullFaces(boxes, a);
    }
  }

  /**
   * `Aabb::union`: `None` for no boxes, the box itself for one, otherwise
   * the componentwise minimum of the mins and maximum of the maxes.  The
   * result encloses every box.
   */
  function Union(boxes: seq<Box>): (r: Option<Box>)
    ensures r.None? <==> |boxes| == 0
    ensures |boxes| == 1 ==> r == Some(boxes[0])
    ensures r.Some? ==> forall i :: 0 <= i < |boxes| ==> Encloses(r.value, boxes[i])
  {
    if |boxes| == 0 then None
    else if |boxes| == 1 then Some(boxes[0])
    else
      HullEncloses(boxes);
      Some(Hull(boxes))
  }

  /** Each face of the union of two or more boxes is a face of one of them. */
  lemma UnionTouches(boxes: seq<Box>, a: Axis)
    requires |boxes| >= 2
    ensures exists i :: 0 <= i < |boxes| && Coord(Union(boxes).value.min, a) == Coord(boxes[i].min, a)
    ensures exists i :: 0 <= i < |boxes| && Coord(Union(boxes).value.max, a) == Coord(boxes[i].max, a)
  {
    HullFaces(boxes, a);
  }

  lemma SameVec(u: Vec3, v: Vec3)
    requires forall a: Axis :: Coord(u, a) == Coord(v, a)
    ensures u == v
  {
    assert Coord(u, X) == Coord(v, X) && Coord(u, Y) == Coord(v, Y) && Coord(u, Z) == Coord(v, Z);
  }

  /** The extreme faces depend only on which boxes are present, not on their order. */
  lemma FacesOrderIndependent(boxes: seq<Box>, others: seq<Box>, a: Axis)
    requires |boxes| > 0 && |others| > 0
    requires forall b :: b in boxes <==> b in others
    ensures LowFace(boxes, a) == LowFace(others, a)
    ensures HighFace(boxes, a) == HighFace(others, a)
  {
    LowFaceBelow(boxes, others, a);
    LowFaceBelow(others, boxes, a);
    HighFaceAbove(boxes, others, a);
    HighFaceAbove(others, boxes, a);
  }

  /** The low face of `others` is at or below that of `boxes` when every box is among `others`. */
  lemma LowFaceBelow(boxes: seq<Box>, others: seq<Box>, a: Axis)
    requires |boxes| > 0 && |others| > 0
    requires forall b :: b in boxes ==> b in others
    ensures LowFace(others, a) <= LowFace(boxes, a)
  {
    var i :| 0 <= i < |boxes| && LowFace(boxes, a) == Coord(boxes[i].min, a);
    assert boxes[i] in others;
    var j :| 0 <= j < |others| && others[j] == boxes[i];
  }

  /** The high face of `others` is at or above that of `boxes` when every box is among `others`. */
  lemma HighFaceAbove(boxes: seq<Box>, others: seq<Box>, a: Axis)
    requires |boxes| > 0 && |others| > 0
    requires forall b :: b in boxes ==> b in others
    ensures HighFace(boxes, a) <= HighFace(others, a)
  {
    var i :| 0 <= i < |boxes| && HighFace(boxes, a) == Coord(boxes[i].max, a);
    assert boxes[i] in others;
    var j :| 0 <= j < |others| && others[j] == boxes[i];
  }

  /** The union does not depend on the order of the boxes. */
  lemma UnionOrderIndependent(boxes: seq<Box>, others: seq<Box>)
    requires multiset(boxes) == multiset(others)
    ensures Union(boxes) == Union(others)
  {
    assert |boxes| == |multiset(boxes)| == |multiset(others)| == |others|;
    if |boxes| == 1 {
      assert boxes[0] in multiset(others);
    } else if |boxes| > 1 {
      assert forall b :: b in boxes <==> b in multiset(boxes);
      assert forall b :: b in others <==> b in multiset(others);
      var u, v := Hull(boxes), Hull(others);
      forall a: Axis
        ensures Coord(u.min, a) == Coord(v.min, a) && Coord(u.max, a) == Coord(v.max, a)
      {
        FacesOrderIndependent(boxes, others, a);
        HullFaces(boxes, a);
        HullFaces(others, a);
      }
      SameVec(u.min, v.min);
      SameVec(u.max, v.max);
    }
  }

  function Abs(v: real): real { if v < 0.0 then -v else v }

  /** `get_larger_side_size`: the largest absolute side length. */
  function LargerSideSize(b: Box): (r: real)
    ensures forall a: Axis :: Abs(Coord(b.max, a) - Coord(b.min, a)) <= r
    ensures exists a: Axis :: Abs(Coord(b.max, a) - Coord(b.min, a)) == r
  {
    var x := Abs(b.max.x - b.min.x);
    var y := Abs(b.max.y - b.min.y);
    var z := Abs(b.max.z - b.min.z);
    assert x == Abs(Coord(b.max, X) - Coord(b.min, X));
    assert y == Abs(Coord(b.max, Y) - Coord(b.min, Y));
    assert z == Abs(Coord(b.max, Z) - Coord(b.min, Z));
    if x > y && x > z then x else if y > z then y else z
  }

  /**
   * `Aabb * Mat4`: the two corners are transformed by `m` (the matrix
   * applied to the point with w = 1) and the box is rebuilt from their
   * componentwise min and max, so it is well formed whatever `m` does.
   */
  function Transform(b: Box, m: Vec3 -> Vec3): (r: Box)
    ensures WellFormed(r)
    ensures forall a: Axis ::
              Coord(r.min, a) == Min(Coord(m(b.min), a), Coord(m(b.max), a))
              && Coord(r.max, a) == Max(Coord(m(b.min), a), Coord(m(b.max), a))
  {
    var p, q := m(b.min), m(b.max);
    var lo := Vec3(if p.x < q.x then p.x else q.x, if p.y < q.y then p.y else q.y, if p.z < q.z then p.z else q.z);
    var hi := Vec3(if p.x > q.x then p.x else q.x, if p.y > q.y then p.y else q.y, if p.z > q.z then p.z else q.z);
    Box(lo, hi)
  }
}
