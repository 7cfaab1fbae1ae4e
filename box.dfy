// Axis-aligned integer boxes (`Box<int2>`, `Box<int3>` and so on): a box is
// a pair of corner points of one dimension. The ranges, intersection,
// containment, inset and enclosing of the header, over any dimension.
module BoxModel {
  import opened Wrappers

  type Point = seq<int>

  function Min(a: int, b: int): int { if a <= b then a else b }
  function Max(a: int, b: int): int { if a >= b then a else b }

  /** `vmin`: the per-dimension minimum. */
  function VMin(a: Point, b: Point): (r: Point)
    requires |a| == |b|
    ensures |r| == |a| && forall i :: 0 <= i < |a| ==> r[i] == Min(a[i], b[i])
  {
    seq(|a|, i requires 0 <= i < |a| => Min(a[i], b[i]))
  }

  /** `vmax`: the per-dimension maximum. */
  function VMax(a: Point, b: Point): (r: Point)
    requires |a| == |b|
    ensures |r| == |a| && forall i :: 0 <= i < |a| ==> r[i] == Max(a[i], b[i])
  {
    seq(|a|, i requires 0 <= i < |a| => Max(a[i], b[i]))
  }

  function Add(a: Point, b: Point): (r: Point)
    requires |a| == |b|
    ensures |r| == |a| && forall i :: 0 <= i < |a| ==> r[i] == a[i] + b[i]
  {
    seq(|a|, i requires 0 <= i < |a| => a[i] + b[i])
  }

  function Sub(a: Point, b: Point): (r: Point)
    requires |a| == |b|
    ensures |r| == |a| && forall i :: 0 <= i < |a| ==> r[i] == a[i] - b[i]
  {
    seq(|a|, i requires 0 <= i < |a| => a[i] - b[i])
  }

  function Neg(a: Point): (r: Point)
    ensures |r| == |a| && forall i :: 0 <= i < |a| ==> r[i] == -a[i]
  {
    seq(|a|, i requires 0 <= i < |a| => -a[i])
  }

  /** The zero point of a dimension, the default `Point()`. */
  function Zero(dim: nat): (r: Point)
    ensures |r| == dim && forall i :: 0 <= i < dim ==> r[i] == 0
  {
    seq(dim, i => 0)
  }

  /** The two corners; the source keeps them in one union of two points. */
  datatype Box = Box(min: Point, max: Point)
  {
    predicate WellFormed() { |min| == |max| }
    function Dim(): nat { |min| }
  }

  // ---------------------------------------------------------------------------
  // Ranges

  /** "min <= max in all dimensions", the box invariant. */
  predicate ValidRange(min: Point, max: Point)
    requires |min| == |max|
  {
    forall i :: 0 <= i < |min| ==> min[i] <= max[i]
  }

  /** "min >= max in any dimension": the range holds no cell. */
  predicate EmptyRange(min: Point, max: Point)
    requires |min| == |max|
  {
    exists i :: 0 <= i < |min| && min[i] >= max[i]
  }

  /** `validBoxRange`: the first dimension with min above max makes it false. */
  method ValidBoxRange(min: Point, max: Point) returns (valid: bool)
    requires |min| == |max|
    ensures valid <==> ValidRange(min, max)
  {
    for i := 0 to |min|
      invariant forall k :: 0 <= k < i ==> min[k] <= max[k]
    {
      if !(min[i] <= max[i]) {
        return false;
      }
    }
    return true;
  }

  /** `emptyRange`: the first dimension with min not below max makes it true. */
  method IsEmptyRange(min: Point, max: Point) returns (empty: bool)
    requires |min| == |max|
    ensures empty <==> EmptyRange(min, max)
  {
    for n := 0 to |min|
      invariant forall k :: 0 <= k < n ==> min[k] < max[k]
    {
      if !(min[n] < max[n]) {
        return true;
      }
    }
    return false;
  }

  /** A box with no cell still has a valid range only if it is flat somewhere. */
  lemma ValidEmpty(min: Point, max: Point)
    requires |min| == |max| && ValidRange(min, max) && EmptyRange(min, max)
    ensures exists i :: 0 <= i < |min| && min[i] == max[i]
  {
  }

  predicate Empty(b: Box)
    requires b.WellFormed()
  {
    EmptyRange(b.min, b.max)
  }

  predicate Valid(b: Box)
    requires b.WellFormed()
  {
    ValidRange(b.min, b.max)
  }

  /** Points inside a box, both ends included. */
  predicate Inside(b: Box, p: Point)
    requires b.WellFormed() && |p| == b.Dim()
  {
    forall i :: 0 <= i < |p| ==> b.min[i] <= p[i] <= b.max[i]
  }

  /** `contains(point)`: inclusive on both ends, dimension by dimension. */
  method ContainsPoint(b: Box, p: Point) returns (inside: bool)
    requires b.WellFormed() && |p| == b.Dim()
    ensures inside <==> Inside(b, p)
  {
    for i := 0 to |p|
      invariant forall k :: 0 <= k < i ==> b.min[k] <= p[k] <= b.max[k]
    {
      if !(p[i] >= b.min[i] && p[i] <= b.max[i]) {
        return false;
      }
    }
    return true;
  }

  /** A valid box holds its corners, an invalid one no point at all. */
  lemma CornersInside(b: Box)
    requires b.WellFormed()
    ensures Valid(b) ==> Inside(b, b.min) && Inside(b, b.max)
    ensures !Valid(b) ==> forall p :: |p| == b.Dim() ==> !Inside(b, p)
  {
    if !Valid(b) {
      var i :| 0 <= i < b.Dim() && b.min[i] > b.max[i];
      forall p | |p| == b.Dim()
        ensures !Inside(b, p)
      {
        assert !(b.min[i] <= p[i] <= b.max[i]);
      }
    }
  }

  // ---------------------------------------------------------------------------
  // Intersection

  /**
   * `intersection`: the corners `vmax` of the minima and `vmin` of the
   * maxima; as a `Maybe<Box>` it is absent when that range is not valid,
   * so touching boxes intersect in an empty box.
   */
  function Intersection(a: Box, b: Box): (r: Option<Box>)
    requires a.WellFormed() && b.WellFormed() && a.Dim() == b.Dim()
    ensures r.Some? ==> r.value.WellFormed() && r.value.Dim() == a.Dim() && Valid(r.value)
  {
    var lo, hi := VMax(a.min, b.min), VMin(a.max, b.max);
    if ValidRange(lo, hi) then Some(Box(lo, hi)) else None
  }

  /** Intersecting keeps exactly the common points; no common point means no intersection. */
  lemma {:induction false} IntersectionPoints(a: Box, b: Box, p: Point)
    requires a.WellFormed() && b.WellFormed() && a.Dim() == b.Dim() && |p| == a.Dim()
    ensures Intersection(a, b).Some? ==> (Inside(Intersection(a, b).value, p) <==> Inside(a, p) && Inside(b, p))
    ensures Intersection(a, b).None? ==> !(Inside(a, p) && Inside(b, p))
  {
    var lo, hi := VMax(a.min, b.min), VMin(a.max, b.max);
    if Inside(a, p) && Inside(b, p) {
      assert ValidRange(lo, hi) by {
        forall i | 0 <= i < |lo|
          ensures lo[i] <= hi[i]
        {
          assert a.min[i] <= p[i] <= a.max[i] && b.min[i] <= p[i] <= b.max[i];
        }
      }
    }
  }

  /** `intersectionOrEmpty`: the intersection when it holds a cell, else the default box. */
  function IntersectionOrEmpty(a: Box, b: Box): (r: Box)
    requires a.WellFormed() && b.WellFormed() && a.Dim() == b.Dim()
    ensures r.WellFormed() && r.Dim() == a.Dim()
  {
    var lo, hi := VMax(a.min, b.min), VMin(a.max, b.max);
    if !EmptyRange(lo, hi) then Box(lo, hi) else Box(Zero(a.Dim()), Zero(a.Dim()))
  }

  /** `intersectionOrEmpty` is the intersection when the boxes overlap, else the default box. */
  lemma IntersectionOrEmptyOverlap(a: Box, b: Box)
    requires a.WellFormed() && b.WellFormed() && a.Dim() == b.Dim()
    ensures Overlaps(a, b) ==> Intersection(a, b) == Some(IntersectionOrEmpty(a, b))
    ensures !Overlaps(a, b) ==> IntersectionOrEmpty(a, b) == Box(Zero(a.Dim()), Zero(a.Dim()))
  {
    var lo, hi := VMax(a.min, b.min), VMin(a.max, b.max);
    if !EmptyRange(lo, hi) {
      assert ValidRange(lo, hi) by {
        forall i | 0 <= i < |lo|
          ensures lo[i] <= hi[i]
        {
          assert !(lo[i] >= hi[i]);
        }
      }
    }
  }

  /** `overlaps`: the intersection exists and is not empty. */
  predicate Overlaps(a: Box, b: Box)
    requires a.WellFormed() && b.WellFormed() && a.Dim() == b.Dim()
  {
    var r := Intersection(a, b);
    r.Some? && !Empty(r.value)
  }

  /** `touches`: the intersection exists and is empty. */
  predicate Touches(a: Box, b: Box)
    requires a.WellFormed() && b.WellFormed() && a.Dim() == b.Dim()
  {
    var r := Intersection(a, b);
    r.Some? && Empty(r.value)
  }

  /** `overlapsNotEmpty`: neither box empty, and they overlap. */
  predicate OverlapsNotEmpty(a: Box, b: Box)
    requires a.WellFormed() && b.WellFormed() && a.Dim() == b.Dim()
  {
    !Empty(a) && !Empty(b) && Overlaps(a, b)
  }

  /** Overlapping boxes share an open slab in every dimension. */
  lemma OverlapsCoordinates(a: Box, b: Box)
    requires a.WellFormed() && b.WellFormed() && a.Dim() == b.Dim()
    ensures Overlaps(a, b) <==> forall i :: 0 <= i < a.Dim() ==> OpenOverlap(a, b, i)
  {
    var lo, hi := VMax(a.min, b.min), VMin(a.max, b.max);
    if forall i :: 0 <= i < a.Dim() ==> OpenOverlap(a, b, i) {
      assert forall i :: 0 <= i < |lo| ==> lo[i] < hi[i] by {
        forall i | 0 <= i < |lo|
          ensures lo[i] < hi[i]
        {
          assert OpenOverlap(a, b, i);
        }
      }
      assert ValidRange(lo, hi);
    }
    if Overlaps(a, b) {
      forall i | 0 <= i < a.Dim()
        ensures OpenOverlap(a, b, i)
      {
        assert !(lo[i] >= hi[i]);
      }
    }
  }

  /** In dimension `i` both boxes are open intervals that meet in an open interval. */
  predicate OpenOverlap(a: Box, b: Box, i: int)
    requires a.WellFormed() && b.WellFormed() && a.Dim() == b.Dim() && 0 <= i < a.Dim()
  {
    a.min[i] < a.max[i] && b.min[i] < b.max[i] && a.min[i] < b.max[i] && b.min[i] < a.max[i]
  }

  /** In dimension `i` both boxes are valid intervals that share at least one value. */
  predicate ClosedOverlap(a: Box, b: Box, i: int)
    requires a.WellFormed() && b.WellFormed() && a.Dim() == b.Dim() && 0 <= i < a.Dim()
  {
    a.min[i] <= a.max[i] && b.min[i] <= b.max[i] && a.min[i] <= b.max[i] && b.min[i] <= a.max[i]
  }

  /** Touching boxes share a value in every dimension and only a single value in some. */
  lemma TouchesCoordinates(a: Box, b: Box)
    requires a.WellFormed() && b.WellFormed() && a.Dim() == b.Dim()
    ensures Touches(a, b) <==>
      ((forall i :: 0 <= i < a.Dim() ==> ClosedOverlap(a, b, i)) &&
       exists i :: 0 <= i < a.Dim() && Max(a.min[i], b.min[i]) == Min(a.max[i], b.max[i]))
  {
    var lo, hi := VMax(a.min, b.min), VMin(a.max, b.max);
    if Touches(a, b) {
      forall i | 0 <= i < a.Dim()
        ensures ClosedOverlap(a, b, i)
      {
        assert lo[i] <= hi[i];
      }
      var i :| 0 <= i < |lo| && lo[i] >= hi[i];
      assert lo[i] <= hi[i];
    }
    if (forall i :: 0 <= i < a.Dim() ==> ClosedOverlap(a, b, i)) &&
       exists i :: 0 <= i < a.Dim() && Max(a.min[i], b.min[i]) == Min(a.max[i], b.max[i]) {
      assert ValidRange(lo, hi) by {
        forall i | 0 <= i < |lo|
          ensures lo[i] <= hi[i]
        {
          assert ClosedOverlap(a, b, i);
        }
      }
      var i :| 0 <= i < a.Dim() && Max(a.min[i], b.min[i]) == Min(a.max[i], b.max[i]);
      assert lo[i] >= hi[i];
    }
  }

  /** Two boxes never both overlap and touch. */
  lemma OverlapsOrTouches(a: Box, b: Box)
    requires a.WellFormed() && b.WellFormed() && a.Dim() == b.Dim()
    ensures !(Overlaps(a, b) && Touches(a, b))
    ensures Intersection(a, b).Some? <==> Overlaps(a, b) || Touches(a, b)
  {
  }

  /** `contains(box)`: the box equals its intersection with this one. */
  predicate ContainsBox(outer: Box, inner: Box)
    requires outer.WellFormed() && inner.WellFormed() && outer.Dim() == inner.Dim()
  {
    Intersection(outer, inner) == Some(inner)
  }

  /** A valid box is contained exactly when its corners lie within the other's, dimension by dimension. */
  lemma ContainsBoxCoordinates(outer: Box, inner: Box)
    requires outer.WellFormed() && inner.WellFormed() && outer.Dim() == inner.Dim()
    ensures ContainsBox(outer, inner) <==>
      (Valid(inner) && forall i :: 0 <= i < inner.Dim() ==> outer.min[i] <= inner.min[i] && inner.max[i] <= outer.max[i])
  {
    var lo, hi := VMax(outer.min, inner.min), VMin(outer.max, inner.max);
    if ContainsBox(outer, inner) {
      forall i | 0 <= i < inner.Dim()
        ensures outer.min[i] <= inner.min[i] && inner.max[i] <= outer.max[i]
      {
        assert lo[i] == inner.min[i] && hi[i] == inner.max[i];
      }
    }
    if Valid(inner) && forall i :: 0 <= i < inner.Dim() ==> outer.min[i] <= inner.min[i] && inner.max[i] <= outer.max[i] {
      assert lo == inner.min;
      assert hi == inner.max;
    }
  }

  /** A contained box's points are the other's points. */
  lemma ContainsBoxPoints(outer: Box, inner: Box, p: Point)
    requires outer.WellFormed() && inner.WellFormed() && outer.Dim() == inner.Dim() && |p| == inner.Dim()
    requires ContainsBox(outer, inner) && Inside(inner, p)
    ensures Inside(outer, p)
  {
    ContainsBoxCoordinates(outer, inner);
  }

  // ---------------------------------------------------------------------------
  // Inset and enlarge

  /**
   * `inset`: each corner moved inwards by its own amount, then the two
   * re-sorted per dimension, so the result is valid whatever the amounts.
   */
  function Inset(b: Box, valMin: Point, valMax: Point): (r: Box)
    requires b.WellFormed() && |valMin| == |valMax| == b.Dim()
    ensures r.WellFormed() && r.Dim() == b.Dim() && Valid(r)
  {
    var newMin, newMax := Add(b.min, valMin), Sub(b.max, valMax);
    Box(VMin(newMin, newMax), VMax(newMin, newMax))
  }

  /** When the moved corners stay ordered, `inset` is exactly the moved box. */
  lemma InsetOrdered(b: Box, valMin: Point, valMax: Point)
    requires b.WellFormed() && |valMin| == |valMax| == b.Dim()
    requires forall i :: 0 <= i < b.Dim() ==> b.min[i] + valMin[i] <= b.max[i] - valMax[i]
    ensures Inset(b, valMin, valMax) == Box(Add(b.min, valMin), Sub(b.max, valMax))
  {
    var r := Inset(b, valMin, valMax);
    assert r.min == Add(b.min, valMin);
    assert r.max == Sub(b.max, valMax);
  }

  /** Insetting by non-negative amounts that keep the corners ordered stays within the box. */
  lemma InsetWithin(b: Box, valMin: Point, valMax: Point)
    requires b.WellFormed() && |valMin| == |valMax| == b.Dim()
    requires forall i :: 0 <= i < b.Dim() ==> valMin[i] >= 0 && valMax[i] >= 0
    requires forall i :: 0 <= i < b.Dim() ==> b.min[i] + valMin[i] <= b.max[i] - valMax[i]
    ensures ContainsBox(b, Inset(b, valMin, valMax))
  {
    InsetOrdered(b, valMin, valMax);
    ContainsBoxCoordinates(b, Inset(b, valMin, valMax));
  }

  /** Insetting past the middle flips the corners: [0, 10] inset by 8 on both sides is [2, 8]. */
  lemma InsetPastMiddle()
    ensures Inset(Box([0], [10]), [8], [8]) == Box([2], [8])
  {
    var r := Inset(Box([0], [10]), [8], [8]);
    assert r.min[0] == 2 && r.max[0] == 8;
  }

  /** `enlarge`: an inset by the negated amounts. */
  function Enlarge(b: Box, valMin: Point, valMax: Point): (r: Box)
    requires b.WellFormed() && |valMin| == |valMax| == b.Dim()
    ensures r.WellFormed() && r.Dim() == b.Dim() && Valid(r)
  {
    Inset(b, Neg(valMin), Neg(valMax))
  }

  /** Enlarging a valid box by non-negative amounts contains the box. */
  lemma EnlargeContains(b: Box, valMin: Point, valMax: Point)
    requires b.WellFormed() && |valMin| == |valMax| == b.Dim() && Valid(b)
    requires forall i :: 0 <= i < b.Dim() ==> valMin[i] >= 0 && valMax[i] >= 0
    ensures ContainsBox(Enlarge(b, valMin, valMax), b)
    ensures Enlarge(b, valMin, valMax) == Box(Sub(b.min, valMin), Add(b.max, valMax))
  {
    var r := Enlarge(b, valMin, valMax);
    InsetOrdered(b, Neg(valMin), Neg(valMax));
    assert r.min == Sub(b.min, valMin);
    assert r.max == Add(b.max, valMax);
    ContainsBoxCoordinates(r, b);
  }

  // ---------------------------------------------------------------------------
  // Enclosing

  /** `enclose(lhs, rhs)`: `vmin` of the minima and `vmax` of the maxima. */
  function Enclose(a: Box, b: Box): (r: Box)
    requires a.WellFormed() && b.WellFormed() && a.Dim() == b.Dim()
    ensures r.WellFormed() && r.Dim() == a.Dim()
  {
    Box(VMin(a.min, b.min), VMax(a.max, b.max))
  }

  /** The enclosing box contains both valid boxes, and any box that contains both contains it. */
  lemma EncloseSmallest(a: Box, b: Box, c: Box)
    requires a.WellFormed() && b.WellFormed() && c.WellFormed() && a.Dim() == b.Dim() == c.Dim()
    requires Valid(a) && Valid(b)
    ensures ContainsBox(Enclose(a, b), a) && ContainsBox(Enclose(a, b), b)
    ensures ContainsBox(c, a) && ContainsBox(c, b) ==> ContainsBox(c, Enclose(a, b))
  {
    var e := Enclose(a, b);
    ContainsBoxCoordinates(e, a);
    ContainsBoxCoordinates(e, b);
    ContainsBoxCoordinates(c, a);
    ContainsBoxCoordinates(c, b);
    ContainsBoxCoordinates(c, e);
  }

  /** `enclose(box, point)`: the box grown to hold the point. */
  function EnclosePoint(b: Box, p: Point): (r: Box)
    requires b.WellFormed() && |p| == b.Dim()
    ensures r.WellFormed() && r.Dim() == b.Dim()
  {
    Box(VMin(b.min, p), VMax(b.max, p))
  }

  /** The grown box holds the point and, when valid, the box. */
  lemma EnclosePointContains(b: Box, p: Point)
    requires b.WellFormed() && |p| == b.Dim()
    ensures Inside(EnclosePoint(b, p), p)
    ensures Valid(b) ==> ContainsBox(EnclosePoint(b, p), b)
  {
    var r := EnclosePoint(b, p);
    if Valid(b) {
      ContainsBoxCoordinates(r, b);
    }
  }

  /** `encloseNotEmpty`: an empty operand gives way to the other. */
  function EncloseNotEmpty(a: Box, b: Box): (r: Box)
    requires a.WellFormed() && b.WellFormed() && a.Dim() == b.Dim()
    ensures r.WellFormed() && r.Dim() == a.Dim()
    ensures Empty(a) ==> r == b
    ensures !Empty(a) && Empty(b) ==> r == a
    ensures !Empty(a) && !Empty(b) ==> r == Enclose(a, b)
  {
    if Empty(a) then b else if Empty(b) then a else Enclose(a, b)
  }

  /** All points of a sequence have dimension `dim`. */
  predicate Dimension(points: seq<Point>, dim: nat)
  {
    forall k :: 0 <= k < |points| ==> |points[k]| == dim
  }

  /**
   * `enclose(points)`: the default box for no points, else the running
   * `vmin` and `vmax` over all of them, starting from the first.
   */
  method EnclosePoints(points: seq<Point>, dim: nat) returns (r: Box)
    requires Dimension(points, dim)
    ensures r.WellFormed() && r.Dim() == dim
    ensures |points| == 0 ==> r == Box(Zero(dim), Zero(dim))
    ensures forall k :: 0 <= k < |points| ==> Inside(r, points[k])
    ensures |points| > 0 ==> forall i :: 0 <= i < dim ==>
      (exists k :: 0 <= k < |points| && points[k][i] == r.min[i]) &&
      (exists k :: 0 <= k < |points| && points[k][i] == r.max[i])
  {
    if |points| == 0 {
      return Box(Zero(dim), Zero(dim));
    }
    var tmin, tmax := points[0], points[0];
    var it := 0;
    while it < |points|
      invariant 0 <= it <= |points| && |tmin| == |tmax| == dim
      invariant forall k :: 0 <= k < it ==> Inside(Box(tmin, tmax), points[k])
      invariant Inside(Box(tmin, tmax), points[0])
      invariant forall i :: 0 <= i < dim ==> Attained(points, it, i, tmin[i]) && Attained(points, it, i, tmax[i])
    {
      ghost var oldMin, oldMax := tmin, tmax;
      tmin := VMin(tmin, points[it]);
      tmax := VMax(tmax, points[it]);
      forall k | 0 <= k <= it
        ensures Inside(Box(tmin, tmax), points[k])
      {
        assert k < it ==> Inside(Box(oldMin, oldMax), points[k]);
      }
      forall i | 0 <= i < dim
        ensures Attained(points, it + 1, i, tmin[i]) && Attained(points, it + 1, i, tmax[i])
      {
        AttainedStep(points, it, i, oldMin[i], tmin[i]);
        AttainedStep(points, it, i, oldMax[i], tmax[i]);
      }
      it := it + 1;
    }
    r := Box(tmin, tmax);
    forall i | 0 <= i < dim
      ensures (exists k :: 0 <= k < |points| && points[k][i] == r.min[i]) &&
        (exists k :: 0 <= k < |points| && points[k][i] == r.max[i])
    {
      assert Attained(points, |points|, i, r.min[i]);
      assert Attained(points, |points|, i, r.max[i]);
    }
  }

  /** Coordinate `i` of one of the first `n` points (or of the first point) is `v`. */
  predicate Attained(points: seq<Point>, n: int, i: int, v: int)
    requires 0 <= n <= |points| && 0 < |points| && Dimension(points, |points[0]|) && 0 <= i < |points[0]|
  {
    points[0][i] == v || exists k :: 0 <= k < n && points[k][i] == v
  }

  lemma AttainedStep(points: seq<Point>, n: int, i: int, v: int, w: int)
    requires 0 <= n < |points| && Dimension(points, |points[0]|) && 0 <= i < |points[0]|
    requires Attained(points, n, i, v) && (w == v || w == points[n][i])
    ensures Attained(points, n + 1, i, w)
  {
    if w != v {
      assert points[n][i] == w;
    } else if points[0][i] != v {
      var k :| 0 <= k < n && points[k][i] == v;
      assert 0 <= k < n + 1;
    }
  }

  /** All boxes of a sequence are well formed with dimension `dim`. */
  predicate BoxDimension(boxes: seq<Box>, dim: nat)
  {
    forall k :: 0 <= k < |boxes| ==> boxes[k].WellFormed() && boxes[k].Dim() == dim
  }

  /** The first `n` boxes enclosed from left to right. */
  function EncloseFold(boxes: seq<Box>, n: nat, dim: nat): (r: Box)
    requires BoxDimension(boxes, dim) && 1 <= n <= |boxes|
    ensures r.WellFormed() && r.Dim() == dim
  {
    if n == 1 then boxes[0] else Enclose(EncloseFold(boxes, n - 1, dim), boxes[n - 1])
  }

  /** The enclosure of valid boxes is valid and contains each of them. */
  lemma {:induction false} EncloseFoldContains(boxes: seq<Box>, n: nat, dim: nat)
    requires BoxDimension(boxes, dim) && 1 <= n <= |boxes|
    requires forall k :: 0 <= k < n ==> Valid(boxes[k])
    ensures Valid(EncloseFold(boxes, n, dim))
    ensures forall k :: 0 <= k < n ==> ContainsBox(EncloseFold(boxes, n, dim), boxes[k])
  {
    var r := EncloseFold(boxes, n, dim);
    if n == 1 {
      ContainsBoxCoordinates(r, r);
    } else {
      var prev := EncloseFold(boxes, n - 1, dim);
      EncloseFoldContains(boxes, n - 1, dim);
      EncloseSmallest(prev, boxes[n - 1], r);
      ContainsTransitive(r, prev, boxes[0]);
      forall k | 0 <= k < n - 1
        ensures ContainsBox(r, boxes[k])
      {
        ContainsTransitive(r, prev, boxes[k]);
      }
    }
  }

  /** Containment is transitive, and a box that contains a box is valid. */
  lemma ContainsTransitive(a: Box, b: Box, c: Box)
    requires a.WellFormed() && b.WellFormed() && c.WellFormed() && a.Dim() == b.Dim() == c.Dim()
    requires ContainsBox(a, b) && ContainsBox(b, c)
    ensures ContainsBox(a, c) && Valid(a)
  {
    ContainsBoxCoordinates(a, b);
    ContainsBoxCoordinates(b, c);
    ContainsBoxCoordinates(a, c);
  }

  /** `encloseRange` over boxes: the default box for none, else the boxes enclosed one after another. */
  method EncloseBoxes(boxes: seq<Box>, dim: nat) returns (r: Box)
    requires BoxDimension(boxes, dim)
    ensures r.WellFormed() && r.Dim() == dim
    ensures |boxes| == 0 ==> r == Box(Zero(dim), Zero(dim))
    ensures |boxes| > 0 ==> r == EncloseFold(boxes, |boxes|, dim)
  {
    if |boxes| == 0 {
      return Box(Zero(dim), Zero(dim));
    }
    r := boxes[0];
    var it := 1;
    while it < |boxes|
      invariant 1 <= it <= |boxes| && r == EncloseFold(boxes, it, dim)
    {
      var enclosed := boxes[it];
      r := Box(VMin(r.min, enclosed.min), VMax(r.max, enclosed.max));
      it := it + 1;
    }
  }
}
