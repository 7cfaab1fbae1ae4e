// The integer predicates of the Delaunay code: the positive-convex quad
// test, the in-circumcircle determinant, the maximum-angle vector
// selection on either side of a vector, and the shoelace polygon area.
// Coordinates are unbounded integers.
module DelaunayModel {
  datatype Vec2 = Vec2(x: int, y: int)

  function Minus(a: Vec2, b: Vec2): Vec2 { Vec2(a.x - b.x, a.y - b.y) }

  /** `cross`: positive when `b` turns counter-clockwise from `a`. */
  function Cross(a: Vec2, b: Vec2): int { a.x * b.y - a.y * b.x }

  /** The second and third index of `wrappedTriplesRange`'s triple at `i`. */
  function Next(i: int, n: int): int { if i + 1 < n then i + 1 else 0 }
  function Next2(i: int, n: int): int { if i + 2 < n then i + 2 else i + 2 - n }

  // ---------------------------------------------------------------------------
  // Positive convex quads

  /** The turn at `b` on the way from `a` to `c`: the cross product of the edges into and out of `b`. */
  function TurnOf(a: Vec2, b: Vec2, c: Vec2): int
  {
    Cross(Minus(b, a), Minus(c, b))
  }

  /** The turn at vertex `Next(i)` of a quad. */
  function Turn(points: seq<Vec2>, i: int): int
    requires |points| == 4 && 0 <= i < 4
  {
    TurnOf(points[i], points[Next(i, 4)], points[Next2(i, 4)])
  }

  /** All four turns are nonzero and of one sign: convex, with no two adjacent edges parallel. */
  predicate PositiveConvex(points: seq<Vec2>)
    requires |points| == 4
  {
    var t0, t1, t2, t3 := Turn(points, 0), Turn(points, 1), Turn(points, 2), Turn(points, 3);
    (t0 > 0 && t1 > 0 && t2 > 0 && t3 > 0) || (t0 < 0 && t1 < 0 && t2 < 0 && t3 < 0)
  }

  /** `isPositiveConvexQuad`: a zero turn fails at once; otherwise the four signs must agree. */
  method IsPositiveConvexQuad(points: seq<Vec2>) returns (convex: bool)
    requires |points| == 4
    ensures convex == PositiveConvex(points)
  {
    var signs := new bool[4];
    for i := 0 to 4
      invariant forall k :: 0 <= k < i ==> Turn(points, k) != 0 && signs[k] == (Turn(points, k) < 0)
    {
      var j, k := Next(i, 4), Next2(i, 4);
      var vec1 := Minus(points[j], points[i]);
      var vec2 := Minus(points[k], points[j]);
      var value := Cross(vec1, vec2);
      assert value == Turn(points, i);
      if value == 0 {
        return false;
      }
      signs[i] := value < 0;
    }
    convex := signs[0] == signs[1] && signs[1] == signs[2] && signs[2] == signs[3];
  }

  function Rotated(points: seq<Vec2>): seq<Vec2>
    requires |points| == 4
  {
    points[1..] + [points[0]]
  }

  function Reversed(points: seq<Vec2>): seq<Vec2>
    requires |points| == 4
  {
    [points[3], points[2], points[1], points[0]]
  }

  /** The test does not depend on the starting vertex. */
  lemma RotatedConvex(points: seq<Vec2>)
    requires |points| == 4
    ensures PositiveConvex(Rotated(points)) == PositiveConvex(points)
  {
    var r := Rotated(points);
    assert Turn(r, 0) == Turn(points, 1) && Turn(r, 1) == Turn(points, 2);
    assert Turn(r, 2) == Turn(points, 3) && Turn(r, 3) == Turn(points, 0);
  }

  /** Walking the quad the other way negates every turn, so the test still holds. */
  lemma ReversedConvex(points: seq<Vec2>)
    requires |points| == 4
    ensures PositiveConvex(Reversed(points)) == PositiveConvex(points)
  {
    var r := Reversed(points);
    TurnReversed(points[1], points[2], points[3]);
    TurnReversed(points[0], points[1], points[2]);
    TurnReversed(points[3], points[0], points[1]);
    TurnReversed(points[2], points[3], points[0]);
    assert Turn(r, 0) == -Turn(points, 1) && Turn(r, 1) == -Turn(points, 0);
    assert Turn(r, 2) == -Turn(points, 3) && Turn(r, 3) == -Turn(points, 2);
  }

  /** The four turns of the quad `[a, b, c, d]`. */
  lemma QuadTurns(a: Vec2, b: Vec2, c: Vec2, d: Vec2)
    ensures var q := [a, b, c, d];
      Turn(q, 0) == TurnOf(a, b, c) && Turn(q, 1) == TurnOf(b, c, d)
      && Turn(q, 2) == TurnOf(c, d, a) && Turn(q, 3) == TurnOf(d, a, b)
  {
  }

  /** Three points on one line make no turn. */
  lemma StraightTurn(a: Vec2, b: Vec2, c: Vec2)
    requires a.x == b.x == c.x
    ensures TurnOf(a, b, c) == 0
  {
  }

  lemma TurnReversed(a: Vec2, b: Vec2, c: Vec2)
    ensures TurnOf(c, b, a) == -TurnOf(a, b, c)
  {
  }

  /** A square and a skewed quad are positive convex. */
  lemma ConvexExamples()
    ensures PositiveConvex([Vec2(0, 0), Vec2(10000, 0), Vec2(10000, 10000), Vec2(0, 10000)])
    ensures PositiveConvex([Vec2(0, 0), Vec2(3, -4), Vec2(6, 1), Vec2(2, 6)])
  {
    var a, b, c, d := Vec2(0, 0), Vec2(10000, 0), Vec2(10000, 10000), Vec2(0, 10000);
    QuadTurns(a, b, c, d);
    assert TurnOf(a, b, c) == 100_000_000 && TurnOf(b, c, d) == 100_000_000;
    assert TurnOf(c, d, a) == 100_000_000 && TurnOf(d, a, b) == 100_000_000;
    var e, f, g, h := Vec2(0, 0), Vec2(3, -4), Vec2(6, 1), Vec2(2, 6);
    QuadTurns(e, f, g, h);
    assert TurnOf(e, f, g) == 27 && TurnOf(f, g, h) == 35;
    assert TurnOf(g, h, e) == 34 && TurnOf(h, e, f) == 26;
  }

  /** A self-crossing quad is not positive convex. */
  lemma SelfCrossingExample()
    ensures !PositiveConvex([Vec2(3, 0), Vec2(0, 6), Vec2(0, 0), Vec2(-2, -5)])
  {
    var a, b, c, d := Vec2(3, 0), Vec2(0, 6), Vec2(0, 0), Vec2(-2, -5);
    QuadTurns(a, b, c, d);
    assert TurnOf(a, b, c) == 18 && TurnOf(b, c, d) == -12;
  }

  /** Nor is a quad with a straight angle. */
  lemma StraightAngleExample()
    ensures !PositiveConvex([Vec2(0, 0), Vec2(2, 1), Vec2(0, 2), Vec2(0, 1)])
  {
    var q := [Vec2(0, 0), Vec2(2, 1), Vec2(0, 2), Vec2(0, 1)];
    assert Turn(q, 2) == 0 by {
      QuadTurns(q[0], q[1], q[2], q[3]);
      StraightTurn(q[2], q[3], q[0]);
    }
  }

  // ---------------------------------------------------------------------------
  // The in-circumcircle test

  /**
   * The lifted determinant of `insideCircumcircle`: the three points
   * relative to `p`, each with its squared length. For `p1`, `p2`, `p3`
   * counter-clockwise it is positive exactly when `p` lies strictly inside
   * their circumcircle.
   */
  function CircumcircleDeterminant(p1: Vec2, p2: Vec2, p3: Vec2, p: Vec2): int
  {
    var d1, d2, d3 := Minus(p1, p), Minus(p2, p), Minus(p3, p);
    var det1, det2, det3 := Cross(d1, d2), Cross(d2, d3), Cross(d3, d1);
    var lift1, lift2, lift3 := d1.x * d1.x + d1.y * d1.y, d2.x * d2.x + d2.y * d2.y, d3.x * d3.x + d3.y * d3.y;
    lift1 * det2 + lift2 * det3 + lift3 * det1
  }

  /** `insideCircumcircle`: the determinant is positive. */
  predicate InsideCircumcircle(p1: Vec2, p2: Vec2, p3: Vec2, p: Vec2)
  {
    CircumcircleDeterminant(p1, p2, p3, p) > 0
  }

  /** Starting the triangle at another corner keeps the test; reversing it negates the determinant. */
  lemma CircumcircleSymmetry(p1: Vec2, p2: Vec2, p3: Vec2, p: Vec2)
    ensures CircumcircleDeterminant(p2, p3, p1, p) == CircumcircleDeterminant(p1, p2, p3, p)
    ensures CircumcircleDeterminant(p1, p3, p2, p) == -CircumcircleDeterminant(p1, p2, p3, p)
  {
  }

  /** Moving all four points by the same offset keeps the determinant. */
  lemma CircumcircleTranslation(p1: Vec2, p2: Vec2, p3: Vec2, p: Vec2, t: Vec2)
    ensures CircumcircleDeterminant(Plus(p1, t), Plus(p2, t), Plus(p3, t), Plus(p, t)) ==
      CircumcircleDeterminant(p1, p2, p3, p)
  {
    assert Minus(Plus(p1, t), Plus(p, t)) == Minus(p1, p);
    assert Minus(Plus(p2, t), Plus(p, t)) == Minus(p2, p);
    assert Minus(Plus(p3, t), Plus(p, t)) == Minus(p3, p);
  }

  function Plus(a: Vec2, b: Vec2): Vec2 { Vec2(a.x + b.x, a.y + b.y) }

  /** A corner of the triangle lies on the circle, not inside it. */
  lemma CornerNotInside(p1: Vec2, p2: Vec2, p3: Vec2)
    ensures CircumcircleDeterminant(p1, p2, p3, p1) == 0
  {
  }

  /** The fourth corner of a square is on the circle through the other three; its centre is inside. */
  lemma CircumcircleExamples()
    ensures !InsideCircumcircle(Vec2(0, 0), Vec2(10000, 0), Vec2(10000, 10000), Vec2(0, 10000))
    ensures InsideCircumcircle(Vec2(0, 0), Vec2(10000, 0), Vec2(10000, 10000), Vec2(5000, 5000))
  {
    LiftedDeterminant(0, -10000, 10000, -10000, 10000, 0);
    LiftedDeterminant(-5000, -5000, 5000, -5000, 5000, 5000);
  }

  /** The determinant from the three offsets, evaluated for the examples. */
  lemma LiftedDeterminant(x1: int, y1: int, x2: int, y2: int, x3: int, y3: int)
    ensures var d1, d2, d3 := Vec2(x1, y1), Vec2(x2, y2), Vec2(x3, y3);
      (x1 * x1 + y1 * y1) * Cross(d2, d3) + (x2 * x2 + y2 * y2) * Cross(d3, d1) + (x3 * x3 + y3 * y3) * Cross(d1, d2) ==
      (x1 * x1 + y1 * y1) * (x2 * y3 - y2 * x3) + (x2 * x2 + y2 * y2) * (x3 * y1 - y3 * x1) +
      (x3 * x3 + y3 * y3) * (x1 * y2 - y1 * x2)
  {
  }

  // ---------------------------------------------------------------------------
  // Maximum-angle selection

  /**
   * Three vectors strictly left of `v`, each further counter-clockwise than
   * the one before, are ordered: `a` to `c` turns counter-clockwise too.
   */
  lemma LeftTransitive(v: Vec2, a: Vec2, b: Vec2, c: Vec2)
    requires Cross(v, a) > 0 && Cross(v, b) > 0 && Cross(v, c) > 0
    requires Cross(a, b) > 0 && Cross(b, c) > 0
    ensures Cross(a, c) > 0
  {
    CrossIdentity(v, a, b, c);
    PositiveProduct(Cross(a, b), Cross(v, c));
    PositiveProduct(Cross(b, c), Cross(v, a));
    if Cross(c, a) >= 0 {
      NonNegativeProduct(Cross(c, a), Cross(v, b));
    }
  }

  /** The mirror image: right of `v`, each clockwise from the one before. */
  lemma RightTransitive(v: Vec2, a: Vec2, b: Vec2, c: Vec2)
    requires Cross(v, a) < 0 && Cross(v, b) < 0 && Cross(v, c) < 0
    requires Cross(a, b) < 0 && Cross(b, c) < 0
    ensures Cross(a, c) < 0
  {
    CrossIdentity(v, a, b, c);
    PositiveProduct(-Cross(a, b), -Cross(v, c));
    PositiveProduct(-Cross(b, c), -Cross(v, a));
    if Cross(c, a) <= 0 {
      NonNegativeProduct(-Cross(c, a), -Cross(v, b));
    }
  }

  /** The three cross products of `a`, `b`, `c` weight them to zero; crossed with `v`. */
  lemma CrossIdentity(v: Vec2, a: Vec2, b: Vec2, c: Vec2)
    ensures Cross(a, b) * Cross(v, c) + Cross(b, c) * Cross(v, a) + Cross(c, a) * Cross(v, b) == 0
  {
  }

  lemma PositiveProduct(x: int, y: int)
    requires x > 0 && y > 0
    ensures x * y > 0
  {
  }

  lemma NonNegativeProduct(x: int, y: int)
    requires x >= 0 && y > 0
    ensures x * y >= 0
  {
  }

  /**
   * What `selectCCWMaxAngle` promises: -1 when no vector is strictly left
   * of `vec1`, else an index of such a vector that no other one turns
   * further counter-clockwise from.
   */
  predicate CCWMaxAngle(vec1: Vec2, vecs: seq<Vec2>, best: int)
  {
    if forall i :: 0 <= i < |vecs| ==> Cross(vec1, vecs[i]) <= 0 then best == -1
    else
      0 <= best < |vecs| && Cross(vec1, vecs[best]) > 0 &&
      forall i :: 0 <= i < |vecs| && Cross(vec1, vecs[i]) > 0 ==> Cross(vecs[best], vecs[i]) <= 0
  }

  /** The mirror image for `selectCWMaxAngle`, right of `vec1` and clockwise. */
  predicate CWMaxAngle(vec1: Vec2, vecs: seq<Vec2>, best: int)
  {
    if forall i :: 0 <= i < |vecs| ==> Cross(vec1, vecs[i]) >= 0 then best == -1
    else
      0 <= best < |vecs| && Cross(vec1, vecs[best]) < 0 &&
      forall i :: 0 <= i < |vecs| && Cross(vec1, vecs[i]) < 0 ==> Cross(vecs[best], vecs[i]) >= 0
  }

  /** `selectCCWMaxAngle`: the first vector left of `vec1`, then each later one further counter-clockwise. */
  method SelectCCWMaxAngle(vec1: Vec2, vecs: seq<Vec2>) returns (best: int)
    ensures CCWMaxAngle(vec1, vecs, best)
  {
    best := -1;
    for i := 0 to |vecs|
      invariant forall k :: 0 <= k < i ==> Cross(vec1, vecs[k]) <= 0
    {
      if Cross(vec1, vecs[i]) > 0 {
        best := i;
        break;
      }
    }
    if best == -1 {
      return -1;
    }
    ghost var first := best;
    for i := best + 1 to |vecs|
      invariant first <= best < i && Cross(vec1, vecs[best]) > 0
      invariant forall k :: 0 <= k < i && Cross(vec1, vecs[k]) > 0 ==> Cross(vecs[best], vecs[k]) <= 0
    {
      if Cross(vec1, vecs[i]) > 0 {
        if Cross(vecs[best], vecs[i]) > 0 {
          forall k | 0 <= k < i && Cross(vec1, vecs[k]) > 0
            ensures Cross(vecs[i], vecs[k]) <= 0
          {
            if Cross(vecs[i], vecs[k]) > 0 {
              LeftTransitive(vec1, vecs[best], vecs[i], vecs[k]);
            }
          }
          best := i;
        }
      }
    }
  }

  /** `selectCWMaxAngle`: the first vector right of `vec1`, then each later one further clockwise. */
  method SelectCWMaxAngle(vec1: Vec2, vecs: seq<Vec2>) returns (best: int)
    ensures CWMaxAngle(vec1, vecs, best)
  {
    best := -1;
    for i := 0 to |vecs|
      invariant forall k :: 0 <= k < i ==> Cross(vec1, vecs[k]) >= 0
    {
      if Cross(vec1, vecs[i]) < 0 {
        best := i;
        break;
      }
    }
    if best == -1 {
      return -1;
    }
    ghost var first := best;
    for i := best + 1 to |vecs|
      invariant first <= best < i && Cross(vec1, vecs[best]) < 0
      invariant forall k :: 0 <= k < i && Cross(vec1, vecs[k]) < 0 ==> Cross(vecs[best], vecs[k]) >= 0
    {
      if Cross(vec1, vecs[i]) < 0 {
        if Cross(vecs[best], vecs[i]) < 0 {
          forall k | 0 <= k < i && Cross(vec1, vecs[k]) < 0
            ensures Cross(vecs[i], vecs[k]) >= 0
          {
            if Cross(vecs[i], vecs[k]) < 0 {
              RightTransitive(vec1, vecs[best], vecs[i], vecs[k]);
            }
          }
          best := i;
        }
      }
    }
  }

  function ExampleVecs(): seq<Vec2>
  {
    [Vec2(-2, 3), Vec2(-3, 0), Vec2(-4, -2), Vec2(0, -2), Vec2(3, -2)]
  }

  /** Of the five vectors after (2, 3), only the one at index 2 is the counter-clockwise maximum. */
  lemma CCWExample(best: int)
    requires CCWMaxAngle(Vec2(2, 3), ExampleVecs(), best)
    ensures best == 2
  {
    var v, vs := Vec2(2, 3), ExampleVecs();
    assert Cross(v, vs[0]) > 0 && Cross(v, vs[1]) > 0 && Cross(v, vs[2]) > 0;
    assert Cross(v, vs[3]) < 0 && Cross(v, vs[4]) < 0;
    assert Cross(vs[0], vs[2]) > 0 && Cross(vs[1], vs[2]) > 0;
  }

  /** And only the one at index 3 is the clockwise maximum. */
  lemma CWExample(best: int)
    requires CWMaxAngle(Vec2(2, 3), ExampleVecs(), best)
    ensures best == 3
  {
    var v, vs := Vec2(2, 3), ExampleVecs();
    assert Cross(v, vs[0]) > 0 && Cross(v, vs[1]) > 0 && Cross(v, vs[2]) > 0;
    assert Cross(v, vs[3]) < 0 && Cross(v, vs[4]) < 0;
    assert Cross(vs[4], vs[3]) < 0;
  }

  // ---------------------------------------------------------------------------
  // Polygon area

  function Sum(s: seq<int>): int
  {
    if |s| == 0 then 0 else Sum(s[..|s| - 1]) + s[|s| - 1]
  }

  lemma {:induction false} SumConcat(a: seq<int>, b: seq<int>)
    ensures Sum(a + b) == Sum(a) + Sum(b)
    decreases |b|
  {
    if |b| > 0 {
      assert (a + b)[..|a + b| - 1] == a + b[..|b| - 1];
      SumConcat(a, b[..|b| - 1]);
    } else {
      assert a + b == a;
    }
  }

  lemma {:induction false} SumMinus(a: seq<int>, b: seq<int>, c: seq<int>)
    requires |a| == |b| == |c| && forall i :: 0 <= i < |c| ==> c[i] == a[i] - b[i]
    ensures Sum(c) == Sum(a) - Sum(b)
    decreases |c|
  {
    if |c| > 0 {
      SumMinus(a[..|a| - 1], b[..|b| - 1], c[..|c| - 1]);
    }
  }

  /** Moving the first element to the end keeps the sum. */
  lemma RotateSum(s: seq<int>)
    requires |s| > 0
    ensures Sum(s[1..] + [s[0]]) == Sum(s)
  {
    SumConcat(s[1..], [s[0]]);
    SumConcat([s[0]], s[1..]);
    assert [s[0]] + s[1..] == s;
    assert Sum([s[0]]) == s[0] by {
      assert [s[0]][..0] == [];
    }
  }

  /** The source's term at triple `i`: the middle x times the difference of the neighbours' y. */
  function AreaTerms(points: seq<Vec2>): (r: seq<int>)
    requires |points| >= 3
    ensures |r| == |points|
  {
    var n := |points|;
    seq(n, i requires 0 <= i < n => points[Next(i, n)].x * (points[Next2(i, n)].y - points[i].y))
  }

  /** The textbook shoelace terms, `x_i * y_(i+1) - x_(i+1) * y_i`. */
  function ShoelaceTerms(points: seq<Vec2>): (r: seq<int>)
    requires |points| >= 3
    ensures |r| == |points|
  {
    var n := |points|;
    seq(n, i requires 0 <= i < n => points[i].x * points[Next(i, n)].y - points[Next(i, n)].x * points[i].y)
  }

  /** Twice the signed area by the shoelace formula. */
  function TwiceSignedArea(points: seq<Vec2>): int
    requires |points| >= 3
  {
    Sum(ShoelaceTerms(points))
  }

  function Abs(x: int): nat { if x < 0 then -x else x }

  function Prev(j: int, n: int): int { if j == 0 then n - 1 else j - 1 }

  /** `x_j * y_(j+1)` for every vertex. */
  function Forward(points: seq<Vec2>): (r: seq<int>)
    requires |points| >= 3
    ensures |r| == |points| && forall j :: 0 <= j < |r| ==> r[j] == points[j].x * points[Next(j, |points|)].y
  {
    seq(|points|, j requires 0 <= j < |points| => points[j].x * points[Next(j, |points|)].y)
  }

  /** `x_j * y_(j-1)` for every vertex. */
  function Backward(points: seq<Vec2>): (r: seq<int>)
    requires |points| >= 3
    ensures |r| == |points| && forall j :: 0 <= j < |r| ==> r[j] == points[j].x * points[Prev(j, |points|)].y
  {
    seq(|points|, j requires 0 <= j < |points| => points[j].x * points[Prev(j, |points|)].y)
  }

  /** The sequence started at its second element. */
  function Rotate(s: seq<int>): (r: seq<int>)
    requires |s| > 0
    ensures |r| == |s| && forall i :: 0 <= i < |s| ==> r[i] == s[Next(i, |s|)]
  {
    s[1..] + [s[0]]
  }

  /** The source's sum of terms is the shoelace sum, so its formula is twice the signed area. */
  lemma AreaTermsShoelace(points: seq<Vec2>)
    requires |points| >= 3
    ensures Sum(AreaTerms(points)) == TwiceSignedArea(points)
  {
    var n := |points|;
    var fwd, back := Forward(points), Backward(points);
    RotateSum(fwd);
    RotateSum(back);
    var rf, rb := Rotate(fwd), Rotate(back);
    SourceTerms(points, rf, rb);
    SumMinus(rf, rb, AreaTerms(points));
    TextbookTerms(points, fwd, rb);
    SumMinus(fwd, rb, ShoelaceTerms(points));
  }

  lemma SourceTerms(points: seq<Vec2>, rf: seq<int>, rb: seq<int>)
    requires |points| >= 3 && rf == Rotate(Forward(points)) && rb == Rotate(Backward(points))
    ensures |rf| == |rb| == |points| && forall i :: 0 <= i < |points| ==> AreaTerms(points)[i] == rf[i] - rb[i]
  {
    var n := |points|;
    forall i | 0 <= i < n
      ensures AreaTerms(points)[i] == rf[i] - rb[i]
    {
      SourceTermAt(points, i);
    }
  }

  lemma SourceTermAt(points: seq<Vec2>, i: int)
    requires |points| >= 3 && 0 <= i < |points|
    ensures AreaTerms(points)[i] == Rotate(Forward(points))[i] - Rotate(Backward(points))[i]
  {
    hide *;
    var n := |points|;
    var j := Next(i, n);
    NextIndices(i, n);
    var x, y2, y0 := points[j].x, points[Next2(i, n)].y, points[i].y;
    AreaTermAt(points, i);
    Distribute(x, y2, y0);
  }

  lemma NextIndices(i: int, n: int)
    requires 3 <= n && 0 <= i < n
    ensures 0 <= Next(i, n) < n && 0 <= Next2(i, n) < n
    ensures Next(Next(i, n), n) == Next2(i, n) && Prev(Next(i, n), n) == i
  {
  }

  lemma AreaTermAt(points: seq<Vec2>, i: int)
    requires |points| >= 3 && 0 <= i < |points|
    ensures AreaTerms(points)[i] == points[Next(i, |points|)].x * (points[Next2(i, |points|)].y - points[i].y)
  {
  }

  lemma Distribute(x: int, a: int, b: int)
    ensures x * (a - b) == x * a - x * b
  {
  }

  lemma TextbookTerms(points: seq<Vec2>, fwd: seq<int>, rb: seq<int>)
    requires |points| >= 3 && fwd == Forward(points) && rb == Rotate(Backward(points))
    ensures |fwd| == |rb| == |points| && forall i :: 0 <= i < |points| ==> ShoelaceTerms(points)[i] == fwd[i] - rb[i]
  {
    var n := |points|;
    forall i | 0 <= i < n
      ensures ShoelaceTerms(points)[i] == fwd[i] - rb[i]
    {
      assert Prev(Next(i, n), n) == i;
    }
  }

  /**
   * `polygonArea` over integer points: the terms summed over the wrapped
   * triples, then the sum halved with C++ truncation and made absolute.
   */
  method PolygonArea(points: seq<Vec2>) returns (area: nat)
    requires |points| >= 3
    ensures area == Abs(TwiceSignedArea(points)) / 2
  {
    var n := |points|;
    var sum := 0;
    for i := 0 to n
      invariant sum == Sum(AreaTerms(points)[..i])
    {
      var v0, v1, v2 := points[i], points[Next(i, n)], points[Next2(i, n)];
      assert AreaTerms(points)[..i + 1][..i] == AreaTerms(points)[..i];
      sum := sum + v1.x * (v2.y - v0.y);
    }
    assert AreaTerms(points)[..n] == AreaTerms(points);
    AreaTermsShoelace(points);
    area := Abs(TruncHalf(sum));
    TruncHalfAbs(sum);
  }

  /** C++ division by 2: toward zero. */
  function TruncHalf(x: int): int
  {
    if x >= 0 then x / 2 else -((-x) / 2)
  }

  lemma TruncHalfAbs(x: int)
    ensures Abs(TruncHalf(x)) == Abs(x) / 2
  {
  }

  /** The 10 by 10 square has area 100. */
  lemma SquareArea()
    ensures Abs(TwiceSignedArea([Vec2(0, 0), Vec2(10, 0), Vec2(10, 10), Vec2(0, 10)])) / 2 == 100
  {
    var sq := [Vec2(0, 0), Vec2(10, 0), Vec2(10, 10), Vec2(0, 10)];
    var t := ShoelaceTerms(sq);
    assert t[0] == 0 && t[1] == 100 && t[2] == 100 && t[3] == 0;
    assert t[..3][..2][..1][..0] == [];
    assert Sum(t) == 200 by {
      assert t[..3][..2][..1] == [t[0]];
      assert t[..3][..2] == [t[0], t[1]];
      assert t[..3] == [t[0], t[1], t[2]];
      assert Sum([t[0]]) == 0;
      assert Sum([t[0], t[1]]) == 100;
      assert Sum([t[0], t[1], t[2]]) == 200;
    }
  }
}
