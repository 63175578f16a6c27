/**
 * The point-in-polygon test of the geofencing engine: an even-odd ray cast
 * towards +x whose exact edge policy is fixed by DataProcessor.py:77-91.
 */
module Geometry {

  /** A coordinate pair, as `parse_position` returns it and as polygon vertices are given. */
  datatype Point = Point(x: real, y: real)

  /** The vertices of an area, implicitly closed (the last vertex connects to the first). */
  type Polygon = seq<Point>

  function Min(a: real, b: real): (m: real)
    ensures m <= a && m <= b && (m == a || m == b)
  {
    if a <= b then a else b
  }

  function Max(a: real, b: real): (m: real)
    ensures m >= a && m >= b && (m == a || m == b)
  {
    if a >= b then a else b
  }

  /** The x at which the line through `a` and `b` reaches height `py` (`xinters`, line 87). */
  function Intercept(py: real, a: Point, b: Point): (xi: real)
    requires a.y != b.y
    ensures (xi - a.x) * (b.y - a.y) == (py - a.y) * (b.x - a.x)
  {
    (py - a.y) * (b.x - a.x) / (b.y - a.y) + a.x
  }

  /**
   * Whether the edge `a -> b` toggles `inside` for the point (px, py):
   * the half-open height test, the point not to the right of both ends,
   * and then a vertical edge or the point not to the right of the intercept.
   */
  predicate Flips(px: real, py: real, a: Point, b: Point)
  {
    && Min(a.y, b.y) < py
    && py <= Max(a.y, b.y)
    && px <= Max(a.x, b.x)
    && (a.x == b.x || px <= Intercept(py, a, b))
  }

  /**
   * The loop of line 81 visits n+1 edges: edge 0 is the degenerate
   * `vertices[0] -> vertices[0]`, edge j (1 <= j <= n) runs from
   * `vertices[j-1]` to `vertices[j % n]`, so edge n closes the ring.
   */
  function EdgeStart(v: Polygon, j: nat): Point
    requires 0 < |v| && j <= |v|
  {
    v[if j == 0 then 0 else j - 1]
  }

  function EdgeEnd(v: Polygon, j: nat): Point
    requires 0 < |v|
  {
    v[j % |v|]
  }

  /** The number of edges among the first `k` visited ones that toggle `inside`. */
  function CrossingCount(px: real, py: real, v: Polygon, k: nat): (c: nat)
    requires 0 < |v| && k <= |v| + 1
    ensures c <= k
  {
    if k == 0 then 0
    else CrossingCount(px, py, v, k - 1) + (if Flips(px, py, EdgeStart(v, k - 1), EdgeEnd(v, k - 1)) then 1 else 0)
  }

  /** The even-odd rule over all n+1 visited edges. */
  predicate InPolygon(px: real, py: real, v: Polygon)
    requires 0 < |v|
  {
    CrossingCount(px, py, v, |v| + 1) % 2 == 1
  }

  /**
   * `is_point_in_polygon` (DataProcessor.py:65-91). The source reads
   * `vertices[0]` unconditionally and raises IndexError on an empty vertex
   * list; `AreaTagger.CheckLeftArea` models that case as `EmptyPolygon`,
   * so this method is only called with a vertex.
   */
  method IsPointInPolygon(px: real, py: real, vertices: Polygon) returns (inside: bool)
    requires 0 < |vertices|
    ensures inside == InPolygon(px, py, vertices)
  {
    var n := |vertices|;
    inside := false;
    var xinters: real := 0.0;
    var p1 := vertices[0];
    for i := 0 to n + 1
      invariant i <= n ==> p1 == EdgeStart(vertices, i)
      invariant inside == (CrossingCount(px, py, vertices, i) % 2 == 1)
    {
      WrapIndex(i, n);
      var p2 := vertices[i % n];
      ghost var old_inside := inside;
      if py > Min(p1.y, p2.y) {
        if py <= Max(p1.y, p2.y) {
          if px <= Max(p1.x, p2.x) {
            if p1.y != p2.y {
              xinters := Intercept(py, p1, p2);
            }
            if p1.x == p2.x || px <= xinters {
              inside := !inside;
            }
          }
        }
      }
      assert inside == (old_inside != Flips(px, py, p1, p2));
      ParityStep(px, py, vertices, i);
      p1 := p2;
    }
  }

  /** The index `i % n` of the loop: i itself, except that n wraps to 0. */
  lemma WrapIndex(i: int, n: int)
    requires 0 <= i <= n && 0 < n
    ensures i % n == if i < n then i else 0
  {
  }

  /** One more visited edge flips the parity exactly when that edge toggles `inside`. */
  lemma ParityStep(px: real, py: real, v: Polygon, i: nat)
    requires 0 < |v| && i <= |v|
    ensures (CrossingCount(px, py, v, i + 1) % 2 == 1)
        == ((CrossingCount(px, py, v, i) % 2 == 1) != Flips(px, py, EdgeStart(v, i), EdgeEnd(v, i)))
  {
  }

  /** A horizontal edge never toggles `inside`, so the stale `xinters` is never read. */
  lemma HorizontalEdgeNeverFlips(px: real, py: real, a: Point, b: Point)
    requires a.y == b.y
    ensures !Flips(px, py, a, b)
  {
  }

  /** The first visited edge is degenerate and never toggles `inside`. */
  lemma FirstEdgeNeverFlips(px: real, py: real, v: Polygon)
    requires 0 < |v|
    ensures !Flips(px, py, EdgeStart(v, 0), EdgeEnd(v, 0))
  {
  }

  /** An axis-aligned rectangle listed counter-clockwise from its lower-left corner. */
  function Rectangle(x0: real, y0: real, x1: real, y1: real): (v: Polygon)
    ensures |v| == 4
  {
    [Point(x0, y0), Point(x1, y0), Point(x1, y1), Point(x0, y1)]
  }

  /**
   * Boundary policy on a rectangle: the right and top sides belong to the
   * area, the left and bottom sides do not.
   */
  lemma {:induction false} RectangleMembership(x0: real, y0: real, x1: real, y1: real, px: real, py: real)
    requires x0 < x1 && y0 < y1
    ensures InPolygon(px, py, Rectangle(x0, y0, x1, y1)) <==> x0 < px <= x1 && y0 < py <= y1
  {
    var v := Rectangle(x0, y0, x1, y1);
    var inRows := y0 < py <= y1;
    assert CrossingCount(px, py, v, 1) == 0;
    assert CrossingCount(px, py, v, 2) == 0;
    assert CrossingCount(px, py, v, 3) == (if inRows && px <= x1 then 1 else 0);
    assert CrossingCount(px, py, v, 4) == CrossingCount(px, py, v, 3);
    assert CrossingCount(px, py, v, 5) == CrossingCount(px, py, v, 4) + (if inRows && px <= x0 then 1 else 0);
  }

  /** The same rectangle listed clockwise classifies every point the same way. */
  lemma {:induction false} RectangleWindingIrrelevant(x0: real, y0: real, x1: real, y1: real, px: real, py: real)
    requires x0 < x1 && y0 < y1
    ensures InPolygon(px, py, [Point(x0, y0), Point(x0, y1), Point(x1, y1), Point(x1, y0)])
        <==> InPolygon(px, py, Rectangle(x0, y0, x1, y1))
  {
    var w := [Point(x0, y0), Point(x0, y1), Point(x1, y1), Point(x1, y0)];
    var inRows := y0 < py <= y1;
    assert CrossingCount(px, py, w, 1) == 0;
    assert CrossingCount(px, py, w, 2) == (if inRows && px <= x0 then 1 else 0);
    assert CrossingCount(px, py, w, 3) == CrossingCount(px, py, w, 2);
    assert CrossingCount(px, py, w, 4) == CrossingCount(px, py, w, 3) + (if inRows && px <= x1 then 1 else 0);
    assert CrossingCount(px, py, w, 5) == CrossingCount(px, py, w, 4);
    RectangleMembership(x0, y0, x1, y1, px, py);
  }

  /**
   * On the square (0,0),(10,0),(10,10),(0,10): the point (0,5) on the left
   * side toggles on both vertical sides and is outside, (10,5) on the right
   * side and the centre (5,5) are inside, and (5,0) on the bottom side is
   * outside.
   */
  lemma SquareBoundaryCases()
    ensures !InPolygon(0.0, 5.0, Rectangle(0.0, 0.0, 10.0, 10.0))
    ensures InPolygon(10.0, 5.0, Rectangle(0.0, 0.0, 10.0, 10.0))
    ensures InPolygon(5.0, 5.0, Rectangle(0.0, 0.0, 10.0, 10.0))
    ensures !InPolygon(5.0, 0.0, Rectangle(0.0, 0.0, 10.0, 10.0))
  {
    RectangleMembership(0.0, 0.0, 10.0, 10.0, 0.0, 5.0);
    RectangleMembership(0.0, 0.0, 10.0, 10.0, 10.0, 5.0);
    RectangleMembership(0.0, 0.0, 10.0, 10.0, 5.0, 5.0);
    RectangleMembership(0.0, 0.0, 10.0, 10.0, 5.0, 0.0);
  }

  /** The cross product (b - a) x (p - a): positive when p lies strictly left of the directed edge a -> b. */
  function Cross(a: Point, b: Point, px: real, py: real): real
  {
    (b.x - a.x) * (py - a.y) - (b.y - a.y) * (px - a.x)
  }

  /** The intercept of an edge that passes the height test lies between the edge's x extremes. */
  lemma InterceptBetween(py: real, a: Point, b: Point)
    requires Min(a.y, b.y) < py <= Max(a.y, b.y)
    ensures Min(a.x, b.x) <= Intercept(py, a, b) <= Max(a.x, b.x)
  {
    var d := b.y - a.y;
    var t := (py - a.y) / d;
    assert t * d == py - a.y;
    MulSigns(t, d);
    MulSigns(t - 1.0, d);
    assert (t - 1.0) * d == t * d - d;
    assert 0.0 <= t <= 1.0;
    var k := b.x - a.x;
    assert Intercept(py, a, b) == t * k + a.x;
    MulSigns(t, k);
    MulSigns(1.0 - t, k);
    assert (1.0 - t) * k == k - t * k;
  }

  /** The sign of a product from the signs of its factors. */
  lemma MulSigns(x: real, y: real)
    ensures x >= 0.0 && y >= 0.0 ==> x * y >= 0.0
    ensures x >= 0.0 && y <= 0.0 ==> x * y <= 0.0
    ensures x > 0.0 && y > 0.0 ==> x * y > 0.0
    ensures x > 0.0 && y < 0.0 ==> x * y < 0.0
    ensures x < 0.0 && y > 0.0 ==> x * y < 0.0
    ensures x < 0.0 && y < 0.0 ==> x * y > 0.0
  {
  }

  /**
   * An edge that passes the half-open height test toggles `inside` exactly
   * when the point is not strictly right of it: an upward edge when the
   * point is on or left of it, a downward edge when on or right of it.
   */
  lemma EdgeFlipsBySide(px: real, py: real, a: Point, b: Point)
    requires Min(a.y, b.y) < py <= Max(a.y, b.y)
    ensures Flips(px, py, a, b) <==> if a.y < b.y then Cross(a, b, px, py) >= 0.0 else Cross(a, b, px, py) <= 0.0
  {
    var xi := Intercept(py, a, b);
    var d := b.y - a.y;
    InterceptBetween(py, a, b);
    assert Cross(a, b, px, py) == d * (xi - px) by {
      assert d * (xi - px) == (xi - a.x) * d - (px - a.x) * d;
    }
    assert Flips(px, py, a, b) <==> px <= xi;
    if d > 0.0 {
      assert d * (xi - px) >= 0.0 <==> xi - px >= 0.0;
    } else {
      assert d * (xi - px) <= 0.0 <==> xi - px >= 0.0;
    }
  }

  /** Each vertex weighted by the cross product of the opposite edge: the weighted heights relative to the point cancel. */
  lemma WeightedHeights(a: Point, b: Point, c: Point, px: real, py: real)
    ensures Cross(b, c, px, py) * (a.y - py) + Cross(c, a, px, py) * (b.y - py) + Cross(a, b, px, py) * (c.y - py) == 0.0
    ensures Cross(b, c, px, py) + Cross(c, a, px, py) + Cross(a, b, px, py) == Cross(a, b, c.x, c.y)
  {
    var ax, ay, bx, bY, cx, cy := a.x - px, a.y - py, b.x - px, b.y - py, c.x - px, c.y - py;
    assert Cross(a, b, px, py) == ax * bY - ay * bx;
    assert Cross(b, c, px, py) == bx * cy - bY * cx;
    assert Cross(c, a, px, py) == cx * ay - cy * ax;
  }

  /** A triangle's crossing parity comes from its three sides a -> b, b -> c and c -> a. */
  lemma {:induction false} TriangleSides(px: real, py: real, a: Point, b: Point, c: Point)
    ensures InPolygon(px, py, [a, b, c]) <==> (Flips(px, py, a, b) != Flips(px, py, b, c)) != Flips(px, py, c, a)
  {
    var v := [a, b, c];
    assert CrossingCount(px, py, v, 1) == 0;
    assert CrossingCount(px, py, v, 2) == if Flips(px, py, a, b) then 1 else 0;
    assert CrossingCount(px, py, v, 3) == CrossingCount(px, py, v, 2) + if Flips(px, py, b, c) then 1 else 0;
    assert EdgeStart(v, 3) == c && EdgeEnd(v, 3) == a;
    assert CrossingCount(px, py, v, 4) == CrossingCount(px, py, v, 3) + if Flips(px, py, c, a) then 1 else 0;
  }

  /**
   * The toggle rule of EdgeFlipsBySide in terms of the heights d1, d2 of the
   * edge's ends above the scan line and the edge's cross product w.
   */
  predicate SideRule(d1: real, d2: real, w: real)
  {
    (d1 < 0.0) != (d2 < 0.0) && if d1 < d2 then w >= 0.0 else w <= 0.0
  }

  lemma SideRuleOfEdge(px: real, py: real, a: Point, b: Point)
    ensures Flips(px, py, a, b) <==> SideRule(a.y - py, b.y - py, Cross(a, b, px, py))
  {
    if Min(a.y, b.y) < py <= Max(a.y, b.y) {
      EdgeFlipsBySide(px, py, a, b);
    }
  }

  /** A vertex alone on its side of the scan line gets the sign its two neighbours' weights agree on. */
  predicate LoneSign(wv: real, dv: real, w1: real, d1: real, w2: real, d2: real)
  {
    ((dv >= 0.0 && d1 < 0.0 && d2 < 0.0) || (dv < 0.0 && d1 >= 0.0 && d2 >= 0.0)) ==>
      && (w1 >= 0.0 && w2 >= 0.0 && (w1 > 0.0 || w2 > 0.0) ==> wv >= 0.0)
      && (w1 <= 0.0 && w2 <= 0.0 && (w1 < 0.0 || w2 < 0.0) ==> wv <= 0.0)
  }

  lemma LoneVertex(wv: real, dv: real, w1: real, d1: real, w2: real, d2: real)
    requires wv * dv + w1 * d1 + w2 * d2 == 0.0
    ensures LoneSign(wv, dv, w1, d1, w2, d2)
  {
  }

  /** With positive weights, the weighted heights cannot all lie on one side of the scan line. */
  lemma NoUniformSide(wa: real, da: real, wb: real, db: real, wc: real, dc: real)
    requires wa * da + wb * db + wc * dc == 0.0
    requires wa > 0.0 && wb > 0.0 && wc > 0.0
    ensures !(da < 0.0 && db < 0.0 && dc < 0.0)
    ensures da >= 0.0 && db >= 0.0 && dc >= 0.0 ==> da == 0.0 && db == 0.0 && dc == 0.0
  {
  }

  /** A point strictly left of all three sides of a triangle is inside it. */
  lemma {:induction false} TriangleInterior(px: real, py: real, a: Point, b: Point, c: Point)
    requires Cross(a, b, px, py) > 0.0 && Cross(b, c, px, py) > 0.0 && Cross(c, a, px, py) > 0.0
    ensures InPolygon(px, py, [a, b, c])
  {
    var wa, wb, wc := Cross(b, c, px, py), Cross(c, a, px, py), Cross(a, b, px, py);
    var da, db, dc := a.y - py, b.y - py, c.y - py;
    TriangleSides(px, py, a, b, c);
    SideRuleOfEdge(px, py, a, b);
    SideRuleOfEdge(px, py, b, c);
    SideRuleOfEdge(px, py, c, a);
    InteriorStraddles(px, py, a, b, c);
    InteriorParity(da, db, dc, wa, wb, wc);
  }

  /** A point strictly left of all three sides is strictly between the triangle's lowest and highest vertex. */
  lemma InteriorStraddles(px: real, py: real, a: Point, b: Point, c: Point)
    requires Cross(a, b, px, py) > 0.0 && Cross(b, c, px, py) > 0.0 && Cross(c, a, px, py) > 0.0
    ensures !(a.y < py && b.y < py && c.y < py) && !(a.y >= py && b.y >= py && c.y >= py)
  {
    WeightedHeights(a, b, c, px, py);
    NoUniformSide(Cross(b, c, px, py), a.y - py, Cross(c, a, px, py), b.y - py, Cross(a, b, px, py), c.y - py);
    FlatEdge(a, b, px, py);
  }

  /** An edge lying on the scan line has a zero cross product with any point on that line. */
  lemma FlatEdge(a: Point, b: Point, px: real, py: real)
    ensures a.y == py && b.y == py ==> Cross(a, b, px, py) == 0.0
  {
  }

  lemma InteriorParity(da: real, db: real, dc: real, wa: real, wb: real, wc: real)
    requires wa > 0.0 && wb > 0.0 && wc > 0.0
    requires !(da < 0.0 && db < 0.0 && dc < 0.0) && !(da >= 0.0 && db >= 0.0 && dc >= 0.0)
    ensures (SideRule(da, db, wc) != SideRule(db, dc, wa)) != SideRule(dc, da, wb)
  {
  }

  /**
   * A point strictly right of some side of a counter-clockwise triangle is
   * outside it.
   */
  lemma {:induction false} TriangleExterior(px: real, py: real, a: Point, b: Point, c: Point)
    requires Cross(a, b, c.x, c.y) > 0.0
    requires Cross(a, b, px, py) < 0.0 || Cross(b, c, px, py) < 0.0 || Cross(c, a, px, py) < 0.0
    ensures !InPolygon(px, py, [a, b, c])
  {
    var wa, wb, wc := Cross(b, c, px, py), Cross(c, a, px, py), Cross(a, b, px, py);
    var da, db, dc := a.y - py, b.y - py, c.y - py;
    TriangleSides(px, py, a, b, c);
    SideRuleOfEdge(px, py, a, b);
    SideRuleOfEdge(px, py, b, c);
    SideRuleOfEdge(px, py, c, a);
    TriangleSigns(px, py, a, b, c);
    ExteriorParity(da, db, dc, wa, wb, wc);
  }

  /** The sign facts of the weighted heights for each vertex of the triangle, and the weights' sum. */
  lemma TriangleSigns(px: real, py: real, a: Point, b: Point, c: Point)
    ensures var wa, wb, wc := Cross(b, c, px, py), Cross(c, a, px, py), Cross(a, b, px, py);
      var da, db, dc := a.y - py, b.y - py, c.y - py;
      && LoneSign(wa, da, wb, db, wc, dc) && LoneSign(wb, db, wa, da, wc, dc) && LoneSign(wc, dc, wa, da, wb, db)
      && wa + wb + wc == Cross(a, b, c.x, c.y)
  {
    var wa, wb, wc := Cross(b, c, px, py), Cross(c, a, px, py), Cross(a, b, px, py);
    var da, db, dc := a.y - py, b.y - py, c.y - py;
    WeightedHeights(a, b, c, px, py);
    LoneVertex(wa, da, wb, db, wc, dc);
    LoneVertex(wb, db, wa, da, wc, dc);
    LoneVertex(wc, dc, wa, da, wb, db);
  }

  lemma ExteriorParity(da: real, db: real, dc: real, wa: real, wb: real, wc: real)
    requires wa + wb + wc > 0.0
    requires wa < 0.0 || wb < 0.0 || wc < 0.0
    requires LoneSign(wa, da, wb, db, wc, dc) && LoneSign(wb, db, wa, da, wc, dc) && LoneSign(wc, dc, wa, da, wb, db)
    ensures !((SideRule(da, db, wc) != SideRule(db, dc, wa)) != SideRule(dc, da, wb))
  {
  }

  /** An edge and its reverse meet the scan line at the same x. */
  lemma SameIntercept(py: real, a: Point, b: Point)
    requires a.y != b.y
    ensures Intercept(py, a, b) == Intercept(py, b, a)
  {
    var xi, xj := Intercept(py, a, b), Intercept(py, b, a);
    var d, k := b.y - a.y, b.x - a.x;
    assert (xi - a.x) * d == (py - a.y) * k;
    assert (xj - b.x) * d == (py - b.y) * k by {
      assert (xj - b.x) * (a.y - b.y) == (py - b.y) * (a.x - b.x);
    }
    assert (xi - xj) * d == 0.0 by {
      assert (xi - xj) * d == (xi - a.x) * d - (xj - b.x) * d - k * d;
    }
  }

  /** Whether an edge toggles `inside` does not depend on its direction. */
  lemma FlipsSymmetric(px: real, py: real, a: Point, b: Point)
    ensures Flips(px, py, a, b) == Flips(px, py, b, a)
  {
    if a.y != b.y {
      SameIntercept(py, a, b);
    }
  }

  /** A triangle listed in the opposite winding classifies every point the same way. */
  lemma TriangleWinding(px: real, py: real, a: Point, b: Point, c: Point)
    ensures InPolygon(px, py, [a, c, b]) == InPolygon(px, py, [a, b, c])
  {
    TriangleSides(px, py, a, b, c);
    TriangleSides(px, py, a, c, b);
    FlipsSymmetric(px, py, a, b);
    FlipsSymmetric(px, py, b, c);
    FlipsSymmetric(px, py, c, a);
  }

  /** Reversing an edge negates the cross product of a point with it. */
  lemma CrossAntisymmetric(a: Point, b: Point, px: real, py: real)
    ensures Cross(b, a, px, py) == -Cross(a, b, px, py)
  {
  }

  /** A point strictly right of all three sides of a triangle (strictly inside a clockwise one) is inside it. */
  lemma TriangleInteriorClockwise(px: real, py: real, a: Point, b: Point, c: Point)
    requires Cross(a, b, px, py) < 0.0 && Cross(b, c, px, py) < 0.0 && Cross(c, a, px, py) < 0.0
    ensures InPolygon(px, py, [a, b, c])
  {
    CrossAntisymmetric(a, b, px, py);
    CrossAntisymmetric(b, c, px, py);
    CrossAntisymmetric(c, a, px, py);
    TriangleInterior(px, py, a, c, b);
    TriangleWinding(px, py, a, b, c);
  }

  /** A point strictly left of some side of a clockwise triangle is outside it. */
  lemma TriangleExteriorClockwise(px: real, py: real, a: Point, b: Point, c: Point)
    requires Cross(a, b, c.x, c.y) < 0.0
    requires Cross(a, b, px, py) > 0.0 || Cross(b, c, px, py) > 0.0 || Cross(c, a, px, py) > 0.0
    ensures !InPolygon(px, py, [a, b, c])
  {
    CrossAntisymmetric(a, b, px, py);
    CrossAntisymmetric(b, c, px, py);
    CrossAntisymmetric(c, a, px, py);
    assert Cross(a, c, b.x, b.y) == -Cross(a, b, c.x, c.y);
    TriangleExterior(px, py, a, c, b);
    TriangleWinding(px, py, a, b, c);
  }
}
