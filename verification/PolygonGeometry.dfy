/**
 What the ray-casting answer means: outside for every point that some line separates from the vertices,
 inside for the interior of a convex polygon, the half-open box for a rectangle, and for any polygon the
 parity of the fan of triangles it is made of.
 */
module PolygonGeometry {
  import opened RayCasting

  function Cross(g1: real, h1: real, g2: real, h2: real): real { g1 * h2 - g2 * h1 }

  /** The side of a point is the cross product of the two ends as seen from it. */
  lemma SideIsCross(a: Point, b: Point, p: Point)
    ensures Side(a, b, p) == Cross(a.lng - p.lng, a.lat - p.lat, b.lng - p.lng, b.lat - p.lat)
  {
    var g1, h1, g2, h2 := a.lng - p.lng, a.lat - p.lat, b.lng - p.lng, b.lat - p.lat;
    assert (b.lng - a.lng) * (p.lat - a.lat) == (g2 - g1) * (-h1);
    assert (b.lat - a.lat) * (p.lng - a.lng) == (h2 - h1) * (-g1);
  }

  /** The vertex lies strictly below the line through the point with normal (u, v). */
  predicate Below(w: Point, p: Point, u: real, v: real) {
    u * (w.lat - p.lat) + v * (w.lng - p.lng) < 0.0
  }

  lemma LineIdentity(u: real, v: real, g1: real, h1: real, g2: real, h2: real)
    ensures v * Cross(g1, h1, g2, h2) == (u * h1 + v * g1) * h2 - (u * h2 + v * g2) * h1
  {
  }

  lemma ProductSign(x: real, y: real)
    ensures x > 0.0 && y > 0.0 ==> x * y > 0.0
    ensures x < 0.0 && y < 0.0 ==> x * y > 0.0
    ensures x > 0.0 && y < 0.0 ==> x * y < 0.0
    ensures x < 0.0 && y > 0.0 ==> x * y < 0.0
  {
  }

  /** Below such a line, all edges that span the latitude pass the point on the same side, the one the normal points away from. */
  lemma EdgeUnderLine(a: Point, b: Point, p: Point, u: real, v: real)
    requires Below(a, p, u, v) && Below(b, p, u, v)
    ensures Crosses(a, b, p) <==> v < 0.0 && Spans(a, b, p.lat)
  {
    CrossesIffPassesRight(a, b, p);
    if Spans(a, b, p.lat) {
      var g1, h1, g2, h2 := a.lng - p.lng, a.lat - p.lat, b.lng - p.lng, b.lat - p.lat;
      var l1, l2, s := u * h1 + v * g1, u * h2 + v * g2, Side(a, b, p);
      SideIsCross(a, b, p);
      LineIdentity(u, v, g1, h1, g2, h2);
      assert v * s == l1 * h2 - l2 * h1;
      ProductSign(l1, h2);
      ProductSign(l2, h1);
      ProductSign(v, s);
    }
  }

  lemma {:induction false} PathUnderLine(path: seq<Point>, p: Point, u: real, v: real)
    requires forall w :: w in path ==> Below(w, p, u, v)
    ensures OddAlong(path, p) == (v < 0.0 && OddSpans(path, p.lat))
  {
    if |path| >= 2 {
      PathUnderLine(path[1..], p, u, v);
      assert path[0] in path && path[1] in path;
      EdgeUnderLine(path[0], path[1], p, u, v);
    }
  }

  /** A point that some line separates from all vertices is outside, whatever the polygon. */
  lemma SeparatedIsOutside(poly: seq<Point>, p: Point, u: real, v: real)
    requires forall w :: w in poly ==> Below(w, p, u, v)
    ensures !RayInside(poly, p)
  {
    if poly != [] {
      var closed := [poly[|poly| - 1]] + poly;
      assert closed[1..] == poly;
      assert forall w :: w in closed ==> w in poly;
      PathUnderLine(closed, p, u, v);
      SpansTelescope(closed, p.lat);
    }
  }

  lemma SideIsLinear(a: Point, b: Point, w: Point, p: Point)
    ensures Side(a, b, w) - Side(a, b, p) == (b.lng - a.lng) * (w.lat - p.lat) - (b.lat - a.lat) * (w.lng - p.lng)
  {
    Difference(b.lng - a.lng, w.lat - a.lat, p.lat - a.lat);
    Difference(b.lat - a.lat, w.lng - a.lng, p.lng - a.lng);
  }

  lemma Difference(k: real, x: real, y: real)
    ensures k * x - k * y == k * (x - y)
  {
  }

  lemma Negate(k: real, x: real)
    ensures (-k) * x == -(k * x)
  {
  }

  /** So is a point strictly beyond a line that no vertex is beyond. */
  lemma BeyondLineIsOutside(poly: seq<Point>, p: Point, a: Point, b: Point)
    requires Side(a, b, p) < 0.0 && forall w :: w in poly ==> Side(a, b, w) >= 0.0
    ensures !RayInside(poly, p)
  {
    var u, v := -(b.lng - a.lng), b.lat - a.lat;
    forall w | w in poly ensures Below(w, p, u, v) {
      SideIsLinear(a, b, w, p);
      Negate(b.lng - a.lng, w.lat - p.lat);
      assert u * (w.lat - p.lat) == -((b.lng - a.lng) * (w.lat - p.lat));
      assert Side(a, b, w) - Side(a, b, p) > 0.0;
    }
    SeparatedIsOutside(poly, p, u, v);
  }

  /** A diagonal from a common corner is crossed by both polygons it separates. */
  predicate FanOdd(o: Point, path: seq<Point>, p: Point) {
    |path| >= 2 && Xor(RayInside([o, path[0], path[1]], p), FanOdd(o, path[1..], p))
  }

  lemma TriangleParity(a: Point, b: Point, c: Point, p: Point)
    ensures RayInside([a, b, c], p) == Xor(Crosses(a, b, p), Xor(Crosses(b, c, p), Crosses(c, a, p)))
  {
    assert [a, b, c][1..] == [b, c] && [b, c][1..] == [c];
    assert !OddAlong([c], p);
    assert OddAlong([b, c], p) == Crosses(b, c, p);
  }

  lemma ClosedFan(o: Point, path: seq<Point>, p: Point)
    requires path != []
    ensures RayInside([o] + path, p) == Xor(Crosses(path[|path| - 1], o, p), Xor(Crosses(o, path[0], p), OddAlong(path, p)))
  {
    var all := [o] + path;
    assert all[1..] == path && all[|all| - 1] == path[|path| - 1];
    assert OddAlong(all, p) == Xor(Crosses(o, path[0], p), OddAlong(path, p));
  }

  /** Any polygon is inside iff an odd number of the triangles of its fan are. */
  lemma {:induction false} FanDecomposition(o: Point, path: seq<Point>, p: Point)
    ensures RayInside([o] + path, p) == FanOdd(o, path, p)
  {
    if |path| >= 2 {
      FanDecomposition(o, path[1..], p);
      TriangleParity(o, path[0], path[1], p);
      SwapEnds(o, path[1], p);
      assert OddAlong(path, p) == Xor(Crosses(path[0], path[1], p), OddAlong(path[1..], p));
      ClosedFan(o, path, p);
      ClosedFan(o, path[1..], p);
    } else if |path| == 1 {
      SwapEnds(o, path[0], p);
      ClosedFan(o, path, p);
    }
  }

  /** An edge due north or due south. */
  lemma MeridianEdge(a: Point, b: Point, p: Point)
    requires a.lng == b.lng
    ensures Crosses(a, b, p) <==> Spans(a, b, p.lat) && p.lng < a.lng
  {
    if Spans(a, b, p.lat) {
      var h, d := p.lat - a.lat, b.lat - a.lat;
      assert 0.0 * h / d == 0.0;
    }
  }

  /** A rectangle along the axes is its box, without its upper and right sides. */
  lemma RectangleIsItsBox(south: real, west: real, north: real, east: real, p: Point)
    requires south <= north && west <= east
    ensures RayInside([Point(south, west), Point(south, east), Point(north, east), Point(north, west)], p)
            <==> south <= p.lat < north && west <= p.lng < east
  {
    var a, b, c, d := Point(south, west), Point(south, east), Point(north, east), Point(north, west);
    FanDecomposition(a, [b, c, d], p);
    assert [a] + [b, c, d] == [a, b, c, d] && [b, c, d][1..] == [c, d] && [c, d][1..] == [d];
    assert !FanOdd(a, [d], p);
    assert FanOdd(a, [c, d], p) == RayInside([a, c, d], p);
    TriangleParity(a, b, c, p);
    TriangleParity(a, c, d, p);
    SwapEnds(a, c, p);
    MeridianEdge(b, c, p);
    MeridianEdge(d, a, p);
  }

  predicate TurnsLeft(poly: seq<Point>, i: nat, j: nat, k: nat)
    requires i < |poly| && j < |poly| && k < |poly|
  {
    Side(poly[i], poly[j], poly[k]) > 0.0
  }

  /** Strictly convex, counter-clockwise: any three vertices in list order turn left. */
  ghost predicate Convex(poly: seq<Point>) {
    forall i: nat, j: nat, k: nat :: i < j < k < |poly| ==> TurnsLeft(poly, i, j, k)
  }

  function Next(poly: seq<Point>, i: nat): Point
    requires i < |poly|
  {
    poly[(i + 1) % |poly|]
  }

  lemma NextIs(poly: seq<Point>, i: nat)
    requires i < |poly|
    ensures Next(poly, i) == if i + 1 < |poly| then poly[i + 1] else poly[0]
  {
    if i + 1 < |poly| {
      assert (i + 1) % |poly| == i + 1;
    }
  }

  lemma SideOfEnds(a: Point, b: Point)
    ensures Side(a, b, a) == 0.0 && Side(a, b, b) == 0.0
  {
    var x, y := b.lng - a.lng, b.lat - a.lat;
    assert x * 0.0 == 0.0 && y * 0.0 == 0.0;
  }

  lemma SideTurns(a: Point, b: Point, c: Point)
    ensures Side(a, b, c) == Side(b, c, a)
    ensures Side(a, b, a) == 0.0 && Side(a, b, b) == 0.0
  {
    AreasAdd(a, b, c, a);
    SideOfEnds(a, b);
    SideOfEnds(a, c);
  }

  /** No vertex of a convex polygon is beyond one of its edges. */
  lemma VerticesWithin(poly: seq<Point>, i: nat, w: Point)
    requires Convex(poly) && i < |poly| && w in poly
    ensures Side(poly[i], Next(poly, i), w) >= 0.0
  {
    var k: nat :| k < |poly| && poly[k] == w;
    var j := if i + 1 < |poly| then i + 1 else 0;
    NextIs(poly, i);
    SideTurns(poly[i], poly[j], w);
    SideTurns(poly[j], w, poly[i]);
    if k != i && k != j {
      if j == 0 {
        assert TurnsLeft(poly, 0, k, i);
      } else if k < i {
        assert TurnsLeft(poly, k, i, j);
      } else {
        assert TurnsLeft(poly, i, j, k);
      }
    }
  }

  /** Strictly beyond an edge of a convex polygon is outside. */
  lemma ConvexExterior(poly: seq<Point>, p: Point, i: nat)
    requires Convex(poly) && i < |poly| && Side(poly[i], Next(poly, i), p) < 0.0
    ensures !RayInside(poly, p)
  {
    forall w | w in poly ensures Side(poly[i], Next(poly, i), w) >= 0.0 {
      VerticesWithin(poly, i, w);
    }
    BeyondLineIsOutside(poly, p, poly[i], Next(poly, i));
  }

  /** Edge i goes up past a latitude. */
  predicate Up(poly: seq<Point>, i: nat, lat: real) {
    i < |poly| && poly[i].lat <= lat < Next(poly, i).lat
  }

  lemma CrossSum(g1: real, h1: real, g2: real, h2: real, g3: real, h3: real)
    ensures Cross(g1 - g3, h1 - h3, g2 - g3, h2 - h3) == Cross(g2, h2, g3, h3) - Cross(g1, h1, g3, h3) + Cross(g1, h1, g2, h2)
  {
    assert (g1 - g3) * (h2 - h3) == g1 * h2 - g1 * h3 - g3 * h2 + g3 * h3;
    assert (g2 - g3) * (h1 - h3) == g2 * h1 - g2 * h3 - g3 * h1 + g3 * h3;
  }

  /** The area of a triangle is the sum of the three it makes with any point. */
  lemma AreasAdd(a: Point, b: Point, c: Point, p: Point)
    ensures Side(a, b, c) == Side(b, c, p) - Side(a, c, p) + Side(a, b, p)
  {
    SideIsCross(a, b, c);
    SideIsCross(b, c, p);
    SideIsCross(a, c, p);
    SideIsCross(a, b, p);
    CrossSum(a.lng - p.lng, a.lat - p.lat, b.lng - p.lng, b.lat - p.lat, c.lng - p.lng, c.lat - p.lat);
  }

  lemma CrossDependency(g1: real, h1: real, g2: real, h2: real, g3: real, h3: real)
    ensures Cross(g2, h2, g3, h3) * h1 - Cross(g1, h1, g3, h3) * h2 + Cross(g1, h1, g2, h2) * h3 == 0.0
  {
    assert (g2 * h3 - g3 * h2) * h1 == g2 * h3 * h1 - g3 * h2 * h1;
    assert (g1 * h3 - g3 * h1) * h2 == g1 * h3 * h2 - g3 * h1 * h2;
    assert (g1 * h2 - g2 * h1) * h3 == g1 * h2 * h3 - g2 * h1 * h3;
  }

  /** Seen from a point, the latitudes of three others depend on each other by the areas between them. */
  lemma AreasBalance(a: Point, b: Point, c: Point, p: Point)
    ensures Side(b, c, p) * (a.lat - p.lat) - Side(a, c, p) * (b.lat - p.lat) + Side(a, b, p) * (c.lat - p.lat) == 0.0
  {
    SideIsCross(b, c, p);
    SideIsCross(a, c, p);
    SideIsCross(a, b, p);
    CrossDependency(a.lng - p.lng, a.lat - p.lat, b.lng - p.lng, b.lat - p.lat, c.lng - p.lng, c.lat - p.lat);
  }

  lemma WeightedShift(w1: real, w2: real, w3: real, x1: real, x2: real, x3: real, y: real)
    requires w1 * x1 - w2 * x2 + w3 * x3 == 0.0
    ensures w1 * (x1 + y) - w2 * (x2 + y) + w3 * (x3 + y) == (w1 - w2 + w3) * y
  {
    assert w1 * (x1 + y) == w1 * x1 + w1 * y;
    assert w2 * (x2 + y) == w2 * x2 + w2 * y;
    assert w3 * (x3 + y) == w3 * x3 + w3 * y;
    assert (w1 - w2 + w3) * y == w1 * y - w2 * y + w3 * y;
  }

  lemma ProductBound(w: real, x: real)
    requires w > 0.0
    ensures x <= 0.0 ==> w * x <= 0.0
    ensures x >= 0.0 ==> w * x >= 0.0
    ensures x > 0.0 ==> w * x > 0.0
    ensures x < 0.0 ==> w * x < 0.0
  {
  }

  lemma NoBalance(w1: real, x1: real, w2: real, x2: real, w3: real, x3: real, w4: real, x4: real)
    requires w1 > 0.0 && w2 > 0.0 && w3 > 0.0 && w4 > 0.0
    requires w1 * x1 - w2 * x2 + w3 * x3 == w4 * x4
    ensures !(x1 <= 0.0 < x2 && x3 <= 0.0 < x4)
  {
    ProductBound(w1, x1);
    ProductBound(w2, x2);
    ProductBound(w3, x3);
    ProductBound(w4, x4);
  }

  /** Of four points the latitudes, seen from any latitude, balance with the areas of the triangles they make. */
  lemma FourBalance(a: Point, b: Point, c: Point, d: Point, lat: real)
    ensures Side(b, c, d) * (a.lat - lat) - Side(a, c, d) * (b.lat - lat) + Side(a, b, d) * (c.lat - lat)
            == Side(a, b, c) * (d.lat - lat)
  {
    var x1, x2, x3, y := a.lat - d.lat, b.lat - d.lat, c.lat - d.lat, d.lat - lat;
    AreasBalance(a, b, c, d);
    AreasAdd(a, b, c, d);
    WeightedShift(Side(b, c, d), Side(a, c, d), Side(a, b, d), x1, x2, x3, y);
    assert x1 + y == a.lat - lat && x2 + y == b.lat - lat && x3 + y == c.lat - lat;
  }

  /** The corners of a convex quadrilateral do not alternate about a latitude: its diagonals meet. */
  lemma NoAlternation(a: Point, b: Point, c: Point, d: Point, lat: real)
    requires Side(a, b, c) > 0.0 && Side(a, b, d) > 0.0 && Side(a, c, d) > 0.0 && Side(b, c, d) > 0.0
    ensures !(a.lat <= lat < b.lat && c.lat <= lat < d.lat)
  {
    FourBalance(a, b, c, d, lat);
    NoBalance(Side(b, c, d), a.lat - lat, Side(a, c, d), b.lat - lat, Side(a, b, d), c.lat - lat, Side(a, b, c), d.lat - lat);
  }

  /** A convex polygon goes up past a latitude at most once. */
  lemma OnlyOneUp(poly: seq<Point>, i: nat, j: nat, lat: real)
    requires Convex(poly) && i < j < |poly| && Up(poly, i, lat)
    ensures !Up(poly, j, lat)
  {
    NextIs(poly, i);
    NextIs(poly, j);
    if Up(poly, j, lat) {
      if j + 1 < |poly| {
        assert TurnsLeft(poly, i, i + 1, j) && TurnsLeft(poly, i, i + 1, j + 1);
        assert TurnsLeft(poly, i, j, j + 1) && TurnsLeft(poly, i + 1, j, j + 1);
        NoAlternation(poly[i], poly[i + 1], poly[j], poly[j + 1], lat);
      } else {
        assert TurnsLeft(poly, i, i + 1, j) && TurnsLeft(poly, 0, i, i + 1);
        assert TurnsLeft(poly, 0, i, j) && TurnsLeft(poly, 0, i + 1, j);
        SideTurns(poly[0], poly[i], poly[i + 1]);
        SideTurns(poly[0], poly[i], poly[j]);
        SideTurns(poly[0], poly[i + 1], poly[j]);
        NoAlternation(poly[i], poly[i + 1], poly[j], poly[0], lat);
      }
      assert false;
    }
  }

  lemma FlatCorner(a: Point, b: Point, c: Point)
    requires a.lat == b.lat == c.lat
    ensures Side(a, b, c) == 0.0
  {
  }

  lemma CornerSigns(w1: real, x1: real, w3: real, x3: real, w4: real, y: real)
    requires w1 > 0.0 && w3 > 0.0 && w4 > 0.0 && w1 * x1 + w3 * x3 == w4 * y
    ensures x1 <= 0.0 && x3 <= 0.0 && (x1 < 0.0 || x3 < 0.0) ==> y < 0.0
    ensures x1 >= 0.0 && x3 >= 0.0 ==> y >= 0.0
  {
    ProductBound(w1, x1);
    ProductBound(w3, x3);
    ProductBound(w4, y);
  }

  /** Strictly left of both edges at a corner that turns left: the highest corner is above the point, the lowest is not. */
  lemma ExtremeCorner(prev: Point, m: Point, next: Point, p: Point)
    requires Side(prev, m, p) > 0.0 && Side(m, next, p) > 0.0 && Side(prev, m, next) > 0.0
    ensures prev.lat <= m.lat && next.lat <= m.lat ==> p.lat < m.lat
    ensures m.lat <= prev.lat && m.lat <= next.lat ==> m.lat <= p.lat
  {
    FourBalance(prev, m, next, p, m.lat);
    assert Side(prev, next, p) * (m.lat - m.lat) == 0.0;
    CornerSigns(Side(m, next, p), prev.lat - m.lat, Side(prev, m, p), next.lat - m.lat, Side(prev, m, next), p.lat - m.lat);
    if prev.lat == m.lat == next.lat {
      FlatCorner(prev, m, next);
    }
  }

  /** The vertices with the greatest and the least latitude. */
  lemma {:induction false} Extremes(poly: seq<Point>) returns (hi: nat, lo: nat)
    requires poly != []
    ensures hi < |poly| && lo < |poly|
    ensures forall i :: 0 <= i < |poly| ==> poly[lo].lat <= poly[i].lat <= poly[hi].lat
  {
    var n := |poly| - 1;
    if n == 0 {
      hi, lo := 0, 0;
    } else {
      hi, lo := Extremes(poly[..n]);
      hi, lo := if poly[hi].lat < poly[n].lat then n else hi, if poly[n].lat < poly[lo].lat then n else lo;
    }
  }

  /** The point is strictly left of edge i. */
  predicate LeftOf(poly: seq<Point>, i: nat, p: Point)
    requires i < |poly|
  {
    Side(poly[i], Next(poly, i), p) > 0.0
  }

  ghost predicate StrictlyInside(poly: seq<Point>, p: Point) {
    forall i: nat :: i < |poly| ==> LeftOf(poly, i, p)
  }

  function Before(poly: seq<Point>, m: nat): nat
    requires m < |poly|
  {
    if m == 0 then |poly| - 1 else m - 1
  }

  lemma CornerSides(poly: seq<Point>, m: nat, p: Point)
    requires Convex(poly) && |poly| >= 3 && m < |poly| && StrictlyInside(poly, p)
    ensures var prev, next := poly[Before(poly, m)], Next(poly, m);
            Side(prev, poly[m], p) > 0.0 && Side(poly[m], next, p) > 0.0 && Side(prev, poly[m], next) > 0.0
  {
    CornerTurns(poly, m);
    NextIs(poly, m);
    NextIs(poly, Before(poly, m));
    assert LeftOf(poly, m, p) && LeftOf(poly, Before(poly, m), p);
  }

  lemma HighestIsAbove(poly: seq<Point>, m: nat, p: Point)
    requires Convex(poly) && |poly| >= 3 && m < |poly| && StrictlyInside(poly, p)
    requires forall i :: 0 <= i < |poly| ==> poly[i].lat <= poly[m].lat
    ensures p.lat < poly[m].lat
  {
    CornerSides(poly, m, p);
    ExtremeCorner(poly[Before(poly, m)], poly[m], Next(poly, m), p);
  }

  lemma LowestIsNotAbove(poly: seq<Point>, m: nat, p: Point)
    requires Convex(poly) && |poly| >= 3 && m < |poly| && StrictlyInside(poly, p)
    requires forall i :: 0 <= i < |poly| ==> poly[m].lat <= poly[i].lat
    ensures poly[m].lat <= p.lat
  {
    CornerSides(poly, m, p);
    ExtremeCorner(poly[Before(poly, m)], poly[m], Next(poly, m), p);
  }

  lemma CornerTurns(poly: seq<Point>, m: nat)
    requires Convex(poly) && |poly| >= 3 && m < |poly|
    ensures Side(poly[Before(poly, m)], poly[m], Next(poly, m)) > 0.0
  {
    var n := |poly| - 1;
    NextIs(poly, m);
    if m == 0 {
      assert TurnsLeft(poly, 0, 1, n);
      SideTurns(poly[n], poly[0], poly[1]);
    } else if m == n {
      assert TurnsLeft(poly, 0, n - 1, n);
      SideTurns(poly[0], poly[n - 1], poly[n]);
    } else {
      assert TurnsLeft(poly, m - 1, m, m + 1);
    }
  }

  /** On the way from a vertex that is not above to a later one that is, some edge goes up. */
  lemma {:induction false} UpBetween(poly: seq<Point>, i: nat, j: nat, lat: real) returns (k: nat)
    requires i < j < |poly| && poly[i].lat <= lat < poly[j].lat
    ensures i <= k < j && Up(poly, k, lat)
    decreases j - i
  {
    NextIs(poly, i);
    if poly[i + 1].lat > lat {
      k := i;
    } else {
      k := UpBetween(poly, i + 1, j, lat);
    }
  }

  lemma SomeUp(poly: seq<Point>, i: nat, j: nat, lat: real) returns (k: nat)
    requires i < |poly| && j < |poly| && poly[i].lat <= lat < poly[j].lat
    ensures Up(poly, k, lat)
  {
    var n := |poly| - 1;
    NextIs(poly, n);
    if i < j {
      k := UpBetween(poly, i, j, lat);
    } else if poly[n].lat > lat {
      k := UpBetween(poly, i, n, lat);
    } else if poly[0].lat > lat {
      k := n;
    } else {
      k := UpBetween(poly, 0, j, lat);
    }
  }

  /** Seen from inside, only an edge that goes up passes on the right, and there is but one. */
  lemma OnlyEdge(poly: seq<Point>, p: Point, k: nat, i: nat)
    requires Convex(poly) && StrictlyInside(poly, p) && Up(poly, k, p.lat) && i < |poly|
    ensures EdgePasses(poly, p, i) <==> i == k
  {
    assert LeftOf(poly, i, p);
    assert EdgePasses(poly, p, i) == Up(poly, i, p.lat);
    if i < k && Up(poly, i, p.lat) {
      OnlyOneUp(poly, i, k, p.lat);
    } else if k < i {
      OnlyOneUp(poly, k, i, p.lat);
    }
  }

  lemma SingleEdge(poly: seq<Point>, p: Point, k: nat)
    requires k < |poly| && forall i: nat :: i < |poly| ==> (EdgePasses(poly, p, i) <==> i == k)
    ensures RayInside(poly, p)
  {
    assert EdgesToTheRight(poly, p) == {k};
    InsideIffOddToTheRight(poly, p);
  }

  /** Strictly inside all edges of a convex polygon is inside: exactly one edge passes on the right. */
  lemma ConvexInterior(poly: seq<Point>, p: Point)
    requires Convex(poly) && |poly| >= 3 && StrictlyInside(poly, p)
    ensures RayInside(poly, p)
  {
    var hi, lo := Extremes(poly);
    HighestIsAbove(poly, hi, p);
    LowestIsNotAbove(poly, lo, p);
    var k := SomeUp(poly, lo, hi, p.lat);
    forall i: nat | i < |poly| ensures EdgePasses(poly, p, i) <==> i == k {
      OnlyEdge(poly, p, k, i);
    }
    SingleEdge(poly, p, k);
  }
}
