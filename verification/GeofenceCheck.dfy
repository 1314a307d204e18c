/**
 The geofence check of a check-in: distance to a boundary through the clamped projection, the shapes
 with their fixed margin, and the threshold that admits points near the boundary. The distance on the
 globe is any function; the planar geometry is exact.
 */
module GeofenceCheck {
  import opened Options
  import opened AttendanceEvents
  import opened AttendanceLog
  import opened RayCasting

  const MARGIN: real := 20.0
  const METERS_PER_DEGREE: real := 111_000.0
  const LEGACY_RADIUS: real := 100.0

  /** The distance in metres between two points, and the longitude margin of a rectangle at a latitude. */
  datatype Globe = Globe(dist: (Point, Point) -> real, lngMargin: real -> real)

  function Mul(x: real, y: real): real { x * y }

  function Sqr(x: real): real { Mul(x, x) }

  function SumSq(x: real, y: real): real { Sqr(x) + Sqr(y) }

  /** Planar squared distance, in squared degrees. */
  function Sq(p: Point, q: Point): real {
    SumSq(p.lat - q.lat, p.lng - q.lng)
  }

  function Dot2(x: real, y: real, c: real, d: real): real { x * c + y * d }

  function Dot(p: Point, a: Point, b: Point): real {
    Dot2(p.lat - a.lat, p.lng - a.lng, b.lat - a.lat, b.lng - a.lng)
  }

  function LenSq(a: Point, b: Point): real {
    SumSq(b.lat - a.lat, b.lng - a.lng)
  }

  /** The projection of the point on the edge, clamped to its ends; a degenerate edge is its first end. */
  function Closest(p: Point, a: Point, b: Point): Point {
    var param := if LenSq(a, b) != 0.0 then Dot(p, a, b) / LenSq(a, b) else -1.0;
    if param < 0.0 then a else if param > 1.0 then b else Along(a, b, param)
  }

  function Parabola(dot: real, lenSq: real, t: real): real {
    t * t * lenSq - 2.0 * t * dot
  }

  /** Along the edge the squared distance is a parabola in the parameter. */
  lemma SqAlong(p: Point, a: Point, b: Point, t: real)
    ensures Sq(p, Along(a, b, t)) == Sq(p, a) + Parabola(Dot(p, a, b), LenSq(a, b), t)
  {
    var m := Along(a, b, t);
    AlongDelta(p.lat, a.lat, b.lat, t);
    AlongDelta(p.lng, a.lng, b.lng, t);
    SumSqAlong(p.lat - a.lat, p.lng - a.lng, b.lat - a.lat, b.lng - a.lng, t, p.lat - m.lat, p.lng - m.lng);
  }

  lemma AlongDelta(p: real, a: real, b: real, t: real)
    ensures p - Mix(a, b, t) == p - a - t * (b - a)
  {
  }

  lemma SumSqAlong(x: real, y: real, c: real, d: real, t: real, u: real, v: real)
    requires u == x - t * c && v == y - t * d
    ensures SumSq(u, v) == SumSq(x, y) + Parabola(Dot2(x, y, c, d), SumSq(c, d), t)
  {
    SqrAlong(x, c, t);
    SqrAlong(y, d, t);
    Factor(2.0 * t, x * c, y * d);
    Factor(t * t, Sqr(c), Sqr(d));
  }

  lemma Factor(k: real, x: real, y: real)
    ensures k * x + k * y == k * (x + y)
  {
  }

  lemma SqrAlong(x: real, c: real, t: real)
    ensures Sqr(x - t * c) == Sqr(x) - 2.0 * t * (x * c) + t * t * Sqr(c)
  {
  }

  /** The parameter of the projection, clamped. */
  function ClampedParam(dot: real, lenSq: real): real {
    if lenSq == 0.0 || dot / lenSq < 0.0 then 0.0 else if dot / lenSq > 1.0 then 1.0 else dot / lenSq
  }

  /** Over [0, 1] the parabola is least at the clamped parameter, and only there. */
  lemma ParabolaIsLeast(dot: real, lenSq: real, t: real)
    requires lenSq > 0.0 && 0.0 <= t <= 1.0
    ensures Parabola(dot, lenSq, ClampedParam(dot, lenSq)) <= Parabola(dot, lenSq, t)
    ensures Parabola(dot, lenSq, ClampedParam(dot, lenSq)) == Parabola(dot, lenSq, t) ==> t == ClampedParam(dot, lenSq)
  {
    ParamQuotients(dot, lenSq);
    if dot / lenSq < 0.0 {
      BelowRange(dot, lenSq, t);
    } else if dot / lenSq > 1.0 {
      AboveRange(dot, lenSq, t);
    } else {
      InRange(dot / lenSq, dot, lenSq, t);
    }
  }

  lemma Signs(x: real, y: real)
    ensures x >= 0.0 && y >= 0.0 ==> x * y >= 0.0
    ensures x > 0.0 && y > 0.0 ==> x * y > 0.0
    ensures x > 0.0 && y > 0.0 ==> Mul(x, y) > 0.0
  {
  }

  lemma Square(x: real)
    ensures Sqr(x) >= 0.0
    ensures x != 0.0 ==> Sqr(x) > 0.0
  {
    if x > 0.0 {
      PositiveSqr(x);
    } else if x < 0.0 {
      SqrNeg(x);
      PositiveSqr(-x);
    }
  }

  lemma SqrNeg(x: real)
    ensures Sqr(-x) == Sqr(x)
  {
  }

  lemma PositiveSqr(x: real)
    requires x > 0.0
    ensures Sqr(x) > 0.0
  {
    Signs(x, x);
  }

  lemma BelowRange(dot: real, lenSq: real, t: real)
    requires lenSq > 0.0 && 0.0 <= t <= 1.0 && dot < 0.0
    ensures Parabola(dot, lenSq, 0.0) <= Parabola(dot, lenSq, t)
    ensures Parabola(dot, lenSq, 0.0) == Parabola(dot, lenSq, t) ==> t == 0.0
  {
    var k := t * lenSq - 2.0 * dot;
    Signs(t, lenSq);
    assert k > 0.0;
    assert Parabola(dot, lenSq, 0.0) == 0.0;
    assert Parabola(dot, lenSq, t) == t * k;
    Signs(t, k);
    if t > 0.0 {
      assert t * k > 0.0;
    }
  }

  lemma AboveRange(dot: real, lenSq: real, t: real)
    requires lenSq > 0.0 && 0.0 <= t <= 1.0 && dot > lenSq
    ensures Parabola(dot, lenSq, 1.0) <= Parabola(dot, lenSq, t)
    ensures Parabola(dot, lenSq, 1.0) == Parabola(dot, lenSq, t) ==> t == 1.0
  {
    var s := 1.0 - t;
    var k := 2.0 * (dot - lenSq) + s * lenSq;
    Signs(s, lenSq);
    assert k > 0.0;
    assert lenSq * (1.0 + t) == 2.0 * lenSq - s * lenSq;
    assert t * t * lenSq - 2.0 * t * dot - (lenSq - 2.0 * dot) == s * k;
    Signs(s, k);
    if s > 0.0 {
      assert s * k > 0.0;
    }
  }

  lemma InRange(r: real, dot: real, lenSq: real, t: real)
    requires lenSq > 0.0 && r * lenSq == dot
    ensures Parabola(dot, lenSq, r) <= Parabola(dot, lenSq, t)
    ensures Parabola(dot, lenSq, r) == Parabola(dot, lenSq, t) ==> t == r
  {
    Square(t - r);
    Signs(Sqr(t - r), lenSq);
    Excess(r, lenSq, t);
  }

  /** Completing the square. */
  lemma Excess(r: real, lenSq: real, t: real)
    ensures Parabola(r * lenSq, lenSq, t) - Parabola(r * lenSq, lenSq, r) == Sqr(t - r) * lenSq
  {
    var sq, tt, rr, tr, y := Sqr(t - r), t * t, r * r, t * r, r * lenSq;
    SquareOfDifference(t, r);
    assert sq == tt - 2.0 * tr + rr;
    Distribute(tt, 2.0 * tr, rr, lenSq);
    Associate(t, r, lenSq);
    Associate(2.0, tr, lenSq);
    Associate(2.0, t, y);
    Associate(2.0, r, y);
    Associate(r, r, lenSq);
    assert Parabola(y, lenSq, t) == tt * lenSq - 2.0 * (tr * lenSq);
    assert Parabola(y, lenSq, r) == rr * lenSq - 2.0 * (rr * lenSq);
    assert sq * lenSq == tt * lenSq - 2.0 * (tr * lenSq) + rr * lenSq;
  }

  lemma SquareOfDifference(t: real, r: real)
    ensures Sqr(t - r) == t * t - 2.0 * (t * r) + r * r
  {
  }

  lemma Associate(x: real, y: real, z: real)
    ensures x * y * z == x * (y * z)
  {
  }

  lemma Distribute(x: real, y: real, z: real, k: real)
    ensures (x - y + z) * k == x * k - y * k + z * k
  {
  }

  lemma ParamQuotients(dot: real, lenSq: real)
    requires lenSq > 0.0
    ensures dot / lenSq < 0.0 ==> dot < 0.0
    ensures dot / lenSq > 1.0 ==> dot > lenSq
    ensures dot / lenSq * lenSq == dot
  {
  }

  lemma AlongEnds(a: Point, b: Point)
    ensures Along(a, b, 0.0) == a && Along(a, b, 1.0) == b
  {
  }

  /** The projection is the point of the edge at the clamped parameter. */
  lemma ClosestIsAlong(p: Point, a: Point, b: Point)
    ensures Closest(p, a, b) == Along(a, b, ClampedParam(Dot(p, a, b), LenSq(a, b)))
    ensures 0.0 <= ClampedParam(Dot(p, a, b), LenSq(a, b)) <= 1.0
  {
    AlongEnds(a, b);
  }

  lemma SumOfSquares(c: real, d: real)
    ensures SumSq(c, d) >= 0.0
    ensures c != 0.0 || d != 0.0 ==> SumSq(c, d) > 0.0
  {
    Square(c);
    Square(d);
  }

  lemma Length(a: Point, b: Point, t: real)
    ensures if LenSq(a, b) == 0.0 then Along(a, b, t) == a else LenSq(a, b) > 0.0
  {
    SumOfSquares(b.lat - a.lat, b.lng - a.lng);
    if LenSq(a, b) == 0.0 {
      assert b.lat == a.lat && b.lng == a.lng;
      assert t * 0.0 == 0.0;
    }
  }

  /**
   The projection is a point of the edge, no point of the edge is closer in the plane, and a point of the
   edge that is as close is the same point. This covers the degenerate edge.
   */
  lemma ClosestIsLeast(p: Point, a: Point, b: Point, t: real) returns (u: real)
    requires 0.0 <= t <= 1.0
    ensures 0.0 <= u <= 1.0 && Closest(p, a, b) == Along(a, b, u)
    ensures Sq(p, Closest(p, a, b)) <= Sq(p, Along(a, b, t))
    ensures Sq(p, Closest(p, a, b)) == Sq(p, Along(a, b, t)) ==> Along(a, b, t) == Closest(p, a, b)
  {
    u := ClampedParam(Dot(p, a, b), LenSq(a, b));
    ClosestIsAlong(p, a, b);
    SqAlong(p, a, b, t);
    SqAlong(p, a, b, u);
    Length(a, b, t);
    Length(a, b, u);
    if LenSq(a, b) != 0.0 {
      ParabolaIsLeast(Dot(p, a, b), LenSq(a, b), t);
    }
  }

  /** Some point of the edge: q. No point of the edge is closer to p in the plane. */
  ghost predicate NearestOf(q: Point, p: Point, a: Point, b: Point) {
    && (exists u :: OnSegment(q, a, b, u))
    && (forall t :: 0.0 <= t <= 1.0 ==> Sq(p, q) <= Sq(p, Along(a, b, t)))
  }

  /** The clamped projection is that point, and the only one. */
  lemma NearestIsClosest(q: Point, p: Point, a: Point, b: Point)
    ensures NearestOf(q, p, a, b) <==> q == Closest(p, a, b)
  {
    var u := ClosestIsLeast(p, a, b, 0.0);
    assert OnSegment(Closest(p, a, b), a, b, u);
    forall t | 0.0 <= t <= 1.0 ensures Sq(p, Closest(p, a, b)) <= Sq(p, Along(a, b, t)) {
      var v := ClosestIsLeast(p, a, b, t);
    }
    if NearestOf(q, p, a, b) {
      var t :| OnSegment(q, a, b, t);
      var v := ClosestIsLeast(p, a, b, t);
      assert Sq(p, q) <= Sq(p, Along(a, b, u));
    }
  }

  /** q is the point of edge i of the closed polygon that is nearest to p. */
  ghost predicate NearestOnEdge(poly: seq<Point>, i: nat, q: Point, p: Point) {
    i < |poly| && NearestOf(q, p, poly[i], poly[(i + 1) % |poly|])
  }

  /** The nearest point of some edge is at distance m or less. */
  ghost predicate NearEdge(g: Globe, p: Point, poly: seq<Point>, m: real) {
    exists i: nat, q: Point :: NearestOnEdge(poly, i, q, p) && g.dist(p, q) <= m
  }

  ghost predicate NearVertex(g: Globe, p: Point, poly: seq<Point>, m: real) {
    exists v: Point :: v in poly && g.dist(p, v) <= m
  }

  /** m is the least distance to the nearest points of all edges, and to the vertices where they count, and some distance is m. */
  ghost predicate IsLeastDistance(g: Globe, p: Point, poly: seq<Point>, vertices: bool, m: real) {
    && (forall i: nat, q: Point :: NearestOnEdge(poly, i, q, p) ==> m <= g.dist(p, q))
    && (vertices ==> forall v: Point :: v in poly ==> m <= g.dist(p, v))
    && (NearEdge(g, p, poly, m) || (vertices && NearVertex(g, p, poly, m)))
  }

  /** A distance in metres, or none at all. */
  datatype Meters = Infinite | Finite(m: real)

  function Less(a: Meters, m: real): Meters {
    if a.Infinite? || m < a.m then Finite(m) else a
  }

  function EdgeDistance(g: Globe, p: Point, poly: seq<Point>, i: nat): real
    requires i < |poly|
  {
    g.dist(p, Closest(p, poly[i], poly[(i + 1) % |poly|]))
  }

  function VertexDistance(g: Globe, p: Point, poly: seq<Point>, i: nat): real
    requires i < |poly|
  {
    g.dist(p, poly[i])
  }

  /** The least of the first n edge distances, and of the vertex distances too if asked for. */
  function Nearest(g: Globe, p: Point, poly: seq<Point>, vertices: bool, n: nat): Meters
    requires n <= |poly|
  {
    if n == 0 then Infinite
    else
      var d := Less(Nearest(g, p, poly, vertices, n - 1), EdgeDistance(g, p, poly, n - 1));
      if vertices then Less(d, VertexDistance(g, p, poly, n - 1)) else d
  }

  /** Some edge, or some vertex where vertices count, is at distance m or less. */
  predicate SomeWithin(g: Globe, p: Point, poly: seq<Point>, vertices: bool, n: nat, m: real)
    requires n <= |poly|
  {
    exists i: nat :: i < n && (EdgeDistance(g, p, poly, i) <= m || (vertices && VertexDistance(g, p, poly, i) <= m))
  }

  /** The least distance is within m iff some edge or vertex is: so it is a lower bound, and attained. */
  lemma {:induction false} NearestWithin(g: Globe, p: Point, poly: seq<Point>, vertices: bool, n: nat, m: real)
    requires n <= |poly|
    ensures var d := Nearest(g, p, poly, vertices, n);
            (d.Finite? && d.m <= m) <==> SomeWithin(g, p, poly, vertices, n, m)
    ensures Nearest(g, p, poly, vertices, n).Finite? <==> n > 0
  {
    if n > 0 {
      NearestWithin(g, p, poly, vertices, n - 1, m);
    }
  }

  /** In terms of the polygon alone: the nearest point of some edge, or some vertex where vertices count, is within m. */
  lemma SomeWithinIffNear(g: Globe, p: Point, poly: seq<Point>, vertices: bool, m: real)
    ensures SomeWithin(g, p, poly, vertices, |poly|, m) <==> NearEdge(g, p, poly, m) || (vertices && NearVertex(g, p, poly, m))
  {
    if i: nat :| i < |poly| && EdgeDistance(g, p, poly, i) <= m {
      var q := Closest(p, poly[i], poly[(i + 1) % |poly|]);
      NearestIsClosest(q, p, poly[i], poly[(i + 1) % |poly|]);
      assert NearestOnEdge(poly, i, q, p);
    }
    if i: nat :| i < |poly| && VertexDistance(g, p, poly, i) <= m {
      assert poly[i] in poly;
    }
    if i: nat, q: Point :| NearestOnEdge(poly, i, q, p) && g.dist(p, q) <= m {
      NearestIsClosest(q, p, poly[i], poly[(i + 1) % |poly|]);
      assert EdgeDistance(g, p, poly, i) <= m;
    }
    if vertices && NearVertex(g, p, poly, m) {
      var v: Point :| v in poly && g.dist(p, v) <= m;
      var i: nat :| i < |poly| && poly[i] == v;
      assert VertexDistance(g, p, poly, i) <= m;
    }
  }

  lemma NearestIsLeast(g: Globe, p: Point, poly: seq<Point>, vertices: bool)
    requires poly != []
    ensures Nearest(g, p, poly, vertices, |poly|).Finite?
    ensures IsLeastDistance(g, p, poly, vertices, Nearest(g, p, poly, vertices, |poly|).m)
  {
    NearestWithin(g, p, poly, vertices, |poly|, 0.0);
    var m := Nearest(g, p, poly, vertices, |poly|).m;
    NearestWithin(g, p, poly, vertices, |poly|, m);
    SomeWithinIffNear(g, p, poly, vertices, m);
    forall i: nat, q: Point | NearestOnEdge(poly, i, q, p) ensures m <= g.dist(p, q) {
      NearestWithin(g, p, poly, vertices, |poly|, g.dist(p, q));
      SomeWithinIffNear(g, p, poly, vertices, g.dist(p, q));
    }
    forall v: Point | vertices && v in poly ensures m <= g.dist(p, v) {
      NearestWithin(g, p, poly, vertices, |poly|, g.dist(p, v));
      SomeWithinIffNear(g, p, poly, vertices, g.dist(p, v));
    }
  }

  /** The boundary distance of a polygon, with its two minimum loops. */
  method DistanceToPolygonBoundary(g: Globe, p: Point, coordinates: seq<Point>) returns (d: Meters)
    ensures d == PolygonDistance(g, p, coordinates)
    ensures d.Finite? <==> |coordinates| >= 3
    ensures d.Finite? ==>
              IsLeastDistance(g, p, coordinates, |EdgesToTheRight(coordinates, p)| % 2 == 0, d.m)
  {
    if |coordinates| < 3 {
      return Infinite;
    }
    NearestIsLeast(g, p, coordinates, |EdgesToTheRight(coordinates, p)| % 2 == 0);
    var inside := CrossingLoop(coordinates, p);
    d := Infinite;
    if inside {
      for i := 0 to |coordinates|
        invariant d == Nearest(g, p, coordinates, false, i)
      {
        d := Less(d, EdgeDistance(g, p, coordinates, i));
      }
    } else {
      for i := 0 to |coordinates|
        invariant d == Nearest(g, p, coordinates, true, i)
      {
        d := Less(Less(d, EdgeDistance(g, p, coordinates, i)), VertexDistance(g, p, coordinates, i));
      }
    }
  }

  function PolygonDistance(g: Globe, p: Point, poly: seq<Point>): Meters {
    if |poly| < 3 then Infinite else Nearest(g, p, poly, !RayInside(poly, p), |poly|)
  }

  predicate InPolygon(g: Globe, p: Point, poly: seq<Point>) {
    |poly| >= 3 && (RayInside(poly, p) || SomeWithin(g, p, poly, false, |poly|, MARGIN))
  }

  /** The polygon test: the ray casting, then the search for an edge within the margin. */
  method IsPointInPolygon(g: Globe, p: Point, coordinates: seq<Point>) returns (r: bool)
    ensures r == InPolygon(g, p, coordinates)
    ensures r <==> |coordinates| >= 3 && (|EdgesToTheRight(coordinates, p)| % 2 == 1 || NearEdge(g, p, coordinates, 20.0))
  {
    SomeWithinIffNear(g, p, coordinates, false, 20.0);
    if |coordinates| < 3 {
      return false;
    }
    var inside := CrossingLoop(coordinates, p);
    if inside {
      return true;
    }
    for i := 0 to |coordinates|
      invariant !SomeWithin(g, p, coordinates, false, i, MARGIN)
    {
      if EdgeDistance(g, p, coordinates, i) <= MARGIN {
        assert SomeWithin(g, p, coordinates, false, |coordinates|, MARGIN);
        return true;
      }
    }
    return false;
  }

  function MinOf(s: seq<real>): (m: real)
    requires s != []
    ensures m in s && forall x :: x in s ==> m <= x
  {
    if |s| == 1 then s[0]
    else
      assert s == [s[0]] + s[1..];
      var rest := MinOf(s[1..]);
      if rest < s[0] then rest else s[0]
  }

  function Negated(s: seq<real>): seq<real> {
    seq(|s|, i requires 0 <= i < |s| => -s[i])
  }

  function MaxOf(s: seq<real>): (m: real)
    requires s != []
    ensures m in s && forall x :: x in s ==> x <= m
  {
    var n := Negated(s);
    assert forall x :: x in s ==> -x in n by {
      forall x | x in s ensures -x in n {
        var i :| 0 <= i < |s| && s[i] == x;
        assert n[i] == -x;
      }
    }
    -MinOf(n)
  }

  function Lats(poly: seq<Point>): seq<real> { seq(|poly|, i requires 0 <= i < |poly| => poly[i].lat) }

  function Lngs(poly: seq<Point>): seq<real> { seq(|poly|, i requires 0 <= i < |poly| => poly[i].lng) }

  /** The box around the vertices, widened on each side. */
  predicate InBoxOf(poly: seq<Point>, p: Point, latMargin: real, lngMargin: real)
    requires poly != []
  {
    && MinOf(Lats(poly)) - latMargin <= p.lat <= MaxOf(Lats(poly)) + latMargin
    && MinOf(Lngs(poly)) - lngMargin <= p.lng <= MaxOf(Lngs(poly)) + lngMargin
  }

  predicate InRectangle(g: Globe, p: Point, poly: seq<Point>) {
    |poly| >= 4
    && InBoxOf(poly, p, MARGIN / METERS_PER_DEGREE, g.lngMargin((MinOf(Lats(poly)) + MaxOf(Lats(poly))) / 2.0))
  }

  function RectangleDistance(g: Globe, p: Point, poly: seq<Point>): Meters {
    if |poly| < 4 then Infinite
    else if InBoxOf(poly, p, 0.0, 0.0) then
      var lats, lngs := Lats(poly), Lngs(poly);
      Finite(MinOf([MaxOf(lats) - p.lat, p.lat - MinOf(lats), MaxOf(lngs) - p.lng, p.lng - MinOf(lngs)]) * METERS_PER_DEGREE)
    else Nearest(g, p, poly, true, |poly|)
  }

  /** A numeric column kept as text: missing or empty, unreadable, or a number. */
  datatype Num = Absent | NotANumber | Number(v: real)

  /** The shape of a fence with the columns its type reads; old rows have none. */
  datatype Shape = NoShape | Circle(radius: Num) | Rectangle(coords: Option<seq<Point>>) | Polygon(coords: Option<seq<Point>>) | OtherShape

  datatype Geofence = Geofence(latitude: Num, longitude: Num, shape: Shape, thresholdEnabled: bool, thresholdDistance: Num)

  datatype CheckResult = CheckResult(isWithin: bool, isNearBoundary: bool)

  predicate Located(f: Geofence) {
    f.latitude.Number? && f.longitude.Number?
  }

  function Center(f: Geofence): Point
    requires Located(f)
  {
    Point(f.latitude.v, f.longitude.v)
  }

  /** Within the shape and its fixed margin. */
  predicate StrictlyWithin(g: Globe, p: Point, f: Geofence) {
    && Located(f)
    && match f.shape
       case NoShape => g.dist(p, Center(f)) <= LEGACY_RADIUS + MARGIN
       case Circle(r) => r.Number? && g.dist(p, Center(f)) <= r.v + MARGIN
       case Rectangle(c) => c.Some? && |c.value| >= 4 && InRectangle(g, p, c.value)
       case Polygon(c) => c.Some? && |c.value| >= 3 && InPolygon(g, p, c.value)
       case OtherShape => false
  }

  function Abs(x: real): real { if x < 0.0 then -x else x }

  /** The distance to the boundary, or none for a shape that is not fully described. */
  function BoundaryDistance(g: Globe, p: Point, f: Geofence): Meters
    requires Located(f)
  {
    match f.shape
    case NoShape => Finite(Abs(g.dist(p, Center(f)) - LEGACY_RADIUS))
    case Circle(r) => if r.Number? then Finite(Abs(g.dist(p, Center(f)) - r.v)) else Infinite
    case Rectangle(c) => if c.None? || |c.value| < 4 then Infinite else RectangleDistance(g, p, c.value)
    case Polygon(c) => if c.None? || |c.value| < 3 then Infinite else PolygonDistance(g, p, c.value)
    case OtherShape => Infinite
  }

  /** The threshold in force: switched on, readable and positive. */
  function Threshold(f: Geofence): Option<real> {
    if f.thresholdEnabled && f.thresholdDistance.Number? && f.thresholdDistance.v > 0.0
    then Some(f.thresholdDistance.v) else None
  }

  function CheckPoint(g: Globe, p: Point, f: Geofence): CheckResult {
    if !Located(f) then CheckResult(false, false)
    else
      var strictly := StrictlyWithin(g, p, f);
      if !f.thresholdEnabled || f.thresholdDistance.Absent? then CheckResult(strictly, false)
      else if f.thresholdDistance.NotANumber? || f.thresholdDistance.v <= 0.0 then CheckResult(strictly, false)
      else if strictly then CheckResult(true, false)
      else
        var d := BoundaryDistance(g, p, f);
        var near := d.Finite? && d.m <= f.thresholdDistance.v;
        CheckResult(near, near)
  }

  /** Near the boundary means within but not strictly within; within means one of the two. */
  lemma NearMeansWithinButNotStrictly(g: Globe, p: Point, f: Geofence)
    ensures var r := CheckPoint(g, p, f);
            && (r.isNearBoundary <==> r.isWithin && !StrictlyWithin(g, p, f))
            && (StrictlyWithin(g, p, f) ==> r.isWithin)
            && (r.isWithin && !StrictlyWithin(g, p, f) ==>
                  Threshold(f).Some? && BoundaryDistance(g, p, f).Finite?
                  && BoundaryDistance(g, p, f).m <= Threshold(f).value)
  {
  }

  /** A larger threshold, or one switched on, never shuts a point out. */
  lemma WithinGrowsWithThreshold(g: Globe, p: Point, f: Geofence, enabled: bool, t: Num)
    requires var f' := f.(thresholdEnabled := enabled, thresholdDistance := t);
             Threshold(f).Some? ==> Threshold(f').Some? && Threshold(f).value <= Threshold(f').value
    requires CheckPoint(g, p, f).isWithin
    ensures CheckPoint(g, p, f.(thresholdEnabled := enabled, thresholdDistance := t)).isWithin
  {
    var f' := f.(thresholdEnabled := enabled, thresholdDistance := t);
    assert StrictlyWithin(g, p, f') == StrictlyWithin(g, p, f);
    assert Located(f) ==> BoundaryDistance(g, p, f') == BoundaryDistance(g, p, f);
  }

  /** The threshold counts when it is switched on and a positive number, which is then at least m. */
  predicate ThresholdReaches(f: Geofence, m: real) {
    f.thresholdEnabled && f.thresholdDistance.Number? && f.thresholdDistance.v > 0.0 && m <= f.thresholdDistance.v
  }

  /** Fences that lack a readable location or what their shape needs admit nobody. */
  lemma IncompleteFence(g: Globe, p: Point, f: Geofence)
    requires || !f.latitude.Number? || !f.longitude.Number? || f.shape.OtherShape?
             || (f.shape.Circle? && !f.shape.radius.Number?)
             || (f.shape.Rectangle? && (f.shape.coords.None? || |f.shape.coords.value| < 4))
             || (f.shape.Polygon? && (f.shape.coords.None? || |f.shape.coords.value| < 3))
    ensures CheckPoint(g, p, f) == CheckResult(false, false)
  {
  }

  /** For round fences the check is a single comparison with the radius and the larger of 20 metres and the threshold. */
  lemma RoundFence(g: Globe, p: Point, f: Geofence)
    requires f.latitude.Number? && f.longitude.Number?
    requires f.shape.NoShape? || (f.shape.Circle? && f.shape.radius.Number?)
    ensures var d := g.dist(p, Point(f.latitude.v, f.longitude.v));
            var radius := if f.shape.NoShape? then 100.0 else f.shape.radius.v;
            && (CheckPoint(g, p, f).isWithin <==> d <= radius + 20.0 || ThresholdReaches(f, d - radius))
            && (CheckPoint(g, p, f).isNearBoundary <==> d > radius + 20.0 && ThresholdReaches(f, d - radius))
  {
  }

  /**
   For polygons, within means an odd number of edges to the right, or an edge within 20 metres, or an edge
   or vertex within the threshold; near the boundary means only the last.
   */
  lemma PolygonFence(g: Globe, p: Point, f: Geofence)
    requires f.latitude.Number? && f.longitude.Number?
    requires f.shape.Polygon? && f.shape.coords.Some? && |f.shape.coords.value| >= 3
    ensures var poly := f.shape.coords.value;
            var strictly := |EdgesToTheRight(poly, p)| % 2 == 1 || NearEdge(g, p, poly, 20.0);
            var near := ThresholdReaches(f, 0.0)
                        && (NearEdge(g, p, poly, f.thresholdDistance.v) || NearVertex(g, p, poly, f.thresholdDistance.v));
            CheckPoint(g, p, f) == CheckResult(strictly || near, !strictly && near)
  {
    var poly := f.shape.coords.value;
    InsideIffOddToTheRight(poly, p);
    SomeWithinIffNear(g, p, poly, false, 20.0);
    if ThresholdReaches(f, 0.0) {
      NearestWithin(g, p, poly, true, |poly|, f.thresholdDistance.v);
      SomeWithinIffNear(g, p, poly, true, f.thresholdDistance.v);
    }
  }

  /** No farther than the margins outside the latitudes and the longitudes of the vertices. */
  predicate InWidenedBox(poly: seq<Point>, p: Point, latMargin: real, lngMargin: real) {
    && (exists v :: v in poly && v.lat - latMargin <= p.lat)
    && (exists v :: v in poly && p.lat <= v.lat + latMargin)
    && (exists v :: v in poly && v.lng - lngMargin <= p.lng)
    && (exists v :: v in poly && p.lng <= v.lng + lngMargin)
  }

  lemma LatIn(poly: seq<Point>, v: Point)
    requires v in poly
    ensures v.lat in Lats(poly) && v.lng in Lngs(poly)
  {
    var i :| 0 <= i < |poly| && poly[i] == v;
    assert Lats(poly)[i] == v.lat && Lngs(poly)[i] == v.lng;
  }

  lemma AtLat(poly: seq<Point>, x: real) returns (v: Point)
    requires x in Lats(poly)
    ensures v in poly && v.lat == x
  {
    var i :| 0 <= i < |poly| && Lats(poly)[i] == x;
    v := poly[i];
  }

  lemma AtLng(poly: seq<Point>, x: real) returns (v: Point)
    requires x in Lngs(poly)
    ensures v in poly && v.lng == x
  {
    var i :| 0 <= i < |poly| && Lngs(poly)[i] == x;
    v := poly[i];
  }

  lemma LatBounds(poly: seq<Point>, v: Point)
    requires v in poly
    ensures MinOf(Lats(poly)) <= v.lat <= MaxOf(Lats(poly)) && MinOf(Lngs(poly)) <= v.lng <= MaxOf(Lngs(poly))
  {
    LatIn(poly, v);
  }

  lemma BoxByVertices(poly: seq<Point>, p: Point, latMargin: real, lngMargin: real)
    requires poly != []
    ensures InBoxOf(poly, p, latMargin, lngMargin) <==> InWidenedBox(poly, p, latMargin, lngMargin)
  {
    if InBoxOf(poly, p, latMargin, lngMargin) {
      var south := AtLat(poly, MinOf(Lats(poly)));
      var north := AtLat(poly, MaxOf(Lats(poly)));
      var west := AtLng(poly, MinOf(Lngs(poly)));
      var east := AtLng(poly, MaxOf(Lngs(poly)));
    }
    if InWidenedBox(poly, p, latMargin, lngMargin) {
      forall v | v in poly
        ensures MinOf(Lats(poly)) <= v.lat <= MaxOf(Lats(poly)) && MinOf(Lngs(poly)) <= v.lng <= MaxOf(Lngs(poly))
      {
        LatBounds(poly, v);
      }
    }
  }

  lemma MidLatitude(poly: seq<Point>, south: Point, north: Point)
    requires south in poly && north in poly && forall v :: v in poly ==> south.lat <= v.lat <= north.lat
    ensures MinOf(Lats(poly)) == south.lat && MaxOf(Lats(poly)) == north.lat
  {
    LatBounds(poly, south);
    LatBounds(poly, north);
    var lowest := AtLat(poly, MinOf(Lats(poly)));
    var highest := AtLat(poly, MaxOf(Lats(poly)));
  }

  lemma RectangleByVertices(g: Globe, p: Point, poly: seq<Point>, south: Point, north: Point)
    requires |poly| >= 4 && south in poly && north in poly && forall v :: v in poly ==> south.lat <= v.lat <= north.lat
    ensures InRectangle(g, p, poly)
            <==> InWidenedBox(poly, p, 20.0 / 111_000.0, g.lngMargin((south.lat + north.lat) / 2.0))
  {
    MidLatitude(poly, south, north);
    BoxByVertices(poly, p, 20.0 / 111_000.0, g.lngMargin((south.lat + north.lat) / 2.0));
  }

  lemma OutsideRectangle(g: Globe, p: Point, poly: seq<Point>)
    requires |poly| >= 4 && !InRectangle(g, p, poly) && forall lat :: g.lngMargin(lat) >= 0.0
    ensures RectangleDistance(g, p, poly) == Nearest(g, p, poly, true, |poly|)
  {
  }

  /**
   For rectangles, within means the box widened by 20 metres, or an edge or vertex within the threshold,
   when the longitude margin is not negative: the inside branch of the boundary distance is idle.
   */
  lemma RectangleFence(g: Globe, p: Point, f: Geofence, south: Point, north: Point)
    requires f.latitude.Number? && f.longitude.Number?
    requires f.shape.Rectangle? && f.shape.coords.Some? && |f.shape.coords.value| >= 4
    requires forall lat :: g.lngMargin(lat) >= 0.0
    requires south in f.shape.coords.value && north in f.shape.coords.value
    requires forall v :: v in f.shape.coords.value ==> south.lat <= v.lat <= north.lat
    ensures var poly := f.shape.coords.value;
            var strictly := InWidenedBox(poly, p, 20.0 / 111_000.0, g.lngMargin((south.lat + north.lat) / 2.0));
            var near := ThresholdReaches(f, 0.0)
                        && (NearEdge(g, p, poly, f.thresholdDistance.v) || NearVertex(g, p, poly, f.thresholdDistance.v));
            CheckPoint(g, p, f) == CheckResult(strictly || near, !strictly && near)
  {
    var poly := f.shape.coords.value;
    RectangleByVertices(g, p, poly, south, north);
    if !InRectangle(g, p, poly) {
      OutsideRectangle(g, p, poly);
    }
    if ThresholdReaches(f, 0.0) {
      NearestWithin(g, p, poly, true, |poly|, f.thresholdDistance.v);
      SomeWithinIffNear(g, p, poly, true, f.thresholdDistance.v);
    }
  }

  /** The gate a check-in passes, given the reported point and the active fence of the team, if any. */
  function GateOf(g: Globe, point: Option<Point>, fence: Option<Geofence>): Gate {
    if fence.None? then NoFence
    else if point.None? then LocationMissing
    else
      var r := CheckPoint(g, point.value, fence.value);
      Checked(r.isWithin, r.isNearBoundary)
  }

  /** Why a check-in is turned away at the gate: there is a fence and no location, or a location that is not within. */
  lemma GateAnswers(g: Globe, rows: seq<Event>, req: Request, point: Option<Point>, fence: Option<Geofence>)
    requires req.kind == CheckIn && req.gate == GateOf(g, point, fence)
    ensures Decide(rows, req) == Refused(LocationRequired) <==> fence.Some? && point.None?
    ensures Decide(rows, req) == Refused(OutsideFence)
            <==> fence.Some? && point.Some? && !CheckPoint(g, point.value, fence.value).isWithin
  {
  }

  /** A check-in saved under a fence was within it, and its row is flagged iff it was not strictly within. */
  lemma SavedCheckInsAreWithin(g: Globe, rows: seq<Event>, req: Request, point: Option<Point>, fence: Geofence)
    requires req.kind == CheckIn && req.gate == GateOf(g, point, Some(fence))
    requires Decide(rows, req).Saved?
    ensures point.Some? && CheckPoint(g, point.value, fence).isWithin
    ensures Decide(rows, req).event.nearBoundary <==> !StrictlyWithin(g, point.value, fence)
  {
    if point.Some? {
      NearMeansWithinButNotStrictly(g, point.value, fence);
    }
  }
}
