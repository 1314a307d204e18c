/**
 The ray-casting test for points in a polygon: a boolean toggled once for every edge that meets the
 ray from the point towards growing longitude. Coordinates are exact reals.
 */
module RayCasting {
  datatype Point = Point(lat: real, lng: real)

  /** The edge has one end above the point's latitude and one end not above it. */
  predicate Spans(a: Point, b: Point, lat: real) {
    (a.lat > lat) != (b.lat > lat)
  }

  /** The longitude at which the line through the edge has the point's latitude. */
  function MeetsAt(a: Point, b: Point, lat: real): real
    requires Spans(a, b, lat)
  {
    a.lng + (b.lng - a.lng) * (lat - a.lat) / (b.lat - a.lat)
  }

  predicate Crosses(a: Point, b: Point, p: Point) {
    Spans(a, b, p.lat) && MeetsAt(a, b, p.lat) > p.lng
  }

  predicate Xor(a: bool, b: bool) { a != b }

  /** Whether an odd number of edges along an open path cross the ray. */
  predicate OddAlong(path: seq<Point>, p: Point) {
    |path| >= 2 && Xor(Crosses(path[0], path[1], p), OddAlong(path[1..], p))
  }

  /** Whether an odd number of edges of the closed polygon cross the ray. */
  predicate RayInside(poly: seq<Point>, p: Point) {
    poly != [] && Xor(Crosses(poly[|poly| - 1], poly[0], p), OddAlong(poly, p))
  }

  lemma {:induction false} OddSplit(a: seq<Point>, v: Point, b: seq<Point>, p: Point)
    ensures OddAlong(a + [v] + b, p) == Xor(OddAlong(a + [v], p), OddAlong([v] + b, p))
  {
    if a == [] {
      assert a + [v] + b == [v] + b && a + [v] == [v];
    } else {
      OddSplit(a[1..], v, b, p);
      assert (a + [v] + b)[1..] == a[1..] + [v] + b;
      assert (a + [v])[1..] == a[1..] + [v];
      assert a == [a[0]] + a[1..];
    }
  }

  lemma SwapEnds(a: Point, b: Point, p: Point)
    ensures Spans(a, b, p.lat) ==> MeetsAt(a, b, p.lat) == MeetsAt(b, a, p.lat)
    ensures Crosses(a, b, p) == Crosses(b, a, p)
  {
    if Spans(a, b, p.lat) {
      var d, t := b.lat - a.lat, (p.lat - a.lat) / (b.lat - a.lat);
      assert (b.lng - a.lng) * (p.lat - a.lat) / d == (b.lng - a.lng) * t;
      assert (a.lng - b.lng) * (p.lat - b.lat) / (a.lat - b.lat) == (a.lng - b.lng) * (1.0 - t);
    }
  }

  lemma OddSnoc(path: seq<Point>, v: Point, p: Point)
    requires path != []
    ensures OddAlong(path + [v], p) == Xor(OddAlong(path, p), Crosses(path[|path| - 1], v, p))
  {
    var n := |path| - 1;
    OddSplit(path[..n], path[n], [v], p);
    assert path[..n] + [path[n]] == path;
    assert [path[n]] + [v] == [path[n], v] && [path[n], v][1..] == [v];
  }

  /** Positive left of the directed line from a to b, negative right of it, with longitude to the east and latitude to the north. */
  function Side(a: Point, b: Point, p: Point): real {
    (b.lng - a.lng) * (p.lat - a.lat) - (b.lat - a.lat) * (p.lng - a.lng)
  }

  /** The edge goes up past the point on its right, or down past it on its right; the lower end counts, the upper does not. */
  predicate PassesRight(a: Point, b: Point, p: Point) {
    (a.lat <= p.lat < b.lat && Side(a, b, p) > 0.0) || (b.lat <= p.lat < a.lat && Side(a, b, p) < 0.0)
  }

  lemma QuotientAbove(n: real, d: real, g: real)
    ensures d > 0.0 ==> (n / d > g <==> n > d * g)
    ensures d < 0.0 ==> (n / d > g <==> n < d * g)
  {
    if d != 0.0 {
      var q := n / d;
      assert n == q * d;
      if d > 0.0 {
        TimesPositive(q, g, d);
      } else {
        TimesPositive(g, q, -d);
      }
    }
  }

  lemma TimesPositive(x: real, y: real, d: real)
    requires d > 0.0
    ensures x > y <==> x * d > y * d
  {
  }

  /** The division of the edge test decides on which side of the edge the point lies. */
  lemma CrossesIffPassesRight(a: Point, b: Point, p: Point)
    ensures Crosses(a, b, p) <==> PassesRight(a, b, p)
  {
    if Spans(a, b, p.lat) {
      QuotientAbove((b.lng - a.lng) * (p.lat - a.lat), b.lat - a.lat, p.lng - a.lng);
    }
  }

  /** Edge i of the closed polygon, from vertex i to the next, passes the point on its right. */
  predicate EdgePasses(poly: seq<Point>, p: Point, i: nat)
    requires i < |poly|
  {
    PassesRight(poly[i], poly[(i + 1) % |poly|], p)
  }

  function EdgesToTheRight(poly: seq<Point>, p: Point): set<nat> {
    set i: nat | i < |poly| && EdgePasses(poly, p, i)
  }

  predicate PathEdgePasses(path: seq<Point>, p: Point, i: nat)
    requires i < |path| - 1
  {
    PassesRight(path[i], path[i + 1], p)
  }

  function PathEdges(path: seq<Point>, p: Point): set<nat> {
    set i: nat | i < |path| - 1 && PathEdgePasses(path, p, i)
  }

  lemma AddOne(s: set<nat>, i: nat, present: bool, t: set<nat>)
    requires i !in s && t == if present then s + {i} else s
    ensures (|t| % 2 == 1) == Xor(|s| % 2 == 1, present)
  {
  }

  lemma PathEdgesSnoc(front: seq<Point>, v: Point, p: Point)
    requires front != []
    ensures var n := |front| - 1;
            n !in PathEdges(front, p)
            && PathEdges(front + [v], p) == if PassesRight(front[n], v, p) then PathEdges(front, p) + {n} else PathEdges(front, p)
  {
    var path, n := front + [v], |front| - 1;
    assert forall i: nat :: i < n ==> PathEdgePasses(path, p, i) == PathEdgePasses(front, p, i);
    assert PathEdgePasses(path, p, n) == PassesRight(front[n], v, p);
  }

  lemma {:induction false} OddPathIsCounted(path: seq<Point>, p: Point)
    ensures OddAlong(path, p) <==> |PathEdges(path, p)| % 2 == 1
  {
    if |path| >= 2 {
      var front, v := path[..|path| - 1], path[|path| - 1];
      var n := |front| - 1;
      OddPathIsCounted(front, p);
      assert path == front + [v];
      OddSnoc(front, v, p);
      CrossesIffPassesRight(front[n], v, p);
      PathEdgesSnoc(front, v, p);
      AddOne(PathEdges(front, p), n, PassesRight(front[n], v, p), PathEdges(path, p));
    } else {
      assert PathEdges(path, p) == {};
    }
  }

  lemma EdgesOfPath(poly: seq<Point>, p: Point)
    requires poly != []
    ensures forall i: nat :: i < |poly| - 1 ==> EdgePasses(poly, p, i) == PathEdgePasses(poly, p, i)
    ensures EdgePasses(poly, p, |poly| - 1) == PassesRight(poly[|poly| - 1], poly[0], p)
  {
    forall i: nat | i < |poly| - 1 ensures EdgePasses(poly, p, i) == PathEdgePasses(poly, p, i) {
      assert (i + 1) % |poly| == i + 1;
    }
  }

  /** The point is reported inside iff an odd number of edges pass it on its right. */
  lemma InsideIffOddToTheRight(poly: seq<Point>, p: Point)
    ensures RayInside(poly, p) <==> |EdgesToTheRight(poly, p)| % 2 == 1
  {
    if poly == [] {
      assert EdgesToTheRight(poly, p) == {};
    } else {
      var n := |poly| - 1;
      var present := PassesRight(poly[n], poly[0], p);
      OddPathIsCounted(poly, p);
      CrossesIffPassesRight(poly[n], poly[0], p);
      EdgesOfPath(poly, p);
      assert EdgesToTheRight(poly, p) == if present then PathEdges(poly, p) + {n} else PathEdges(poly, p);
      AddOne(PathEdges(poly, p), n, present, EdgesToTheRight(poly, p));
    }
  }

  /** The test of one edge, from vertex i to its predecessor j. */
  method EdgeCrosses(vi: Point, vj: Point, p: Point) returns (crosses: bool)
    ensures crosses == Crosses(vi, vj, p)
  {
    if (vi.lat > p.lat) != (vj.lat > p.lat) {
      var intersectionLng := MeetsAt(vi, vj, p.lat);
      return intersectionLng > p.lng;
    }
    return false;
  }

  /** The crossing loop, with j trailing i around the polygon. */
  method CrossingLoop(coordinates: seq<Point>, p: Point) returns (inside: bool)
    ensures inside == RayInside(coordinates, p)
    ensures inside <==> |EdgesToTheRight(coordinates, p)| % 2 == 1
  {
    inside := false;
    var i, j := 0, |coordinates| - 1;
    while i < |coordinates|
      invariant 0 <= i <= |coordinates|
      invariant j == if i == 0 then |coordinates| - 1 else i - 1
      invariant i == 0 ==> !inside
      invariant i > 0 ==> inside == Xor(Crosses(coordinates[|coordinates| - 1], coordinates[0], p),
                                        OddAlong(coordinates[..i], p))
    {
      var toggles := EdgeCrosses(coordinates[i], coordinates[j], p);
      if toggles {
        inside := !inside;
      }
      SwapEnds(coordinates[i], coordinates[j], p);
      assert coordinates[..i + 1] == coordinates[..i] + [coordinates[i]];
      if i > 0 {
        OddSnoc(coordinates[..i], coordinates[i], p);
      }
      j := i;
      i := i + 1;
    }
    assert coordinates[..|coordinates|] == coordinates;
    InsideIffOddToTheRight(coordinates, p);
  }

  /** Turning the vertex list does not change the answer. */
  lemma RotationInvariant(a: seq<Point>, b: seq<Point>, p: Point)
    ensures RayInside(a + b, p) == RayInside(b + a, p)
  {
    if a == [] || b == [] {
      assert a + b == b + a;
    } else {
      OddJoin(a, b, p);
      OddJoin(b, a, p);
    }
  }

  lemma OddJoin(a: seq<Point>, b: seq<Point>, p: Point)
    requires a != [] && b != []
    ensures OddAlong(a + b, p) == Xor(Xor(OddAlong(a, p), Crosses(a[|a| - 1], b[0], p)), OddAlong(b, p))
  {
    OddSplit(a, b[0], b[1..], p);
    assert [b[0]] + b[1..] == b && a + [b[0]] + b[1..] == a + b;
    OddSnoc(a, b[0], p);
  }

  function Reverse(s: seq<Point>): seq<Point> {
    if s == [] then [] else Reverse(s[1..]) + [s[0]]
  }

  lemma {:induction false} ReverseEnds(s: seq<Point>)
    ensures |Reverse(s)| == |s|
    ensures s != [] ==> Reverse(s)[0] == s[|s| - 1] && Reverse(s)[|s| - 1] == s[0]
  {
    if s != [] {
      ReverseEnds(s[1..]);
    }
  }

  lemma {:induction false} OddReverse(s: seq<Point>, p: Point)
    ensures OddAlong(Reverse(s), p) == OddAlong(s, p)
  {
    if |s| >= 2 {
      OddReverse(s[1..], p);
      ReverseEnds(s[1..]);
      OddSnoc(Reverse(s[1..]), s[0], p);
      SwapEnds(s[1], s[0], p);
    }
  }

  /** Listing the vertices backwards does not change the answer. */
  lemma ReversalInvariant(poly: seq<Point>, p: Point)
    ensures RayInside(Reverse(poly), p) == RayInside(poly, p)
  {
    if poly != [] {
      ReverseEnds(poly);
      OddReverse(poly, p);
      SwapEnds(poly[0], poly[|poly| - 1], p);
    }
  }

  function Mix(a: real, b: real, t: real): real { a + t * (b - a) }

  /** The point the fraction t of the way from a to b. */
  function Along(a: Point, b: Point, t: real): Point {
    Point(Mix(a.lat, b.lat, t), Mix(a.lng, b.lng, t))
  }

  predicate OnSegment(m: Point, a: Point, b: Point, t: real) {
    0.0 <= t <= 1.0 && m == Along(a, b, t)
  }

  lemma Cancel(t: real, x: real, h: real, d: real)
    requires t != 0.0 && d != 0.0
    ensures t * d != 0.0 && t * x * h / (t * d) == x * h / d
  {
    var q := x * h / d;
    assert q * d == x * h;
    assert t * x * h == q * (t * d);
  }

  /** The part of an edge up to one of its points meets a latitude where the edge does. */
  lemma PartMeetsAlike(a: Point, b: Point, m: Point, t: real, lat: real)
    requires OnSegment(m, a, b, t) && Spans(a, b, lat) && Spans(a, m, lat)
    ensures MeetsAt(a, m, lat) == MeetsAt(a, b, lat)
  {
    assert m.lat - a.lat == t * (b.lat - a.lat);
    assert m.lng - a.lng == t * (b.lng - a.lng);
    Cancel(t, b.lng - a.lng, lat - a.lat, b.lat - a.lat);
  }

  lemma MixFlip(a: real, b: real, t: real)
    ensures Mix(b, a, 1.0 - t) == Mix(a, b, t)
  {
    var x := b - a;
    assert (1.0 - t) * (0.0 - x) == t * x - x;
    assert a - b == 0.0 - x;
  }

  lemma MixBetween(a: real, b: real, t: real)
    requires 0.0 <= t <= 1.0
    ensures a <= Mix(a, b, t) <= b || b <= Mix(a, b, t) <= a
  {
    var x, y := b - a, Product(t, b - a);
    assert Mix(a, b, t) == a + y;
    assert if x >= 0.0 then 0.0 <= y <= x else x <= y <= 0.0;
  }

  function Product(t: real, x: real): (y: real)
    requires 0.0 <= t <= 1.0
    ensures x >= 0.0 ==> 0.0 <= y <= x
    ensures x <= 0.0 ==> x <= y <= 0.0
  {
    t * x
  }

  lemma OtherWay(a: Point, b: Point, m: Point, t: real)
    requires OnSegment(m, a, b, t)
    ensures OnSegment(m, b, a, 1.0 - t)
    ensures a.lat <= m.lat <= b.lat || b.lat <= m.lat <= a.lat
  {
    MixFlip(a.lat, b.lat, t);
    MixFlip(a.lng, b.lng, t);
    MixBetween(a.lat, b.lat, t);
  }

  /** An edge crosses the ray iff exactly one of its two parts does. */
  lemma EdgeParts(a: Point, b: Point, m: Point, t: real, p: Point)
    requires OnSegment(m, a, b, t)
    ensures Crosses(a, b, p) == Xor(Crosses(a, m, p), Crosses(m, b, p))
  {
    OtherWay(a, b, m, t);
    SwapEnds(m, b, p);
    SwapEnds(a, b, p);
    if Spans(a, m, p.lat) {
      PartMeetsAlike(a, b, m, t, p.lat);
    }
    if Spans(b, m, p.lat) {
      PartMeetsAlike(b, a, m, 1.0 - t, p.lat);
    }
  }

  /** A further vertex on an edge, here the one from the end of x to the start of y, does not change the answer. */
  lemma InsertionInvariant(x: seq<Point>, y: seq<Point>, m: Point, t: real, p: Point)
    requires x != [] && y != [] && OnSegment(m, x[|x| - 1], y[0], t)
    ensures RayInside(x + [m] + y, p) == RayInside(x + y, p)
  {
    EdgeParts(x[|x| - 1], y[0], m, t, p);
    OddJoin(x, y, p);
    OddJoin(x + [m], y, p);
    OddSnoc(x, m, p);
  }

  /** The same for the edge that closes the polygon. */
  lemma ClosingInsertionInvariant(x: seq<Point>, m: Point, t: real, p: Point)
    requires x != [] && OnSegment(m, x[|x| - 1], x[0], t)
    ensures RayInside(x + [m], p) == RayInside(x, p)
  {
    EdgeParts(x[|x| - 1], x[0], m, t, p);
    OddSnoc(x, m, p);
  }

  /** Whether an odd number of edges along an open path span a latitude. */
  predicate OddSpans(path: seq<Point>, lat: real) {
    |path| >= 2 && Xor(Spans(path[0], path[1], lat), OddSpans(path[1..], lat))
  }

  lemma {:induction false} SpansTelescope(path: seq<Point>, lat: real)
    requires path != []
    ensures OddSpans(path, lat) == Spans(path[0], path[|path| - 1], lat)
  {
    if |path| >= 2 {
      SpansTelescope(path[1..], lat);
    }
  }

  /** Left of every vertex, an edge crosses the ray as soon as it spans the latitude. */
  lemma {:induction false} LeftOfAllCrossesAll(path: seq<Point>, p: Point)
    requires forall v :: v in path ==> p.lng < v.lng
    ensures OddAlong(path, p) == OddSpans(path, p.lat)
  {
    if |path| >= 2 {
      LeftOfAllCrossesAll(path[1..], p);
      MeetsBetween(path[0], path[1], p.lat);
      assert path[0] in path && path[1] in path;
    }
  }

  lemma MeetsBetween(a: Point, b: Point, lat: real)
    ensures Spans(a, b, lat) ==> a.lng <= MeetsAt(a, b, lat) <= b.lng || b.lng <= MeetsAt(a, b, lat) <= a.lng
  {
    if Spans(a, b, lat) {
      var d, h, x := b.lat - a.lat, lat - a.lat, b.lng - a.lng;
      var t := h / d;
      QuotientInUnit(h, d);
      QuotientTimes(x, h, d);
      var y := Product(t, x);
      assert MeetsAt(a, b, lat) == a.lng + y;
    }
  }

  lemma QuotientInUnit(h: real, d: real)
    requires (0.0 <= h <= d && d > 0.0) || (d <= h <= 0.0 && d < 0.0)
    ensures 0.0 <= h / d <= 1.0
  {
  }

  lemma QuotientTimes(x: real, h: real, d: real)
    requires d != 0.0
    ensures x * h / d == h / d * x
  {
  }

  /** Some vertex is not above the point, some is above it, and some is to its right. */
  predicate Around(path: seq<Point>, p: Point) {
    && (exists v :: v in path && v.lat <= p.lat)
    && (exists v :: v in path && p.lat < v.lat)
    && (exists v :: v in path && p.lng < v.lng)
  }

  lemma CrossingEdgeGoesAround(path: seq<Point>, p: Point)
    requires |path| >= 2 && Crosses(path[0], path[1], p)
    ensures Around(path, p)
  {
    MeetsBetween(path[0], path[1], p.lat);
    assert path[0] in path && path[1] in path;
  }

  lemma AroundTail(path: seq<Point>, p: Point)
    requires path != [] && Around(path[1..], p)
    ensures Around(path, p)
  {
    var u :| u in path[1..] && u.lat <= p.lat;
    var v :| v in path[1..] && p.lat < v.lat;
    var w :| w in path[1..] && p.lng < w.lng;
    assert u in path && v in path && w in path;
  }

  /** A path that crosses the ray goes around the point. */
  lemma {:induction false} CrossingGoesAround(path: seq<Point>, p: Point)
    requires OddAlong(path, p)
    ensures Around(path, p)
  {
    if Crosses(path[0], path[1], p) {
      CrossingEdgeGoesAround(path, p);
    } else {
      CrossingGoesAround(path[1..], p);
      AroundTail(path, p);
    }
  }

  predicate InBox(poly: seq<Point>, p: Point) {
    Around(poly, p) && exists v :: v in poly && v.lng <= p.lng
  }

  /**
   Inside implies in the bounding box: some vertex is not above the point and some is above it, some is
   not to the right and some is to the right. The left side holds because a closed cycle spans a
   latitude an even number of times.
   */
  lemma InsideImpliesInBox(poly: seq<Point>, p: Point)
    requires RayInside(poly, p)
    ensures InBox(poly, p)
  {
    var last := poly[|poly| - 1];
    var closed := [last] + poly;
    assert closed[1..] == poly;
    assert OddAlong(closed, p);
    CrossingGoesAround(closed, p);
    assert forall v :: v in closed ==> v in poly;
    if forall v :: v in poly ==> p.lng < v.lng {
      LeftOfAllCrossesAll(closed, p);
      SpansTelescope(closed, p.lat);
    }
  }
}
