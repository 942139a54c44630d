/**
 Exactly when two polygons share a point, and exactly when the intersection
 test says so. A point's being inside cannot change along a segment that
 meets no edge, so two regions that share a point either have meeting edges
 or hold a vertex of one another.
 */
module Regions {
  import opened Wrappers
  import opened Segments
  import opened Geometry

  // A segment that meets no edge does not change the parity

  /** x lies to the east of the line from p up to q. */
  predicate East(p: Point, q: Point, x: Point) {
    Cross(p, q, x) < 0.0
  }

  /** v is level with the segment, above p and not above q, and to its east. */
  predicate Beside(p: Point, q: Point, v: Point) {
    p.lat < v.lat <= q.lat && East(p, q, v)
  }

  lemma LevelOnLine(p: Point, q: Point, x: Point)
    requires p.lat < q.lat && p.lat <= x.lat <= q.lat && Cross(p, q, x) == 0.0
    ensures On(x, p, q)
  {
    var t := (x.lat - p.lat) / (q.lat - p.lat);
    ZeroOn(x.lat - p.lat, q.lat - p.lat);
    OtherCoordinate(q.lat - p.lat, q.lon - p.lon, x.lat - p.lat, x.lon - p.lon, t);
    assert x == At(p, q, t);
  }

  /** An edge that changes sides at the segment's height meets the segment. */
  lemma ChangingSidesMeets(p: Point, q: Point, a: Point, b: Point, s: real, t: real)
    requires p.lat < q.lat && 0.0 <= s <= 1.0 && 0.0 <= t <= 1.0
    requires p.lat <= At(a, b, s).lat <= q.lat && p.lat <= At(a, b, t).lat <= q.lat
    requires East(p, q, At(a, b, s)) && !East(p, q, At(a, b, t))
    ensures SharePoint(p, q, a, b)
  {
    hide Cross, At;
    var y, z := At(a, b, s), At(a, b, t);
    var cy, cz := Cross(p, q, y), Cross(p, q, z);
    ZeroBetween(cy, cz);
    var u := cy / (cy - cz);
    var w := At(y, z, u);
    CrossAlong(p, q, y, z, u);
    MixVanishes(cy, cz, u);
    MixParameter(a, b, s, t, u);
    MixBetween(s, t, u);
    LevelBetween(y, z, u);
    LevelOnLine(p, q, w);
    assert On(w, p, q) && On(w, a, b);
  }

  lemma MixVanishes(a: real, b: real, u: real)
    requires u * (a - b) == a
    ensures (1.0 - u) * a + u * b == 0.0
  {
  }

  lemma LevelBetween(y: Point, z: Point, u: real)
    requires 0.0 <= u <= 1.0
    ensures Min(y.lat, z.lat) <= At(y, z, u).lat <= Max(y.lat, z.lat)
  {
    MixBetween(y.lat, z.lat, u);
  }

  lemma SameSide(p: Point, q: Point, a: Point, b: Point, s: real, t: real)
    requires p.lat < q.lat && 0.0 <= s <= 1.0 && 0.0 <= t <= 1.0
    requires p.lat <= At(a, b, s).lat <= q.lat && p.lat <= At(a, b, t).lat <= q.lat
    requires !SharePoint(p, q, a, b)
    ensures East(p, q, At(a, b, s)) == East(p, q, At(a, b, t))
  {
    hide Cross, At, SharePoint;
    if East(p, q, At(a, b, s)) && !East(p, q, At(a, b, t)) {
      ChangingSidesMeets(p, q, a, b, s, t);
    } else if East(p, q, At(a, b, t)) && !East(p, q, At(a, b, s)) {
      ChangingSidesMeets(p, q, a, b, t, s);
    }
  }

  /** The point where an edge passes the latitude of p. */
  lemma PassingPoint(a: Point, b: Point, p: Point) returns (t: real)
    requires Straddles(a, b, p)
    ensures 0.0 <= t <= 1.0 && At(a, b, t) == Point(CrossingLon(a, b, p), p.lat)
  {
    t := (p.lat - a.lat) / (b.lat - a.lat);
    FractionIn01(p.lat - a.lat, b.lat - a.lat);
    assert t * (b.lat - a.lat) == p.lat - a.lat;
  }

  lemma EastOfLower(p: Point, q: Point, x: Point)
    requires p.lat < q.lat && x.lat == p.lat
    ensures East(p, q, x) <==> x.lon > p.lon
  {
    var h, w := q.lat - p.lat, x.lon - p.lon;
    assert Cross(p, q, x) == -(h * w);
    SignOfProduct(h, w);
  }

  lemma EastOfUpper(p: Point, q: Point, x: Point)
    requires p.lat < q.lat && x.lat == q.lat
    ensures East(p, q, x) <==> x.lon > q.lon
  {
    var h, w := q.lat - p.lat, x.lon - q.lon;
    assert Cross(p, q, x) == -(h * w);
    SignOfProduct(h, w);
  }

  lemma SignOfProduct(h: real, w: real)
    requires h > 0.0
    ensures h * w > 0.0 <==> w > 0.0
  {
  }

  /**
   The places where an edge enters or leaves the region east of the segment,
   in the order 0: at p, 1: at q, 2: a, 3: b.
   */
  predicate Applies(a: Point, b: Point, p: Point, q: Point, k: int) {
    if k == 0 then Straddles(a, b, p)
    else if k == 1 then Straddles(a, b, q)
    else if k == 2 then p.lat < a.lat <= q.lat
    else p.lat < b.lat <= q.lat
  }

  predicate Counts(a: Point, b: Point, p: Point, q: Point, k: int) {
    if k == 0 then Crosses(a, b, p)
    else if k == 1 then Crosses(a, b, q)
    else if k == 2 then Beside(p, q, a)
    else Beside(p, q, b)
  }

  lemma PlaceOf(a: Point, b: Point, p: Point, q: Point, k: int) returns (t: real)
    requires p.lat < q.lat && Applies(a, b, p, q, k)
    ensures 0.0 <= t <= 1.0 && p.lat <= At(a, b, t).lat <= q.lat
    ensures Counts(a, b, p, q, k) <==> East(p, q, At(a, b, t))
  {
    if k == 0 {
      t := PassingPoint(a, b, p);
      hide Cross;
      EastOfLower(p, q, At(a, b, t));
    } else if k == 1 {
      t := PassingPoint(a, b, q);
      hide Cross;
      EastOfUpper(p, q, At(a, b, t));
    } else {
      hide Cross;
      t := if k == 2 then 0.0 else 1.0;
    }
  }

  lemma CountsIsApplies(a: Point, b: Point, p: Point, q: Point, k: int)
    ensures Counts(a, b, p, q, k) ==> Applies(a, b, p, q, k)
  {
  }

  /** All the places lie on the same side. */
  lemma PlacesAgree(a: Point, b: Point, p: Point, q: Point, j: int, k: int)
    requires p.lat < q.lat && !SharePoint(p, q, a, b)
    requires Applies(a, b, p, q, j) && Applies(a, b, p, q, k)
    ensures Counts(a, b, p, q, j) == Counts(a, b, p, q, k)
  {
    hide Counts, Applies, East, At, SharePoint;
    var s := PlaceOf(a, b, p, q, j);
    var t := PlaceOf(a, b, p, q, k);
    SameSide(p, q, a, b, s, t);
  }

  /** The two ray counts change together exactly when the edge enters or leaves the region beside the segment. */
  lemma EdgeParity(a: Point, b: Point, p: Point, q: Point)
    requires p.lat < q.lat && !SharePoint(p, q, a, b)
    ensures (Crosses(a, b, p) != Crosses(a, b, q)) == (Beside(p, q, a) != Beside(p, q, b))
  {
    forall j, k | 0 <= j < k < 4 && Applies(a, b, p, q, j) && Applies(a, b, p, q, k)
      ensures Counts(a, b, p, q, j) == Counts(a, b, p, q, k)
    {
      PlacesAgree(a, b, p, q, j, k);
    }
    forall k | 0 <= k < 4
      ensures Counts(a, b, p, q, k) ==> Applies(a, b, p, q, k)
    {
      CountsIsApplies(a, b, p, q, k);
    }
    hide Crosses, East, SharePoint;
    assert Applies(a, b, p, q, 0) == Straddles(a, b, p) && Applies(a, b, p, q, 1) == Straddles(a, b, q);
    assert Counts(a, b, p, q, 0) == Crosses(a, b, p) && Counts(a, b, p, q, 1) == Crosses(a, b, q);
    assert Counts(a, b, p, q, 2) == Beside(p, q, a) && Counts(a, b, p, q, 3) == Beside(p, q, b);
  }

  lemma LevelParity(a: Point, b: Point, p: Point, q: Point)
    requires p.lat == q.lat && !SharePoint(p, q, a, b)
    ensures Crosses(a, b, p) == Crosses(a, b, q)
  {
    if Straddles(a, b, p) && Crosses(a, b, p) != Crosses(a, b, q) {
      var t := PassingPoint(a, b, p);
      var x := Point(CrossingLon(a, b, p), p.lat);
      assert x == At(a, b, t);
      BetweenOnLevel(p, q, x);
      assert On(x, a, b);
      CommonPoint(x, p, q, a, b);
    }
  }

  lemma CommonPoint(x: Point, p: Point, q: Point, a: Point, b: Point)
    requires On(x, p, q) && On(x, a, b)
    ensures SharePoint(p, q, a, b)
  {
  }

  lemma BetweenOnLevel(p: Point, q: Point, x: Point)
    requires x.lat == p.lat == q.lat
    requires p.lon < x.lon <= q.lon || q.lon < x.lon <= p.lon || p.lon <= x.lon < q.lon
    ensures On(x, p, q)
  {
    var t := (x.lon - p.lon) / (q.lon - p.lon);
    ZeroOn(x.lon - p.lon, q.lon - p.lon);
    assert x == At(p, q, t);
  }

  /** No edge of the ring shares a point with the segment. */
  ghost predicate RingAvoids(ring: Ring, p: Point, q: Point) {
    forall i | 0 <= i < |ring| - 1 :: EdgeAvoids(ring, i, p, q)
  }

  ghost predicate EdgeAvoids(ring: Ring, i: int, p: Point, q: Point)
    requires 0 <= i < |ring| - 1
  {
    !SharePoint(p, q, ring[i], ring[i + 1])
  }

  lemma PrefixAvoids(ring: Ring, p: Point, q: Point)
    requires |ring| >= 2 && RingAvoids(ring, p, q)
    ensures RingAvoids(ring[..|ring| - 1], p, q)
    ensures !SharePoint(p, q, ring[|ring| - 2], ring[|ring| - 1])
  {
    hide SharePoint;
    var init := ring[..|ring| - 1];
    forall i | 0 <= i < |init| - 1
      ensures EdgeAvoids(init, i, p, q)
    {
      assert EdgeAvoids(ring, i, p, q);
    }
    assert EdgeAvoids(ring, |ring| - 2, p, q);
  }

  lemma {:induction false} RisingParity(ring: Ring, p: Point, q: Point)
    requires ring != [] && p.lat < q.lat && RingAvoids(ring, p, q)
    ensures (RayCrossings(ring, p) + RayCrossings(ring, q)) % 2
         == if Beside(p, q, ring[0]) != Beside(p, q, ring[|ring| - 1]) then 1 else 0
    decreases |ring|
  {
    hide Crosses, Beside, RingAvoids;
    if |ring| >= 2 {
      var n := |ring| - 1;
      PrefixAvoids(ring, p, q);
      RisingParity(ring[..n], p, q);
      EdgeParity(ring[n - 1], ring[n], p, q);
    }
  }

  lemma {:induction false} LevelCounts(ring: Ring, p: Point, q: Point)
    requires p.lat == q.lat && RingAvoids(ring, p, q)
    ensures RayCrossings(ring, p) == RayCrossings(ring, q)
    decreases |ring|
  {
    hide Crosses, RingAvoids;
    if |ring| >= 2 {
      var n := |ring| - 1;
      PrefixAvoids(ring, p, q);
      LevelCounts(ring[..n], p, q);
      LevelParity(ring[n - 1], ring[n], p, q);
    }
  }

  lemma RingParity(ring: Ring, p: Point, q: Point)
    requires ClosedRing(ring) && RingAvoids(ring, p, q)
    ensures RayCrossings(ring, p) % 2 == RayCrossings(ring, q) % 2
  {
    hide RayCrossings, Beside, SharePoint;
    if p.lat < q.lat {
      RisingParity(ring, p, q);
    } else if p.lat == q.lat {
      LevelCounts(ring, p, q);
    } else {
      forall i | 0 <= i < |ring| - 1
        ensures EdgeAvoids(ring, i, q, p)
      {
        assert EdgeAvoids(ring, i, p, q);
        if SharePoint(q, p, ring[i], ring[i + 1]) {
          SharedBackwards(q, p, ring[i], ring[i + 1]);
        }
      }
      RisingParity(ring, q, p);
    }
  }

  lemma SharedBackwards(p: Point, q: Point, a: Point, b: Point)
    requires SharePoint(p, q, a, b)
    ensures SharePoint(q, p, a, b)
  {
    var x :| On(x, p, q) && On(x, a, b);
    OnBackwards(x, p, q);
  }

  lemma OnBackwards(x: Point, p: Point, q: Point)
    requires On(x, p, q)
    ensures On(x, q, p)
  {
    var t :| 0.0 <= t <= 1.0 && x == At(p, q, t);
    MixFlip(p.lon, q.lon, t);
    MixFlip(p.lat, q.lat, t);
    assert x == At(q, p, 1.0 - t);
  }

  ghost predicate Avoids(poly: Polygon, p: Point, q: Point) {
    forall r | r in poly :: RingAvoids(r, p, q)
  }

  predicate AllClosed(poly: Polygon) {
    forall r | r in poly :: ClosedRing(r)
  }

  /** Being inside cannot change along a segment that meets no edge. */
  lemma {:induction false} InsideIsConstant(poly: Polygon, p: Point, q: Point)
    requires AllClosed(poly) && Avoids(poly, p, q)
    ensures TotalCrossings(poly, p) % 2 == TotalCrossings(poly, q) % 2
    ensures InRings(poly, p) == InRings(poly, q)
    decreases |poly|
  {
    hide RayCrossings, RingAvoids, ClosedRing;
    if poly != [] {
      var n := |poly| - 1;
      InsideIsConstant(poly[..n], p, q);
      assert poly[n] in poly;
      RingParity(poly[n], p, q);
    }
  }

  // From a common point to a vertex

  ghost predicate OnBoundary(poly: Polygon, x: Point) {
    exists r, i | r in poly && 0 <= i < |r| - 1 :: On(x, r[i], r[i + 1])
  }

  /** A point of both boundaries is where two edges meet. */
  lemma BoundariesMeet(polyA: Polygon, polyB: Polygon, x: Point)
    requires OnBoundary(polyA, x) && OnBoundary(polyB, x)
    ensures AnyRingsMeet(polyA, polyB)
  {
    hide On, SegmentsIntersect;
    var r, i :| r in polyA && 0 <= i < |r| - 1 && On(x, r[i], r[i + 1]);
    var s, j :| s in polyB && 0 <= j < |s| - 1 && On(x, s[j], s[j + 1]);
    IntersectIffShare(r[i], r[i + 1], s[j], s[j + 1]);
    assert EdgesMeet(r, i, s, j);
  }

  /** A segment all of whose points lie off the boundary avoids it. */
  lemma OffBoundary(poly: Polygon, p: Point, q: Point)
    requires forall x | On(x, p, q) :: !OnBoundary(poly, x)
    ensures Avoids(poly, p, q)
  {
    hide On;
    forall r, i | r in poly && 0 <= i < |r| - 1
      ensures EdgeAvoids(r, i, p, q)
    {
    }
  }

  lemma BackToStart(a: Point, b: Point, t: real, u: real)
    ensures At(At(a, b, t), a, u) == At(a, b, t + u * (0.0 - t))
  {
    assert At(a, b, 0.0) == a;
    MixParameter(a, b, t, 0.0, u);
  }

  lemma PartOfEdge(x: Point, a: Point, b: Point, y: Point)
    requires On(x, a, b) && On(y, x, a)
    ensures On(y, a, b)
  {
    hide At;
    var t :| 0.0 <= t <= 1.0 && x == At(a, b, t);
    var u :| 0.0 <= u <= 1.0 && y == At(x, a, u);
    BackToStart(a, b, t, u);
    MixBetween(t, 0.0, u);
    var k := t + u * (0.0 - t);
    assert 0.0 <= k <= 1.0 && y == At(a, b, k);
  }

  ghost predicate SomeVertexInside(polyA: Polygon, polyB: Polygon) {
    exists r | r in polyA :: VertexInside(r, polyB)
  }

  /** Sliding along the edge: a boundary point of A and a vertex of that ring are both inside B or both outside. */
  lemma EdgeEnd(polyA: Polygon, polyB: Polygon, x: Point) returns (r: Ring, v: Point)
    requires AllClosed(polyB) && OnBoundary(polyA, x) && !AnyRingsMeet(polyA, polyB)
    ensures r in polyA && v in r && InRings(polyB, v) == InRings(polyB, x)
  {
    hide On, InRings, AnyRingsMeet;
    var ring, i :| ring in polyA && 0 <= i < |ring| - 1 && On(x, ring[i], ring[i + 1]);
    r, v := ring, ring[i];
    forall y | On(y, x, v)
      ensures !OnBoundary(polyB, y)
    {
      PartOfEdge(x, r[i], r[i + 1], y);
      assert OnBoundary(polyA, y);
      if OnBoundary(polyB, y) {
        BoundariesMeet(polyA, polyB, y);
      }
    }
    OffBoundary(polyB, x, v);
    InsideIsConstant(polyB, x, v);
  }

  /** A boundary point of one inside the other makes a vertex of that ring inside. */
  lemma EdgeInside(polyA: Polygon, polyB: Polygon, x: Point)
    requires AllClosed(polyB) && OnBoundary(polyA, x) && InRings(polyB, x)
    requires !AnyRingsMeet(polyA, polyB)
    ensures SomeVertexInside(polyA, polyB)
  {
    hide OnBoundary, InRings, AnyRingsMeet;
    var r, v := EdgeEnd(polyA, polyB, x);
    assert VertexInside(r, polyB);
  }

  // Going east to the nearest edge

  /** The longitude at which a ray going east from x first touches an edge. */
  function Touch(a: Point, b: Point, x: Point): Option<real> {
    if a.lat == b.lat then
      if a.lat == x.lat && Max(a.lon, b.lon) >= x.lon then Some(Max(x.lon, Min(a.lon, b.lon))) else None
    else if Min(a.lat, b.lat) <= x.lat <= Max(a.lat, b.lat) then
      if LonAt(a, b, x.lat) >= x.lon then Some(LonAt(a, b, x.lat)) else None
    else None
  }

  /** How far along the line through a and b a latitude is. */
  function LevelParameter(a: Point, b: Point, lat: real): real
    requires a.lat != b.lat
  {
    (lat - a.lat) / (b.lat - a.lat)
  }

  /** Where the line through a and b passes a latitude. */
  function LonAt(a: Point, b: Point, lat: real): real
    requires a.lat != b.lat
  {
    At(a, b, LevelParameter(a, b, lat)).lon
  }

  lemma LevelParameterIs(a: Point, b: Point, t: real)
    requires a.lat != b.lat
    ensures LevelParameter(a, b, At(a, b, t).lat) == t
  {
    OnlyLevel(t, b.lat - a.lat, At(a, b, t).lat - a.lat);
  }

  lemma TouchIsOnEdge(a: Point, b: Point, x: Point)
    requires Touch(a, b, x).Some?
    ensures Touch(a, b, x).value >= x.lon && On(Point(Touch(a, b, x).value, x.lat), a, b)
  {
    var y := Point(Touch(a, b, x).value, x.lat);
    if a.lat == b.lat {
      if a.lon == b.lon {
        assert y == At(a, b, 0.0);
      } else {
        BoxCoordinate(a.lon, y.lon, b.lon);
        assert y == At(a, b, (y.lon - a.lon) / (b.lon - a.lon));
      }
    } else {
      BoxCoordinate(a.lat, x.lat, b.lat);
      assert y == At(a, b, (x.lat - a.lat) / (b.lat - a.lat));
    }
  }

  lemma LevelTouchIsFirst(a: Point, b: Point, x: Point, y: Point)
    requires a.lat == b.lat == x.lat && y.lon >= x.lon && Min(a.lon, b.lon) <= y.lon <= Max(a.lon, b.lon)
    ensures Touch(a, b, x).Some? && Touch(a, b, x).value <= y.lon
  {
  }

  lemma SlantTouchIsFirst(a: Point, b: Point, x: Point, y: Point, t: real)
    requires a.lat != b.lat && 0.0 <= t <= 1.0 && y == At(a, b, t) && y.lat == x.lat && y.lon >= x.lon
    ensures Touch(a, b, x) == Some(y.lon)
  {
    MixBetween(a.lat, b.lat, t);
    LevelParameterIs(a, b, t);
    hide LevelParameter, At;
  }

  lemma TouchIsFirst(a: Point, b: Point, x: Point, y: Point)
    requires On(y, a, b) && y.lat == x.lat && y.lon >= x.lon
    ensures Touch(a, b, x).Some? && Touch(a, b, x).value <= y.lon
  {
    var t :| 0.0 <= t <= 1.0 && y == At(a, b, t);
    if a.lat == b.lat {
      MixBetween(a.lon, b.lon, t);
      LevelTouchIsFirst(a, b, x, y);
    } else {
      hide Touch, At;
      SlantTouchIsFirst(a, b, x, y, t);
    }
  }

  lemma OnlyLevel(t: real, d: real, w: real)
    requires d != 0.0 && t * d == w
    ensures w / d == t
  {
  }

  lemma CrossesTouches(a: Point, b: Point, x: Point)
    requires Crosses(a, b, x)
    ensures Touch(a, b, x).Some?
  {
  }

  /** The places where the ray first touches each edge of a polygon. */
  ghost function Touches(poly: Polygon, x: Point): set<real> {
    set r, i | r in poly && 0 <= i < |r| - 1 && TouchAt(r, i, x).Some? :: TouchAt(r, i, x).value
  }

  function TouchAt(r: Ring, i: int, x: Point): Option<real>
    requires 0 <= i < |r| - 1
  {
    Touch(r[i], r[i + 1], x)
  }

  lemma {:induction false} CrossingEdge(ring: Ring, x: Point) returns (i: int)
    requires RayCrossings(ring, x) > 0
    ensures 0 <= i < |ring| - 1 && Crosses(ring[i], ring[i + 1], x)
    decreases |ring|
  {
    var n := |ring| - 1;
    if Crosses(ring[n - 1], ring[n], x) {
      i := n - 1;
    } else {
      i := CrossingEdge(ring[..n], x);
    }
  }

  lemma InsideTouches(poly: Polygon, x: Point)
    requires InRings(poly, x)
    ensures Touches(poly, x) != {}
  {
    hide Touch, Crosses;
    var k := OddRing(poly, x);
    var r := poly[k];
    var i := CrossingEdge(r, x);
    CrossesTouches(r[i], r[i + 1], x);
    assert TouchAt(r, i, x).value in Touches(poly, x);
  }

  lemma Pick<T>(s: set<T>) returns (k: T)
    requires s != {}
    ensures k in s
  {
    k :| k in s;
  }

  lemma {:induction false} LeastReal(s: set<real>) returns (m: real)
    requires s != {}
    ensures m in s && forall x | x in s :: m <= x
    decreases s
  {
    var k := Pick(s);
    m := k;
    if s != {k} {
      var n := LeastReal(s - {k});
      assert forall x | x in s :: x == k || x in s - {k};
      m := if k <= n then k else n;
    }
  }

  lemma TouchesHold(poly: Polygon, x: Point, y: Point)
    requires OnBoundary(poly, y) && y.lat == x.lat && y.lon >= x.lon
    ensures exists m :: m in Touches(poly, x) && m <= y.lon
  {
    hide On, Touch;
    var r, i :| r in poly && 0 <= i < |r| - 1 && On(y, r[i], r[i + 1]);
    TouchIsFirst(r[i], r[i + 1], x, y);
    assert TouchAt(r, i, x).value in Touches(poly, x);
  }

  lemma TouchesAreBoundary(poly: Polygon, x: Point, m: real)
    requires m in Touches(poly, x)
    ensures m >= x.lon && OnBoundary(poly, Point(m, x.lat))
  {
    hide On, Touch;
    var r, i :| r in poly && 0 <= i < |r| - 1 && TouchAt(r, i, x) == Some(m);
    TouchIsOnEdge(r[i], r[i + 1], x);
  }

  lemma LevelPoint(x: Point, y: Point, m: real)
    requires On(y, x, Point(m, x.lat)) && m >= x.lon
    ensures y.lat == x.lat && x.lon <= y.lon <= m
  {
    var t :| 0.0 <= t <= 1.0 && y == At(x, Point(m, x.lat), t);
    MixBetween(x.lon, m, t);
  }

  /** The nearest touch is on A's boundary: from x to there, and on to a vertex of A, being inside B does not change. */
  lemma NearestEnd(polyA: Polygon, polyB: Polygon, x: Point, m: real) returns (r: Ring, v: Point)
    requires AllClosed(polyB) && !AnyRingsMeet(polyA, polyB)
    requires m in Touches(polyA, x) && forall k | k in Touches(polyB, x) :: m <= k
    ensures r in polyA && v in r && InRings(polyB, v) == InRings(polyB, x)
  {
    hide On, InRings, AnyRingsMeet, Touches;
    TouchesAreBoundary(polyA, x, m);
    var z := Point(m, x.lat);
    forall y | On(y, x, z)
      ensures !OnBoundary(polyB, y)
    {
      LevelPoint(x, y, m);
      if OnBoundary(polyB, y) {
        TouchesHold(polyB, x, y);
        assert y == z;
        BoundariesMeet(polyA, polyB, z);
      }
    }
    OffBoundary(polyB, x, z);
    InsideIsConstant(polyB, x, z);
    r, v := EdgeEnd(polyA, polyB, z);
  }

  lemma NearestOnFirst(polyA: Polygon, polyB: Polygon, x: Point, m: real)
    requires AllClosed(polyB) && InRings(polyB, x) && !AnyRingsMeet(polyA, polyB)
    requires m in Touches(polyA, x) && forall k | k in Touches(polyB, x) :: m <= k
    ensures SomeVertexInside(polyA, polyB)
  {
    hide InRings, AnyRingsMeet, Touches;
    var r, v := NearestEnd(polyA, polyB, x, m);
    assert VertexInside(r, polyB);
  }

  /** Both polygons hold x and no edges meet: some vertex of one lies inside the other. */
  lemma CommonInside(polyA: Polygon, polyB: Polygon, x: Point)
    requires AllClosed(polyA) && AllClosed(polyB) && !AnyRingsMeet(polyA, polyB)
    requires InRings(polyA, x) && InRings(polyB, x)
    ensures SomeVertexInside(polyA, polyB) || SomeVertexInside(polyB, polyA)
  {
    hide InRings, AnyRingsMeet, Touches, SomeVertexInside;
    InsideTouches(polyA, x);
    InsideTouches(polyB, x);
    var m := LeastReal(Touches(polyA, x) + Touches(polyB, x));
    if m in Touches(polyA, x) {
      NearestOnFirst(polyA, polyB, x, m);
    } else {
      AnyRingsSymmetric(polyB, polyA);
      NearestOnFirst(polyB, polyA, x, m);
    }
  }

  lemma AnyRingsSymmetric(polyA: Polygon, polyB: Polygon)
    ensures AnyRingsMeet(polyA, polyB) ==> AnyRingsMeet(polyB, polyA)
  {
    hide RingsMeet;
    if AnyRingsMeet(polyA, polyB) {
      var r, s :| r in polyA && s in polyB && RingsMeet(r, s);
      RingsMeetSymmetric(r, s);
    }
  }

  // The exact condition

  /** The two closed regions have a point in common. */
  ghost predicate RegionsShare(polyA: Polygon, polyB: Polygon) {
    exists x :: InRegion(polyA, x) && InRegion(polyB, x)
  }

  lemma RegionIs(poly: Polygon, x: Point)
    ensures InRegion(poly, x) <==> InRings(poly, x) || OnBoundary(poly, x)
  {
    hide On, InRings;
  }

  lemma ShareNeedsContact(polyA: Polygon, polyB: Polygon, x: Point)
    requires AllClosed(polyA) && AllClosed(polyB) && InRegion(polyA, x) && InRegion(polyB, x)
    ensures AnyRingsMeet(polyA, polyB) || SomeVertexInside(polyA, polyB) || SomeVertexInside(polyB, polyA)
  {
    hide InRings, OnBoundary, AnyRingsMeet, SomeVertexInside, InRegion;
    RegionIs(polyA, x);
    RegionIs(polyB, x);
    if !AnyRingsMeet(polyA, polyB) {
      AnyRingsSymmetric(polyB, polyA);
      if OnBoundary(polyA, x) {
        if OnBoundary(polyB, x) {
          BoundariesMeet(polyA, polyB, x);
        } else {
          EdgeInside(polyA, polyB, x);
        }
      } else if OnBoundary(polyB, x) {
        EdgeInside(polyB, polyA, x);
      } else {
        CommonInside(polyA, polyB, x);
      }
    }
  }

  lemma VertexShares(polyA: Polygon, polyB: Polygon)
    requires ValidPolygon(polyA) && SomeVertexInside(polyA, polyB)
    ensures RegionsShare(polyA, polyB)
  {
    hide InRings, ClosedRing;
    var k :| 0 <= k < |polyA| && VertexInside(polyA[k], polyB);
    var p :| p in polyA[k] && InRings(polyB, p);
    VertexInRegion(polyA, k, p);
    assert InRegion(polyB, p);
  }

  lemma MeetingShares(polyA: Polygon, polyB: Polygon)
    requires AnyRingsMeet(polyA, polyB)
    ensures RegionsShare(polyA, polyB)
  {
    hide InRings, On, SegmentsIntersect;
    var r, s :| r in polyA && s in polyB && RingsMeet(r, s);
    var i, j :| 0 <= i < |r| - 1 && 0 <= j < |s| - 1 && EdgesMeet(r, i, s, j);
    IntersectIffShare(r[i], r[i + 1], s[j], s[j + 1]);
    var x :| On(x, r[i], r[i + 1]) && On(x, s[j], s[j + 1]);
    assert InRegion(polyA, x) && InRegion(polyB, x);
  }

  /**
   Two polygons share a point exactly when some edges meet or some vertex of
   any ring of one lies inside the other.
   */
  lemma ShareIffContact(polyA: Polygon, polyB: Polygon)
    requires ValidPolygon(polyA) && ValidPolygon(polyB)
    ensures RegionsShare(polyA, polyB)
       <==> AnyRingsMeet(polyA, polyB) || SomeVertexInside(polyA, polyB) || SomeVertexInside(polyB, polyA)
  {
    hide InRegion, AnyRingsMeet, SomeVertexInside;
    if RegionsShare(polyA, polyB) {
      var x :| InRegion(polyA, x) && InRegion(polyB, x);
      ShareNeedsContact(polyA, polyB, x);
    }
    if AnyRingsMeet(polyA, polyB) {
      MeetingShares(polyA, polyB);
    }
    if SomeVertexInside(polyA, polyB) {
      VertexShares(polyA, polyB);
    }
    if SomeVertexInside(polyB, polyA) {
      VertexShares(polyB, polyA);
      var x :| InRegion(polyB, x) && InRegion(polyA, x);
      assert RegionsShare(polyA, polyB);
    }
  }

  /**
   An inner ring reaches into the other polygon and nothing else does: no
   edges meet, no exterior vertex is inside.
   */
  ghost predicate OnlyInnerRingsReach(polyA: Polygon, polyB: Polygon) {
    && polyA != [] && polyB != []
    && !AnyRingsMeet(polyA, polyB) && !VertexInside(polyA[0], polyB) && !VertexInside(polyB[0], polyA)
    && (SomeVertexInside(polyA[1..], polyB) || SomeVertexInside(polyB[1..], polyA))
  }

  lemma SomeVertexSplit(polyA: Polygon, polyB: Polygon)
    requires polyA != []
    ensures SomeVertexInside(polyA, polyB) <==> VertexInside(polyA[0], polyB) || SomeVertexInside(polyA[1..], polyB)
  {
    hide VertexInside;
    assert polyA[0] in polyA && forall r :: r in polyA <==> r == polyA[0] || r in polyA[1..];
  }

  /**
   The program's test for two polygons is right except in exactly one case:
   it misses a common point when only vertices of inner rings reach into the
   other polygon. It never reports one that is not there.
   */
  lemma TestIsExact(polyA: Polygon, polyB: Polygon)
    requires ValidPolygon(polyA) && ValidPolygon(polyB)
    ensures PolygonsMeet(polyA, polyB) <==> RegionsShare(polyA, polyB) && !OnlyInnerRingsReach(polyA, polyB)
    ensures OnlyInnerRingsReach(polyA, polyB) ==> RegionsShare(polyA, polyB)
    ensures |polyA| == |polyB| == 1 ==> (PolygonsMeet(polyA, polyB) <==> RegionsShare(polyA, polyB))
  {
    hide AnyRingsMeet, VertexInside, RegionsShare;
    ShareIffContact(polyA, polyB);
    SomeVertexSplit(polyA, polyB);
    SomeVertexSplit(polyB, polyA);
  }

  ghost predicate AreasShare(a: Geometry, b: Geometry) {
    exists polyA, polyB | polyA in a && polyB in b :: RegionsShare(polyA, polyB)
  }

  /**
   In general the whole test answers true exactly when some polygons share a
   point other than through inner rings alone.
   */
  lemma IntersectsExactly(a: Geometry, b: Geometry)
    requires ValidGeometry(a) && ValidGeometry(b)
    ensures IntersectsTest(a, b)
       <==> exists polyA, polyB | polyA in a && polyB in b ::
              RegionsShare(polyA, polyB) && !OnlyInnerRingsReach(polyA, polyB)
  {
    hide PolygonsMeet, RegionsShare, ValidPolygon, IntersectsTest, OnlyInnerRingsReach;
    RejectIsExact(a, b);
    forall polyA, polyB | polyA in a && polyB in b
      ensures PolygonsMeet(polyA, polyB) <==> RegionsShare(polyA, polyB) && !OnlyInnerRingsReach(polyA, polyB)
    {
      TestIsExact(polyA, polyB);
    }
  }

  // An input the test misses

  /** The square from (lo, lo) to (hi, hi). */
  function Square(lo: real, hi: real): Ring {
    [Point(lo, lo), Point(hi, lo), Point(hi, hi), Point(lo, hi), Point(lo, lo)]
  }

  lemma OneMore(ring: Ring, k: nat, p: Point)
    requires 1 <= k < |ring|
    ensures RayCrossings(ring[..k + 1], p) == RayCrossings(ring[..k], p) + if Crosses(ring[k - 1], ring[k], p) then 1
      else 0
  {
    assert ring[..k + 1][..k] == ring[..k];
  }

  lemma SquareCount(lo: real, hi: real, p: Point)
    requires lo < hi
    ensures lo < p.lat < hi && lo < p.lon < hi ==> RayCrossings(Square(lo, hi), p) == 1
  {
    if lo < p.lat < hi && lo < p.lon < hi {
      var r := Square(lo, hi);
      SquareEdges(lo, hi, p);
      hide Crosses;
      assert RayCrossings(r[..1], p) == 0;
      OneMore(r, 1, p);
      OneMore(r, 2, p);
      OneMore(r, 3, p);
      OneMore(r, 4, p);
      assert r[..5] == r;
      hide RayCrossings;
    }
  }

  lemma SquareEdges(lo: real, hi: real, p: Point)
    requires lo < p.lat < hi && lo < p.lon < hi
    ensures var r := Square(lo, hi);
      !Crosses(r[0], r[1], p) && Crosses(r[1], r[2], p) && !Crosses(r[2], r[3], p) && !Crosses(r[3], r[4], p)
  {
    var r := Square(lo, hi);
    CrossingBetween(r[1], r[2], p);
    CrossingBetween(r[3], r[4], p);
  }

  lemma SquareWithin(lo: real, hi: real, p: Point)
    requires lo < hi && RayCrossings(Square(lo, hi), p) % 2 == 1
    ensures lo <= p.lat <= hi && lo <= p.lon <= hi
  {
    hide RayCrossings;
    OddIsEnclosed(Square(lo, hi), p, Bounds(lo, lo, hi, hi));
  }

  /** Two separate squares given as the rings of one polygon, and a square around the second. */
  const TWO_SQUARES: Polygon := [Square(0.0, 1.0), Square(10.0, 11.0)]
  const AROUND_SECOND: Polygon := [Square(9.0, 12.0)]

  lemma NoSquaresMeet(lo: real, hi: real)
    requires lo < hi < 9.0 || 9.0 < lo < hi < 12.0
    ensures !RingsMeet(Square(lo, hi), Square(9.0, 12.0))
  {
    hide SegmentsIntersect;
    var r, s := Square(lo, hi), Square(9.0, 12.0);
    forall i, j | 0 <= i < |r| - 1 && 0 <= j < |s| - 1
      ensures !EdgesMeet(r, i, s, j)
    {
      IntersectIffShare(r[i], r[i + 1], s[j], s[j + 1]);
      if SharePoint(r[i], r[i + 1], s[j], s[j + 1]) {
        var x :| On(x, r[i], r[i + 1]) && On(x, s[j], s[j + 1]);
        OnEdgeWithin(x, r[i], r[i + 1], Bounds(lo, lo, hi, hi));
        SquareSide(x, 9.0, 12.0, j);
      }
    }
  }

  /** A point of a square's side has one coordinate at the square's limit. */
  lemma SquareSide(x: Point, lo: real, hi: real, j: int)
    requires lo < hi && 0 <= j < 4 && On(x, Square(lo, hi)[j], Square(lo, hi)[j + 1])
    ensures x.lat == lo || x.lon == hi || x.lat == hi || x.lon == lo
    ensures lo <= x.lat <= hi && lo <= x.lon <= hi
  {
    var s := Square(lo, hi);
    OnEdgeWithin(x, s[j], s[j + 1], Bounds(lo, lo, hi, hi));
    if j == 0 {
      OnEdgeWithin(x, s[0], s[1], Bounds(lo, lo, lo, hi));
    } else if j == 1 {
      OnEdgeWithin(x, s[1], s[2], Bounds(lo, hi, hi, hi));
    } else if j == 2 {
      OnEdgeWithin(x, s[2], s[3], Bounds(hi, lo, hi, hi));
    } else {
      OnEdgeWithin(x, s[3], s[4], Bounds(lo, lo, hi, lo));
    }
  }

  lemma SquareAccepted(lo: real, hi: real)
    requires -90.0 <= lo < hi <= 90.0
    ensures BuildRing(RingCoords(Square(lo, hi))) == Success(Square(lo, hi)) && ClosedRing(Square(lo, hi))
  {
    ReadCoords(Square(lo, hi));
  }

  lemma TwoCounts(p: Point)
    ensures TotalCrossings(TWO_SQUARES, p) == RayCrossings(Square(0.0, 1.0), p) + RayCrossings(Square(10.0, 11.0), p)
    ensures TotalCrossings(AROUND_SECOND, p) == RayCrossings(Square(9.0, 12.0), p)
  {
    hide RayCrossings, Square;
    assert TWO_SQUARES[..1] == [Square(0.0, 1.0)] && TWO_SQUARES[..1][..0] == [] && AROUND_SECOND[..0] == [];
    assert TotalCrossings(TWO_SQUARES[..1], p) == RayCrossings(Square(0.0, 1.0), p);
  }

  lemma NoExteriorVertexInside()
    ensures !VertexInside(TWO_SQUARES[0], AROUND_SECOND) && !VertexInside(AROUND_SECOND[0], TWO_SQUARES)
  {
    hide RayCrossings, TotalCrossings;
    forall p | p in Square(0.0, 1.0)
      ensures !InRings(AROUND_SECOND, p)
    {
      TwoCounts(p);
      if InRings(AROUND_SECOND, p) {
        SquareWithin(9.0, 12.0, p);
      }
    }
    forall p | p in Square(9.0, 12.0)
      ensures !InRings(TWO_SQUARES, p)
    {
      TwoCounts(p);
      if RayCrossings(Square(0.0, 1.0), p) % 2 == 1 {
        SquareWithin(0.0, 1.0, p);
      } else if RayCrossings(Square(10.0, 11.0), p) % 2 == 1 {
        SquareWithin(10.0, 11.0, p);
      }
    }
  }

  lemma SquareElsewhere(lo: real, hi: real, p: Point)
    requires lo < hi && p.lat > hi
    ensures RayCrossings(Square(lo, hi), p) == 0
  {
    hide Crosses;
    var r := Square(lo, hi);
    if RayCrossings(r, p) > 0 {
      SomeCrossing(r, p);
    }
  }

  /**
   Both areas are accepted and share (10.5, 10.5), well inside each, yet the
   test says no: no vertex of the first square lies inside, and no edges meet.
   */
  lemma InnerRingMissed()
    ensures BuildRings(RingsToCoords(TWO_SQUARES)) == Success(TWO_SQUARES)
    ensures BuildRings(RingsToCoords(AROUND_SECOND)) == Success(AROUND_SECOND)
    ensures InRings(TWO_SQUARES, Point(10.5, 10.5)) && InRings(AROUND_SECOND, Point(10.5, 10.5))
    ensures !PolygonsMeet(TWO_SQUARES, AROUND_SECOND) && !IntersectsTest([TWO_SQUARES], [AROUND_SECOND])
  {
    hide BuildRing, RingCoords, RayCrossings, TotalCrossings, RingsMeet, VertexInside, Square;
    SquareAccepted(0.0, 1.0);
    SquareAccepted(10.0, 11.0);
    SquareAccepted(9.0, 12.0);
    BuiltFromRings(TWO_SQUARES);
    BuiltFromRings(AROUND_SECOND);
    var x := Point(10.5, 10.5);
    TwoCounts(x);
    SquareElsewhere(0.0, 1.0, x);
    SquareCount(10.0, 11.0, x);
    SquareCount(9.0, 12.0, x);
    NoExteriorVertexInside();
    NoSquaresMeet(0.0, 1.0);
    NoSquaresMeet(10.0, 11.0);
  }

  lemma {:induction false} BuiltFromRings(rings: Polygon)
    requires forall ring | ring in rings :: BuildRing(RingCoords(ring)) == Success(ring)
    ensures BuildEach(RingsToCoords(rings)) == Success(rings)
    decreases |rings|
  {
    hide BuildRing, RingCoords;
    if rings != [] {
      assert rings[0] in rings;
      assert RingsToCoords(rings)[1..] == RingsToCoords(rings[1..]);
      BuiltFromRings(rings[1..]);
      assert [rings[0]] + rings[1..] == rings;
    }
  }
}
