/**
 Segment intersection by orientations, over the reals: the test answers true
 exactly when the two closed segments have a point in common.
 */
module Segments {

  datatype Point = Point(lon: real, lat: real)

  function Cross(a: Point, b: Point, c: Point): real {
    (b.lon - a.lon) * (c.lat - a.lat) - (b.lat - a.lat) * (c.lon - a.lon)
  }

  function Orientation(a: Point, b: Point, c: Point): int {
    var val := Cross(a, b, c);
    if val > 0.0 then 1 else if val < 0.0 then 2 else 0
  }

  function Min(x: real, y: real): real {
    if x <= y then x else y
  }

  function Max(x: real, y: real): real {
    if x >= y then x else y
  }

  /** b lies in the box spanned by a and c. */
  predicate OnSegment(a: Point, b: Point, c: Point) {
    && b.lon <= Max(a.lon, c.lon) && b.lon >= Min(a.lon, c.lon)
    && b.lat <= Max(a.lat, c.lat) && b.lat >= Min(a.lat, c.lat)
  }

  predicate SegmentsIntersect(p1: Point, q1: Point, p2: Point, q2: Point) {
    var o1, o2 := Orientation(p1, q1, p2), Orientation(p1, q1, q2);
    var o3, o4 := Orientation(p2, q2, p1), Orientation(p2, q2, q1);
    if o1 != o2 && o3 != o4 then true
    else if o1 == 0 && OnSegment(p1, p2, q1) then true
    else if o2 == 0 && OnSegment(p1, q2, q1) then true
    else if o3 == 0 && OnSegment(p2, p1, q2) then true
    else if o4 == 0 && OnSegment(p2, q1, q2) then true
    else false
  }

  // The reference: closed segments as sets of points

  function At(p: Point, q: Point, t: real): Point {
    Point(p.lon + t * (q.lon - p.lon), p.lat + t * (q.lat - p.lat))
  }

  ghost predicate On(x: Point, p: Point, q: Point) {
    exists t: real :: 0.0 <= t <= 1.0 && x == At(p, q, t)
  }

  ghost predicate SharePoint(p1: Point, q1: Point, p2: Point, q2: Point) {
    exists x: Point :: On(x, p1, q1) && On(x, p2, q2)
  }

  // Forward: an answer of true exhibits a common point

  lemma CrossingIdentity(rx: real, ry: real, sx: real, sy: real, wx: real, wy: real)
    ensures (rx * sy - ry * sx) * wx + (sx * wy - sy * wx) * rx - (rx * wy - ry * wx) * sx == 0.0
    ensures (rx * sy - ry * sx) * wy + (sx * wy - sy * wx) * ry - (rx * wy - ry * wx) * sy == 0.0
  {
  }

  lemma Cancel(d: real, x: real)
    requires d != 0.0 && d * x == 0.0
    ensures x == 0.0
  {
  }

  /** The zero of a linear function whose end values differ in sign lies between the ends. */
  lemma ZeroBetween(a: real, b: real)
    requires (a > 0.0 && b <= 0.0) || (a < 0.0 && b >= 0.0) || (a == 0.0 && b != 0.0)
    ensures a - b != 0.0 && 0.0 <= a / (a - b) <= 1.0
    ensures (a / (a - b)) * (a - b) == a
  {
  }

  /** With D the cross product of the directions, the two zeros are the same point. */
  lemma SameCoordinate(p1: real, r: real, p2: real, s: real, d: real, t: real, u: real, d3: real, d1: real)
    requires d != 0.0 && t * d == d3 && u * d == -d1
    requires d * (p1 - p2) + d3 * r + d1 * s == 0.0
    ensures p1 + t * r == p2 + u * s
  {
    var x := p1 + t * r - (p2 + u * s);
    assert d * x == d * (p1 - p2) + (t * d) * r - (u * d) * s;
    Cancel(d, x);
  }

  lemma ProperCrossing(p1: Point, q1: Point, p2: Point, q2: Point)
    requires Orientation(p1, q1, p2) != Orientation(p1, q1, q2)
    requires Orientation(p2, q2, p1) != Orientation(p2, q2, q1)
    ensures SharePoint(p1, q1, p2, q2)
  {
    hide Cross;
    var d1, d2 := Cross(p1, q1, p2), Cross(p1, q1, q2);
    var d3, d4 := Cross(p2, q2, p1), Cross(p2, q2, q1);
    ZeroBetween(d3, d4);
    ZeroBetween(d1, d2);
    CrossingPoint(p1, q1, p2, q2, d3 / (d3 - d4), d1 / (d1 - d2));
    var x := At(p1, q1, d3 / (d3 - d4));
    assert On(x, p1, q1) && On(x, p2, q2);
  }

  lemma CrossingPoint(p1: Point, q1: Point, p2: Point, q2: Point, t: real, u: real)
    requires var d := Cross(p2, q2, p1) - Cross(p2, q2, q1); d != 0.0 && t * d == Cross(p2, q2, p1)
    requires u * (Cross(p1, q1, p2) - Cross(p1, q1, q2)) == Cross(p1, q1, p2)
    ensures At(p1, q1, t) == At(p2, q2, u)
  {
    var rx, ry := q1.lon - p1.lon, q1.lat - p1.lat;
    var sx, sy := q2.lon - p2.lon, q2.lat - p2.lat;
    var wx, wy := p1.lon - p2.lon, p1.lat - p2.lat;
    var d := rx * sy - ry * sx;
    assert Cross(p1, q1, p2) == -(rx * wy - ry * wx);
    DirectionProduct(p1, q1, p2, q2);
    assert u * d == -(u * (-d));
    CrossingIdentity(rx, ry, sx, sy, wx, wy);
    SameCoordinate(p1.lon, rx, p2.lon, sx, d, t, u, Cross(p2, q2, p1), Cross(p1, q1, p2));
    SameCoordinate(p1.lat, ry, p2.lat, sy, d, t, u, Cross(p2, q2, p1), Cross(p1, q1, p2));
  }

  lemma DirectionProduct(p1: Point, q1: Point, p2: Point, q2: Point)
    ensures var d := (q1.lon - p1.lon) * (q2.lat - p2.lat) - (q1.lat - p1.lat) * (q2.lon - p2.lon);
      && Cross(p2, q2, p1) - Cross(p2, q2, q1) == d
      && Cross(p1, q1, p2) - Cross(p1, q1, q2) == -d
  {
  }

  lemma ZeroOn(w: real, r: real)
    requires r != 0.0
    requires (0.0 <= w <= r) || (r <= w <= 0.0)
    ensures 0.0 <= w / r <= 1.0 && (w / r) * r == w
  {
  }

  lemma OtherCoordinate(rx: real, ry: real, wx: real, wy: real, t: real)
    requires rx != 0.0 && rx * wy == ry * wx && t * rx == wx
    ensures wy == t * ry
  {
    assert rx * (wy - t * ry) == rx * wy - (t * rx) * ry;
    Cancel(rx, wy - t * ry);
  }

  lemma BoxCoordinate(p: real, x: real, q: real)
    requires x <= Max(p, q) && x >= Min(p, q) && q != p
    ensures 0.0 <= (x - p) / (q - p) <= 1.0 && ((x - p) / (q - p)) * (q - p) == x - p
  {
    ZeroOn(x - p, q - p);
  }

  /** A point collinear with a segment and inside its box lies on it. */
  lemma CollinearOn(p: Point, x: Point, q: Point)
    requires Cross(p, q, x) == 0.0 && OnSegment(p, x, q)
    ensures On(x, p, q)
  {
    if q.lon != p.lon {
      BoxCoordinate(p.lon, x.lon, q.lon);
      OtherCoordinate(q.lon - p.lon, q.lat - p.lat, x.lon - p.lon, x.lat - p.lat, (x.lon - p.lon) / (q.lon - p.lon));
      assert x == At(p, q, (x.lon - p.lon) / (q.lon - p.lon));
    } else if q.lat != p.lat {
      BoxCoordinate(p.lat, x.lat, q.lat);
      assert x == At(p, q, (x.lat - p.lat) / (q.lat - p.lat));
    } else {
      assert x == At(p, q, 0.0);
    }
  }

  lemma OwnEnds(p: Point, q: Point)
    ensures On(p, p, q) && On(q, p, q)
  {
    assert p == At(p, q, 0.0);
    assert q == At(p, q, 1.0);
  }

  lemma IntersectSound(p1: Point, q1: Point, p2: Point, q2: Point)
    requires SegmentsIntersect(p1, q1, p2, q2)
    ensures SharePoint(p1, q1, p2, q2)
  {
    hide Cross, On, OnSegment;
    OwnEnds(p1, q1);
    OwnEnds(p2, q2);
    if Orientation(p1, q1, p2) != Orientation(p1, q1, q2) && Orientation(p2, q2, p1) != Orientation(p2, q2, q1) {
      ProperCrossing(p1, q1, p2, q2);
    } else if Orientation(p1, q1, p2) == 0 && OnSegment(p1, p2, q1) {
      CollinearOn(p1, p2, q1);
    } else if Orientation(p1, q1, q2) == 0 && OnSegment(p1, q2, q1) {
      CollinearOn(p1, q2, q1);
    } else if Orientation(p2, q2, p1) == 0 && OnSegment(p2, p1, q2) {
      CollinearOn(p2, p1, q2);
    } else {
      CollinearOn(p2, q1, q2);
    }
  }

  // Backward: a common point makes the test answer true

  /** The cross product is linear along a segment. */
  lemma CrossAlong(a: Point, b: Point, p: Point, q: Point, u: real)
    ensures Cross(a, b, At(p, q, u)) == (1.0 - u) * Cross(a, b, p) + u * Cross(a, b, q)
  {
    CrossAlongReal(b.lon - a.lon, b.lat - a.lat, p.lon - a.lon, p.lat - a.lat, q.lon - a.lon, q.lat - a.lat, u);
    assert p.lon + u * (q.lon - p.lon) - a.lon == (p.lon - a.lon) + u * ((q.lon - a.lon) - (p.lon - a.lon));
    assert p.lat + u * (q.lat - p.lat) - a.lat == (p.lat - a.lat) + u * ((q.lat - a.lat) - (p.lat - a.lat));
  }

  lemma CrossAlongReal(rx: real, ry: real, px: real, py: real, qx: real, qy: real, u: real)
    ensures rx * (py + u * (qy - py)) - ry * (px + u * (qx - px))
         == (1.0 - u) * (rx * py - ry * px) + u * (rx * qy - ry * qx)
  {
    assert rx * (py + u * (qy - py)) == rx * py + u * (rx * qy) - u * (rx * py);
    assert ry * (px + u * (qx - px)) == ry * px + u * (ry * qx) - u * (ry * px);
    assert u * (rx * qy - ry * qx) == u * (rx * qy) - u * (ry * qx);
    assert u * (rx * py - ry * px) == u * (rx * py) - u * (ry * px);
  }

  lemma CrossOwnPoint(p: Point, q: Point, u: real)
    ensures Cross(p, q, At(p, q, u)) == 0.0
  {
    var rx, ry := q.lon - p.lon, q.lat - p.lat;
    assert rx * (u * ry) == ry * (u * rx);
  }

  /** Both ends strictly on one side keep the whole segment there. */
  lemma MixIsNotZero(a: real, b: real, u: real)
    requires 0.0 <= u <= 1.0 && (1.0 - u) * a + u * b == 0.0
    ensures !(a > 0.0 && b > 0.0) && !(a < 0.0 && b < 0.0)
  {
    if a > 0.0 && b > 0.0 {
      MixPositive(a, b, u);
    } else if a < 0.0 && b < 0.0 {
      MixPositive(-a, -b, u);
    }
  }

  lemma MixPositive(a: real, b: real, u: real)
    requires 0.0 <= u <= 1.0 && a > 0.0 && b > 0.0
    ensures (1.0 - u) * a + u * b > 0.0
  {
    if a <= b {
      Product(u, b - a);
    } else {
      Product(1.0 - u, a - b);
    }
    assert (1.0 - u) * a + u * b == a + u * (b - a) == b + (1.0 - u) * (a - b);
  }

  lemma Product(t: real, r: real)
    requires 0.0 <= t <= 1.0
    ensures (r >= 0.0 ==> 0.0 <= t * r <= r) && (r <= 0.0 ==> r <= t * r <= 0.0)
  {
  }

  lemma BoxOfSegment(p: Point, q: Point, t: real)
    requires 0.0 <= t <= 1.0
    ensures OnSegment(p, At(p, q, t), q)
  {
    MixBetween(p.lon, q.lon, t);
    MixBetween(p.lat, q.lat, t);
  }

  /** Points collinear with a proper segment have a parameter on its line. */
  lemma LineParameter(p: Point, q: Point, x: Point) returns (a: real)
    requires p != q && Cross(p, q, x) == 0.0
    ensures x == At(p, q, a)
  {
    if q.lon != p.lon {
      a := (x.lon - p.lon) / (q.lon - p.lon);
      OtherCoordinate(q.lon - p.lon, q.lat - p.lat, x.lon - p.lon, x.lat - p.lat, a);
    } else {
      a := (x.lat - p.lat) / (q.lat - p.lat);
      Cancel(q.lat - p.lat, x.lon - p.lon);
    }
  }

  lemma ParameterUnique(p: Point, q: Point, s: real, t: real)
    requires p != q && At(p, q, s) == At(p, q, t)
    ensures s == t
  {
    if q.lon != p.lon {
      assert (q.lon - p.lon) * (s - t) == 0.0;
      Cancel(q.lon - p.lon, s - t);
    } else {
      assert (q.lat - p.lat) * (s - t) == 0.0;
      Cancel(q.lat - p.lat, s - t);
    }
  }

  lemma MixParameter(p: Point, q: Point, a: real, b: real, u: real)
    ensures At(At(p, q, a), At(p, q, b), u) == At(p, q, a + u * (b - a))
  {
    MixCoordinate(p.lon, q.lon - p.lon, a, b, u);
    MixCoordinate(p.lat, q.lat - p.lat, a, b, u);
  }

  lemma MixCoordinate(p: real, r: real, a: real, b: real, u: real)
    ensures (p + a * r) + u * ((p + b * r) - (p + a * r)) == p + (a + u * (b - a)) * r
  {
    assert (p + b * r) - (p + a * r) == (b - a) * r;
    assert u * ((b - a) * r) == (u * (b - a)) * r;
    assert (a + u * (b - a)) * r == a * r + (u * (b - a)) * r;
  }

  lemma MixBetween(a: real, b: real, u: real)
    requires 0.0 <= u <= 1.0
    ensures Min(a, b) <= a + u * (b - a) <= Max(a, b)
  {
    if a <= b {
      MixOrdered(a, b, u);
    } else {
      MixOrdered(b, a, 1.0 - u);
      MixFlip(a, b, u);
    }
  }

  lemma MixFlip(a: real, b: real, u: real)
    ensures a + u * (b - a) == b + (1.0 - u) * (a - b)
  {
  }

  lemma MixOrdered(a: real, b: real, u: real)
    requires 0.0 <= u <= 1.0 && a <= b
    ensures a <= a + u * (b - a) <= b
  {
    var r := b - a;
    assert 0.0 <= u * r;
    assert 0.0 <= (1.0 - u) * r;
    assert (1.0 - u) * r == r - u * r;
  }

  /** Overlapping collinear segments have an end of one inside the other. */
  lemma CollinearOverlap(p1: Point, q1: Point, p2: Point, q2: Point, t: real, u: real)
    requires p1 != q1 && Cross(p1, q1, p2) == 0.0 && Cross(p1, q1, q2) == 0.0
    requires 0.0 <= t <= 1.0 && 0.0 <= u <= 1.0 && At(p1, q1, t) == At(p2, q2, u)
    ensures SegmentsIntersect(p1, q1, p2, q2)
  {
    hide OnSegment, Cross;
    var a := LineParameter(p1, q1, p2);
    var b := LineParameter(p1, q1, q2);
    MixParameter(p1, q1, a, b, u);
    ParameterUnique(p1, q1, t, a + u * (b - a));
    MixBetween(a, b, u);
    if 0.0 <= a <= 1.0 {
      BoxOfSegment(p1, q1, a);
    } else if 0.0 <= b <= 1.0 {
      BoxOfSegment(p1, q1, b);
    } else {
      StartBetween(p1, q1, a, b);
    }
  }

  lemma StartBetween(p1: Point, q1: Point, a: real, b: real)
    requires (a < 0.0 && b > 0.0) || (b < 0.0 && a > 0.0)
    ensures OnSegment(At(p1, q1, a), p1, At(p1, q1, b))
    ensures Cross(At(p1, q1, a), At(p1, q1, b), p1) == 0.0
  {
    var p2, q2 := At(p1, q1, a), At(p1, q1, b);
    OppositeSides(q1.lon - p1.lon, a, b);
    OppositeSides(q1.lat - p1.lat, a, b);
    var rx, ry := q1.lon - p1.lon, q1.lat - p1.lat;
    assert q2.lon - p2.lon == (b - a) * rx && q2.lat - p2.lat == (b - a) * ry;
    assert p1.lon - p2.lon == -(a * rx) && p1.lat - p2.lat == -(a * ry);
    assert ((b - a) * rx) * (a * ry) == ((b - a) * ry) * (a * rx);
  }

  lemma OppositeSides(r: real, a: real, b: real)
    requires (a < 0.0 && b > 0.0) || (b < 0.0 && a > 0.0)
    ensures (a * r <= 0.0 <= b * r) || (b * r <= 0.0 <= a * r)
  {
  }

  lemma IntersectSymmetric(p1: Point, q1: Point, p2: Point, q2: Point)
    ensures SegmentsIntersect(p1, q1, p2, q2) == SegmentsIntersect(p2, q2, p1, q1)
  {
    hide OnSegment, Orientation;
  }

  /** The test when both ends of the second segment lie on the first one's line. */
  lemma IntersectFlat(p1: Point, q1: Point, p2: Point, q2: Point, t: real, u: real)
    requires Cross(p1, q1, p2) == 0.0 && Cross(p1, q1, q2) == 0.0
    requires 0.0 <= t <= 1.0 && 0.0 <= u <= 1.0 && At(p1, q1, t) == At(p2, q2, u)
    ensures SegmentsIntersect(p1, q1, p2, q2)
  {
    if p1 == q1 {
      assert At(p1, q1, t) == p1;
      CrossOwnPoint(p2, q2, u);
      BoxOfSegment(p2, q2, u);
    } else {
      CollinearOverlap(p1, q1, p2, q2, t, u);
    }
  }

  lemma IntersectComplete(p1: Point, q1: Point, p2: Point, q2: Point)
    requires SharePoint(p1, q1, p2, q2)
    ensures SegmentsIntersect(p1, q1, p2, q2)
  {
    hide OnSegment, Cross, At;
    var x :| On(x, p1, q1) && On(x, p2, q2);
    var t :| 0.0 <= t <= 1.0 && x == At(p1, q1, t);
    var u :| 0.0 <= u <= 1.0 && x == At(p2, q2, u);
    CrossAlong(p1, q1, p2, q2, u);
    CrossAlong(p2, q2, p1, q1, t);
    CrossOwnPoint(p1, q1, t);
    CrossOwnPoint(p2, q2, u);
    MixIsNotZero(Cross(p1, q1, p2), Cross(p1, q1, q2), u);
    MixIsNotZero(Cross(p2, q2, p1), Cross(p2, q2, q1), t);
    if Orientation(p1, q1, p2) == Orientation(p1, q1, q2) {
      IntersectFlat(p1, q1, p2, q2, t, u);
    } else if Orientation(p2, q2, p1) == Orientation(p2, q2, q1) {
      IntersectFlat(p2, q2, p1, q1, u, t);
      IntersectSymmetric(p1, q1, p2, q2);
    }
  }

  /**
   The orientation test is true exactly when the closed segments share a
   point, touching, collinear and degenerate segments included.
   */
  lemma IntersectIffShare(p1: Point, q1: Point, p2: Point, q2: Point)
    ensures SegmentsIntersect(p1, q1, p2, q2) <==> SharePoint(p1, q1, p2, q2)
  {
    hide SegmentsIntersect, SharePoint;
    if SegmentsIntersect(p1, q1, p2, q2) {
      IntersectSound(p1, q1, p2, q2);
    }
    if SharePoint(p1, q1, p2, q2) {
      IntersectComplete(p1, q1, p2, q2);
    }
  }
}
