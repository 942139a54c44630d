/**
 Polygons with genuine holes are never missed: when the inner rings of each
 polygon lie apart from one another inside its exterior, the program's test
 says exactly whether two areas share a point.
 */
module Nesting {
  import opened Segments
  import opened Geometry
  import opened Regions

  // Two rings that do not meet

  /** The point is inside one ring, by the even-odd rule. */
  predicate Encloses(r: Ring, p: Point) {
    RayCrossings(r, p) % 2 == 1
  }

  lemma AloneInside(r: Ring, p: Point)
    ensures InRings([r], p) <==> Encloses(r, p)
  {
    assert [r][..0] == [];
    assert TotalCrossings([r][..0], p) == 0;
  }

  lemma AloneMeets(r: Ring, s: Ring)
    ensures AnyRingsMeet([r], [s]) <==> RingsMeet(r, s)
  {
    hide RingsMeet;
    if RingsMeet(r, s) {
      assert r in [r] && s in [s];
    }
  }

  /** Some vertex of r lies inside s. */
  ghost predicate ReachesInto(r: Ring, s: Ring) {
    exists v | v in r :: Encloses(s, v)
  }

  /** A vertex of a ring and its neighbour are both inside a ring it does not meet, or both outside. */
  lemma NeighboursAgree(r: Ring, s: Ring, i: nat)
    requires ClosedRing(s) && !RingsMeet(r, s) && i + 1 < |r|
    ensures Encloses(s, r[i]) == Encloses(s, r[i + 1])
  {
    hide SegmentsIntersect, SharePoint, RayCrossings;
    var p, q := r[i], r[i + 1];
    forall j | 0 <= j < |s| - 1
      ensures EdgeAvoids(s, j, p, q)
    {
      assert !EdgesMeet(r, i, s, j);
      IntersectIffShare(p, q, s[j], s[j + 1]);
    }
    RingParity(s, p, q);
  }

  lemma {:induction false} VerticesAgree(r: Ring, s: Ring, i: nat)
    requires ClosedRing(s) && !RingsMeet(r, s) && i < |r|
    ensures Encloses(s, r[i]) == Encloses(s, r[0])
  {
    hide Encloses, RingsMeet, ClosedRing;
    if i > 0 {
      VerticesAgree(r, s, i - 1);
      NeighboursAgree(r, s, i - 1);
    }
  }

  /** One vertex inside means all are. */
  lemma AllInside(r: Ring, s: Ring)
    requires ClosedRing(s) && !RingsMeet(r, s) && ReachesInto(r, s)
    ensures forall v | v in r :: Encloses(s, v)
  {
    hide Encloses, RingsMeet, ClosedRing;
    var k :| 0 <= k < |r| && Encloses(s, r[k]);
    VerticesAgree(r, s, k);
    forall v | v in r
      ensures Encloses(s, v)
    {
      var i :| 0 <= i < |r| && r[i] == v;
      VerticesAgree(r, s, i);
    }
  }

  lemma {:induction false} Highest(r: Ring) returns (v: Point)
    requires r != []
    ensures v in r && forall w | w in r :: w.lat <= v.lat
    decreases |r|
  {
    v := r[0];
    if |r| > 1 {
      var u := Highest(r[1..]);
      assert forall w | w in r :: w == r[0] || w in r[1..];
      v := if u.lat > v.lat then u else v;
    }
  }

  /** Two rings that do not meet cannot each have a vertex inside the other: whose would be the highest vertex? */
  lemma NotBothInside(r: Ring, s: Ring)
    requires ClosedRing(r) && ClosedRing(s) && !RingsMeet(r, s)
    ensures !(ReachesInto(r, s) && ReachesInto(s, r))
  {
    if ReachesInto(r, s) && ReachesInto(s, r) {
      HigherVertex(r, s);
      if RingsMeet(s, r) {
        RingsMeetSymmetric(s, r);
      }
      HigherVertex(s, r);
      NoHigherBothWays(r, s);
    }
  }

  ghost predicate Overtops(s: Ring, r: Ring) {
    exists w | w in s :: forall v | v in r :: v.lat < w.lat
  }

  lemma HigherVertex(r: Ring, s: Ring)
    requires ClosedRing(r) && ClosedRing(s) && !RingsMeet(r, s) && ReachesInto(r, s)
    ensures Overtops(s, r)
  {
    hide RingsMeet, RayCrossings;
    AllInside(r, s);
    var v := Highest(r);
    SomeCrossing(s, v);
  }

  lemma NoHigherBothWays(r: Ring, s: Ring)
    ensures !(Overtops(s, r) && Overtops(r, s))
  {
  }

  /** A ring that reaches into another it does not meet lies inside it with all it encloses. */
  lemma EnclosedToo(r: Ring, s: Ring, x: Point)
    requires ClosedRing(r) && ClosedRing(s) && !RingsMeet(r, s) && ReachesInto(r, s) && Encloses(r, x)
    ensures Encloses(s, x)
  {
    hide RingsMeet, RayCrossings, Touches, TotalCrossings, AnyRingsMeet;
    if !Encloses(s, x) {
      AloneInside(r, x);
      AloneInside(s, x);
      AloneMeets(r, s);
      InsideTouches([r], x);
      var m := LeastReal(Touches([r], x) + Touches([s], x));
      if m in Touches([r], x) {
        var ring, v := NearestEnd([r], [s], x, m);
        AloneInside(s, v);
        AllInside(r, s);
      } else {
        AnyRingsSymmetric([s], [r]);
        var ring, v := NearestEnd([s], [r], x, m);
        AloneInside(r, v);
        assert ReachesInto(s, r);
        NotBothInside(r, s);
      }
    }
  }

  /** A point inside two rings that do not meet puts a vertex of one inside the other. */
  lemma CommonToTwo(r: Ring, s: Ring, x: Point)
    requires ClosedRing(r) && ClosedRing(s) && !RingsMeet(r, s) && Encloses(r, x) && Encloses(s, x)
    ensures ReachesInto(r, s) || ReachesInto(s, r)
  {
    hide RingsMeet, RayCrossings, TotalCrossings, AnyRingsMeet, Encloses;
    AloneInside(r, x);
    AloneInside(s, x);
    AloneMeets(r, s);
    CommonInside([r], [s], x);
    if SomeVertexInside([r], [s]) {
      var v :| v in r && InRings([s], v);
      AloneInside(s, v);
    } else {
      var v :| v in s && InRings([r], v);
      AloneInside(r, v);
    }
  }

  // Holes

  /**
   No two rings meet, every inner ring lies inside the exterior, and none lies
   inside another inner ring; a polygon without inner rings is well nested.
   */
  ghost predicate WellNested(poly: Polygon) {
    && (forall j, k | 0 <= j < |poly| && 0 <= k < |poly| && j != k :: !RingsMeet(poly[j], poly[k]))
    && (forall k, v | 1 <= k < |poly| && v in poly[k] :: Encloses(poly[0], v))
    && (forall j, k | 1 <= j < |poly| && 1 <= k < |poly| && j != k :: !ReachesInto(poly[k], poly[j]))
  }

  /** The point is inside one of the inner rings among the first n rings. */
  ghost predicate InHole(poly: Polygon, n: nat, p: Point)
    requires n <= |poly|
  {
    exists k | 1 <= k < n :: Encloses(poly[k], p)
  }

  lemma HolesApart(poly: Polygon, j: nat, k: nat, p: Point)
    requires ValidPolygon(poly) && WellNested(poly) && 1 <= j < |poly| && 1 <= k < |poly| && j != k
    requires Encloses(poly[j], p)
    ensures !Encloses(poly[k], p)
  {
    hide RingsMeet, Encloses, ReachesInto, ClosedRing;
    assert poly[j] in poly && poly[k] in poly;
    if Encloses(poly[k], p) {
      CommonToTwo(poly[j], poly[k], p);
    }
  }

  lemma HoleInExterior(poly: Polygon, k: nat, p: Point)
    requires ValidPolygon(poly) && WellNested(poly) && 1 <= k < |poly| && Encloses(poly[k], p)
    ensures Encloses(poly[0], p)
  {
    hide RingsMeet, Encloses;
    assert poly[k] in poly && poly[0] in poly;
    assert poly[k][0] in poly[k];
    assert ReachesInto(poly[k], poly[0]);
    EnclosedToo(poly[k], poly[0], p);
  }

  lemma {:induction false} PrefixParity(poly: Polygon, n: nat, p: Point)
    requires ValidPolygon(poly) && WellNested(poly) && 1 <= n <= |poly|
    ensures TotalCrossings(poly[..n], p) % 2 == if Encloses(poly[0], p) && !InHole(poly, n, p) then 1 else 0
    decreases n
  {
    hide RingsMeet, RayCrossings, ReachesInto, WellNested, ValidPolygon;
    if n == 1 {
      assert poly[..1] == [poly[0]];
      AloneInside(poly[0], p);
    } else {
      PrefixParity(poly, n - 1, p);
      assert poly[..n][..n - 1] == poly[..n - 1];
      if Encloses(poly[n - 1], p) {
        HoleInExterior(poly, n - 1, p);
        forall k | 1 <= k < n - 1
          ensures !Encloses(poly[k], p)
        {
          HolesApart(poly, n - 1, k, p);
        }
      }
    }
  }

  /** In a well-nested polygon a point is inside exactly when it is inside the exterior and in no hole. */
  lemma InsideIsOutsideHoles(poly: Polygon, p: Point)
    requires ValidPolygon(poly) && WellNested(poly)
    ensures InRings(poly, p) <==> Encloses(poly[0], p) && !InHole(poly, |poly|, p)
  {
    hide WellNested, Encloses, InHole, TotalCrossings;
    PrefixParity(poly, |poly|, p);
    assert poly[..|poly|] == poly;
  }

  lemma ApartRings(polyA: Polygon, polyB: Polygon, j: nat, k: nat)
    requires !AnyRingsMeet(polyA, polyB) && j < |polyA| && k < |polyB|
    ensures !RingsMeet(polyA[j], polyB[k])
  {
    hide RingsMeet;
    assert polyA[j] in polyA && polyB[k] in polyB;
  }

  /** A hole vertex of A inside B: an exterior vertex of one is inside the other as well. */
  lemma HoleVertexShowsExterior(polyA: Polygon, polyB: Polygon, k: nat, h: Point)
    requires ValidPolygon(polyA) && ValidPolygon(polyB) && WellNested(polyA) && WellNested(polyB)
    requires !AnyRingsMeet(polyA, polyB) && 1 <= k < |polyA| && h in polyA[k] && InRings(polyB, h)
    ensures VertexInside(polyA[0], polyB) || VertexInside(polyB[0], polyA)
  {
    hide InRings, RingsMeet, AnyRingsMeet, Encloses, ClosedRing;
    var a, b := polyA[0], polyB[0];
    assert a in polyA && b in polyB;
    InsideIsOutsideHoles(polyB, h);
    ApartRings(polyA, polyB, 0, 0);
    CommonToTwo(a, b, h);
    if ReachesInto(a, b) {
      var v :| v in a && Encloses(b, v);
      InsideIsOutsideHoles(polyB, v);
      if !InRings(polyB, v) {
        var m :| 1 <= m < |polyB| && Encloses(polyB[m], v);
        ApartRings(polyA, polyB, 0, m);
        assert polyB[m] in polyB;
        EnclosedToo(a, polyB[m], h);
      }
    } else {
      var w :| w in b && Encloses(a, w);
      InsideIsOutsideHoles(polyA, w);
      if !InRings(polyA, w) {
        var l :| 1 <= l < |polyA| && Encloses(polyA[l], w);
        ExteriorNotInHole(polyA, polyB, k, l, h, w);
      }
    }
  }

  lemma ExteriorNotInHole(polyA: Polygon, polyB: Polygon, k: nat, l: nat, h: Point, w: Point)
    requires ValidPolygon(polyA) && ValidPolygon(polyB) && WellNested(polyA) && !AnyRingsMeet(polyA, polyB)
    requires 1 <= k < |polyA| && 1 <= l < |polyA| && h in polyA[k] && Encloses(polyB[0], h) && w in polyB[0]
    ensures !Encloses(polyA[l], w)
  {
    hide RingsMeet, AnyRingsMeet, Encloses, ClosedRing;
    var b := polyB[0];
    assert b in polyB && polyA[l] in polyA && polyA[k] in polyA;
    ApartRings(polyA, polyB, l, 0);
    if Encloses(polyA[l], w) {
      assert ReachesInto(b, polyA[l]);
      if l == k {
        assert ReachesInto(polyA[k], b);
        NotBothInside(polyA[k], b);
      } else {
        if RingsMeet(b, polyA[l]) {
          RingsMeetSymmetric(b, polyA[l]);
        }
        EnclosedToo(b, polyA[l], h);
      }
    }
  }

  lemma HoleReaches(polyA: Polygon, polyB: Polygon)
    requires ValidPolygon(polyA) && ValidPolygon(polyB) && WellNested(polyA) && WellNested(polyB)
    requires !AnyRingsMeet(polyA, polyB) && SomeVertexInside(polyA[1..], polyB)
    ensures VertexInside(polyA[0], polyB) || VertexInside(polyB[0], polyA)
  {
    hide InRings, AnyRingsMeet, WellNested, ValidPolygon;
    var r :| r in polyA[1..] && VertexInside(r, polyB);
    var k :| 1 <= k < |polyA| && polyA[k] == r;
    var h :| h in r && InRings(polyB, h);
    HoleVertexShowsExterior(polyA, polyB, k, h);
  }

  /** For well-nested polygons the program's test says exactly whether they share a point. */
  lemma WellNestedIsExact(polyA: Polygon, polyB: Polygon)
    requires ValidPolygon(polyA) && ValidPolygon(polyB) && WellNested(polyA) && WellNested(polyB)
    ensures PolygonsMeet(polyA, polyB) <==> RegionsShare(polyA, polyB)
  {
    hide AnyRingsMeet, VertexInside, RegionsShare, WellNested, ValidPolygon, SomeVertexInside;
    TestIsExact(polyA, polyB);
    if OnlyInnerRingsReach(polyA, polyB) {
      if SomeVertexInside(polyA[1..], polyB) {
        HoleReaches(polyA, polyB);
      } else {
        AnyRingsSymmetric(polyB, polyA);
        HoleReaches(polyB, polyA);
      }
    }
  }

  /** For areas whose polygons are well nested the whole test, fast reject included, is exact. */
  lemma IntersectsIffShare(a: Geometry, b: Geometry)
    requires ValidGeometry(a) && ValidGeometry(b)
    requires forall poly | poly in a + b :: WellNested(poly)
    ensures IntersectsTest(a, b) <==> AreasShare(a, b)
  {
    hide PolygonsMeet, RegionsShare, ValidPolygon, IntersectsTest, WellNested;
    RejectIsExact(a, b);
    forall polyA, polyB | polyA in a && polyB in b
      ensures PolygonsMeet(polyA, polyB) <==> RegionsShare(polyA, polyB)
    {
      assert polyA in a + b && polyB in a + b;
      WellNestedIsExact(polyA, polyB);
    }
  }
}
