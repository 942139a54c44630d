/**
 GeoJSON coverage areas: ring building, bounding boxes, even-odd containment
 and area intersection, with coordinates as reals.
 */
module Geometry {
  import opened Wrappers
  import opened Segments

  type Ring = seq<Point>
  type Polygon = seq<Ring>
  type Geometry = seq<Polygon>

  datatype Bounds = Bounds(minLat: real, minLon: real, maxLat: real, maxLon: real)

  // Building rings

  datatype GeometryError =
    | NoRings | NoPolygons | TooFewPositions | NotAPair | LongitudeRange | LatitudeRange | NotClosable

  type Position = seq<real>

  function ReadPosition(pos: Position): Result<Point, GeometryError> {
    if |pos| < 2 then Failure(NotAPair)
    else if pos[0] < -180.0 || pos[0] > 180.0 then Failure(LongitudeRange)
    else if pos[1] < -90.0 || pos[1] > 90.0 then Failure(LatitudeRange)
    else Success(Point(pos[0], pos[1]))
  }

  function ReadPositions(positions: seq<Position>): (r: Result<Ring, GeometryError>)
    ensures r.Success? ==> |r.value| == |positions|
    decreases |positions|
  {
    if positions == [] then Success([])
    else
      var p :- ReadPosition(positions[0]);
      var rest :- ReadPositions(positions[1..]);
      Success([p] + rest)
  }

  function Closed(ring: Ring): (r: Ring)
    requires ring != []
    ensures r != []
  {
    if ring[0] != ring[|ring| - 1] then ring + [ring[0]] else ring
  }

  function BuildRing(positions: seq<Position>): Result<Ring, GeometryError> {
    if |positions| < 3 then Failure(TooFewPositions)
    else
      var ring :- ReadPositions(positions);
      if |Closed(ring)| < 4 then Failure(NotClosable) else Success(Closed(ring))
  }

  function BuildEach(coords: seq<seq<Position>>): Result<Polygon, GeometryError>
    decreases |coords|
  {
    if coords == [] then Success([])
    else
      var ring :- BuildRing(coords[0]);
      var rest :- BuildEach(coords[1..]);
      Success([ring] + rest)
  }

  function BuildRings(coords: seq<seq<Position>>): Result<Polygon, GeometryError> {
    if coords == [] then Failure(NoRings) else BuildEach(coords)
  }

  method BuildRingsMethod(coords: seq<seq<Position>>) returns (r: Result<Polygon, GeometryError>)
    ensures r == BuildRings(coords)
  {
    if |coords| == 0 {
      return Failure(NoRings);
    }
    var rings: Polygon := [];
    assert coords[0..] == coords;
    PrependNothing(BuildEach(coords));
    for ri := 0 to |coords|
      invariant BuildEach(coords) == Prepend(rings, BuildEach(coords[ri..]))
    {
      var positions := coords[ri];
      assert coords[ri..][1..] == coords[ri + 1..];
      if |positions| < 3 {
        return Failure(TooFewPositions);
      }
      var ring: Ring := [];
      assert positions[0..] == positions;
      PrependNothing(ReadPositions(positions));
      for pi := 0 to |positions|
        invariant |ring| == pi
        invariant ReadPositions(positions) == Prepend(ring, ReadPositions(positions[pi..]))
      {
        var pos := positions[pi];
        assert positions[pi..][1..] == positions[pi + 1..];
        if |pos| < 2 {
          return Failure(NotAPair);
        }
        var lon, lat := pos[0], pos[1];
        if lon < -180.0 || lon > 180.0 {
          return Failure(LongitudeRange);
        }
        if lat < -90.0 || lat > 90.0 {
          return Failure(LatitudeRange);
        }
        PrependMore(ring, Point(lon, lat), ReadPositions(positions[pi + 1..]));
        ring := ring + [Point(lon, lat)];
      }
      assert positions[|positions|..] == [] && ring + [] == ring;
      if ring[0] != ring[|ring| - 1] {
        ring := ring + [ring[0]];
      }
      if |ring| < 4 {
        return Failure(NotClosable);
      }
      PrependMore(rings, ring, BuildEach(coords[ri + 1..]));
      rings := rings + [ring];
    }
    assert coords[|coords|..] == [] && rings + [] == rings;
    return Success(rings);
  }

  function Prepend<T>(done: seq<T>, rest: Result<seq<T>, GeometryError>): Result<seq<T>, GeometryError> {
    match rest
    case Success(v) => Success(done + v)
    case Failure(e) => Failure(e)
  }

  lemma PrependNothing<T>(rest: Result<seq<T>, GeometryError>)
    ensures Prepend([], rest) == rest
  {
    if rest.Success? {
      assert [] + rest.value == rest.value;
    }
  }

  lemma PrependMore<T>(done: seq<T>, next: T, rest: Result<seq<T>, GeometryError>)
    ensures rest.Success? ==> Prepend(done, Success([next] + rest.value)) == Prepend(done + [next], rest)
    ensures rest.Failure? ==> Prepend(done, rest) == Prepend(done + [next], rest)
  {
    if rest.Success? {
      assert done + ([next] + rest.value) == (done + [next]) + rest.value;
    }
  }

  predicate ClosedRing(ring: Ring) {
    |ring| >= 4 && ring[0] == ring[|ring| - 1]
  }

  predicate ValidPolygon(poly: Polygon) {
    poly != [] && forall ring | ring in poly :: ClosedRing(ring)
  }

  predicate ValidGeometry(g: Geometry) {
    g != [] && forall poly | poly in g :: ValidPolygon(poly)
  }

  function PointCoords(p: Point): Position {
    [p.lon, p.lat]
  }

  function RingCoords(ring: Ring): seq<Position> {
    seq(|ring|, i requires 0 <= i < |ring| => PointCoords(ring[i]))
  }

  function RingsToCoords(rings: Polygon): seq<seq<Position>> {
    seq(|rings|, i requires 0 <= i < |rings| => RingCoords(rings[i]))
  }

  predicate InRange(p: Point) {
    -180.0 <= p.lon <= 180.0 && -90.0 <= p.lat <= 90.0
  }

  lemma {:induction false} ReadPositionsInRange(positions: seq<Position>)
    requires ReadPositions(positions).Success?
    ensures forall p | p in ReadPositions(positions).value :: InRange(p)
    decreases |positions|
  {
    if positions == [] {
    } else {
      ReadPositionsInRange(positions[1..]);
    }
  }

  lemma {:induction false} ReadCoords(ring: Ring)
    requires forall p | p in ring :: InRange(p)
    ensures ReadPositions(RingCoords(ring)) == Success(ring)
  {
    if ring == [] {
    } else {
      assert RingCoords(ring)[1..] == RingCoords(ring[1..]);
      assert ring == [ring[0]] + ring[1..];
      assert ring[0] in ring;
      ReadCoords(ring[1..]);
    }
  }

  lemma RebuildRing(positions: seq<Position>)
    requires BuildRing(positions).Success?
    ensures ClosedRing(BuildRing(positions).value)
    ensures BuildRing(RingCoords(BuildRing(positions).value)) == BuildRing(positions)
  {
    var read := ReadPositions(positions).value;
    var ring := Closed(read);
    ReadPositionsInRange(positions);
    assert forall p | p in ring :: p in read;
    ReadCoords(ring);
    assert ring[0] == ring[|ring| - 1];
  }

  lemma {:induction false} RebuildEach(coords: seq<seq<Position>>)
    requires BuildEach(coords).Success?
    ensures |BuildEach(coords).value| == |coords|
    ensures forall ring | ring in BuildEach(coords).value :: ClosedRing(ring)
    ensures BuildEach(RingsToCoords(BuildEach(coords).value)) == BuildEach(coords)
    decreases |coords|
  {
    hide BuildRing;
    if coords == [] {
    } else {
      RebuildRing(coords[0]);
      RebuildEach(coords[1..]);
      var rings := BuildEach(coords).value;
      assert RingsToCoords(rings)[1..] == RingsToCoords(rings[1..]);
    }
  }

  /** Stored coordinates of built rings are accepted again, and give the same closed rings. */
  lemma RebuildRings(coords: seq<seq<Position>>)
    requires BuildRings(coords).Success?
    ensures ValidPolygon(BuildRings(coords).value)
    ensures BuildRings(RingsToCoords(BuildRings(coords).value)) == BuildRings(coords)
  {
    RebuildEach(coords);
  }

  /** A pair of a longitude and a latitude in degrees; what follows them is ignored. */
  predicate InDegrees(pos: Position) {
    |pos| >= 2 && -180.0 <= pos[0] <= 180.0 && -90.0 <= pos[1] <= 90.0
  }

  predicate SamePlace(a: Position, b: Position) {
    |a| >= 2 && |b| >= 2 && a[0] == b[0] && a[1] == b[1]
  }

  /** At least three positions in range, and four once the ring is closed. */
  predicate RingParseable(positions: seq<Position>) {
    && |positions| >= 3
    && (forall pos | pos in positions :: InDegrees(pos))
    && (|positions| == 3 ==> !SamePlace(positions[0], positions[2]))
  }

  predicate RingsParseable(coords: seq<seq<Position>>) {
    coords != [] && forall positions | positions in coords :: RingParseable(positions)
  }

  /** The ring has the positions in order, and its first point once more at the end if they did not. */
  predicate RingOf(ring: Ring, positions: seq<Position>) {
    && 3 <= |positions| <= |ring| <= |positions| + 1
    && (forall i | 0 <= i < |positions| ::
          |positions[i]| >= 2 && ring[i].lon == positions[i][0] && ring[i].lat == positions[i][1])
    && ring[|ring| - 1] == ring[0]
    && (|ring| > |positions| ==> ring[|positions| - 1] != ring[0])
  }

  predicate RingsOf(rings: Polygon, coords: seq<seq<Position>>) {
    |rings| == |coords| && forall i | 0 <= i < |rings| :: RingOf(rings[i], coords[i])
  }

  lemma {:induction false} PositionsRead(positions: seq<Position>)
    ensures ReadPositions(positions).Success? <==> forall pos | pos in positions :: InDegrees(pos)
    ensures ReadPositions(positions).Success? ==>
      forall i | 0 <= i < |positions| ::
        |positions[i]| >= 2 && ReadPositions(positions).value[i] == Point(positions[i][0], positions[i][1])
    decreases |positions|
  {
    if positions != [] {
      PositionsRead(positions[1..]);
      assert ReadPosition(positions[0]).Success? <==> InDegrees(positions[0]);
      assert positions == [positions[0]] + positions[1..];
    }
  }

  lemma RingBuilt(positions: seq<Position>)
    ensures BuildRing(positions).Success? <==> RingParseable(positions)
    ensures BuildRing(positions).Success? ==> RingOf(BuildRing(positions).value, positions)
  {
    hide ReadPositions, InDegrees;
    PositionsRead(positions);
  }

  lemma {:induction false} EachBuilt(coords: seq<seq<Position>>)
    ensures BuildEach(coords).Success? <==> forall positions | positions in coords :: RingParseable(positions)
    ensures BuildEach(coords).Success? ==> RingsOf(BuildEach(coords).value, coords)
    decreases |coords|
  {
    hide BuildRing, RingParseable, RingOf;
    if coords != [] {
      RingBuilt(coords[0]);
      EachBuilt(coords[1..]);
      assert coords == [coords[0]] + coords[1..];
    }
  }

  /** Exactly which coordinates make rings, and which rings: longitude first, latitude second, closed at the end. */
  lemma RingsBuilt(coords: seq<seq<Position>>)
    ensures BuildRings(coords).Success? <==> RingsParseable(coords)
    ensures BuildRings(coords).Success? ==> RingsOf(BuildRings(coords).value, coords)
  {
    hide BuildEach, RingParseable, RingsOf;
    EachBuilt(coords);
  }

  // Bounding boxes

  /** The box so far, absent before the first point. */
  function Extend(b: Option<Bounds>, p: Point): (r: Option<Bounds>)
    ensures r.Some?
  {
    match b
    case None => Some(Bounds(p.lat, p.lon, p.lat, p.lon))
    case Some(x) =>
      Some(Bounds(if p.lat < x.minLat then p.lat else x.minLat, if p.lon < x.minLon then p.lon else x.minLon,
                  if p.lat > x.maxLat then p.lat else x.maxLat, if p.lon > x.maxLon then p.lon else x.maxLon))
  }

  /** The points of a geometry in the order the loops visit them. */
  function RingPoints(poly: Polygon): seq<Point>
    decreases |poly|
  {
    if poly == [] then [] else RingPoints(poly[..|poly| - 1]) + poly[|poly| - 1]
  }

  function Points(g: Geometry): seq<Point>
    decreases |g|
  {
    if g == [] then [] else Points(g[..|g| - 1]) + RingPoints(g[|g| - 1])
  }

  function BoxOf(points: seq<Point>): Option<Bounds>
    decreases |points|
  {
    if points == [] then None else Extend(BoxOf(points[..|points| - 1]), points[|points| - 1])
  }

  const ZERO_BOUNDS := Bounds(0.0, 0.0, 0.0, 0.0)

  function BoundsOf(g: Geometry): Bounds {
    match BoxOf(Points(g))
    case None => ZERO_BOUNDS
    case Some(b) => b
  }

  method ComputeBounds(g: Geometry) returns (b: Bounds)
    ensures b == BoundsOf(g)
  {
    b := ZERO_BOUNDS;
    var first := true;
    for i := 0 to |g|
      invariant BoxOf(Points(g[..i])) == (if first then None else Some(b))
      invariant first ==> b == ZERO_BOUNDS
    {
      var poly := g[i];
      assert Points(g[..i]) + RingPoints(poly[..0]) == Points(g[..i]);
      for j := 0 to |poly|
        invariant BoxOf(Points(g[..i]) + RingPoints(poly[..j])) == (if first then None else Some(b))
        invariant first ==> b == ZERO_BOUNDS
      {
        var ring := poly[j];
        ghost var before := Points(g[..i]) + RingPoints(poly[..j]);
        assert before + ring[..0] == before;
        for k := 0 to |ring|
          invariant BoxOf(before + ring[..k]) == (if first then None else Some(b))
          invariant first ==> b == ZERO_BOUNDS
        {
          hide BoxOf, Points, RingPoints;
          var p := ring[k];
          BoxOfMore(before, ring, k);
          if first {
            b := Bounds(p.lat, p.lon, p.lat, p.lon);
            first := false;
            continue;
          }
          if p.lat < b.minLat {
            b := b.(minLat := p.lat);
          }
          if p.lat > b.maxLat {
            b := b.(maxLat := p.lat);
          }
          if p.lon < b.minLon {
            b := b.(minLon := p.lon);
          }
          if p.lon > b.maxLon {
            b := b.(maxLon := p.lon);
          }
        }
        assert poly[..j + 1][..j] == poly[..j] && ring[..|ring|] == ring;
        assert before + ring == Points(g[..i]) + RingPoints(poly[..j + 1]);
      }
      assert g[..i + 1][..i] == g[..i] && poly[..|poly|] == poly;
    }
    assert g[..|g|] == g;
  }

  lemma BoxOfMore(before: seq<Point>, ring: Ring, k: nat)
    requires k < |ring|
    ensures BoxOf(before + ring[..k + 1]) == Extend(BoxOf(before + ring[..k]), ring[k])
  {
    var more := before + ring[..k + 1];
    assert more[..|more| - 1] == before + ring[..k];
  }

  predicate Within(p: Point, b: Bounds) {
    b.minLon <= p.lon <= b.maxLon && b.minLat <= p.lat <= b.maxLat
  }

  lemma ExtendHolds(b: Option<Bounds>, p: Point, v: Point)
    requires v == p || (b.Some? && Within(v, b.value))
    ensures Within(v, Extend(b, p).value)
  {
  }

  lemma {:induction false} BoxHolds(points: seq<Point>, i: nat)
    requires i < |points|
    ensures BoxOf(points).Some? && Within(points[i], BoxOf(points).value)
    decreases |points|
  {
    hide Extend, Within;
    var init, last := points[..|points| - 1], points[|points| - 1];
    if i < |init| {
      BoxHolds(init, i);
    }
    ExtendHolds(BoxOf(init), last, points[i]);
  }

  predicate Inside(b: Bounds, c: Bounds) {
    c.minLon <= b.minLon && b.maxLon <= c.maxLon && c.minLat <= b.minLat && b.maxLat <= c.maxLat
  }

  lemma {:induction false} BoxLeast(points: seq<Point>, c: Bounds)
    requires points != [] && forall p | p in points :: Within(p, c)
    ensures Inside(BoxOf(points).value, c)
    decreases |points|
  {
    var init, last := points[..|points| - 1], points[|points| - 1];
    assert last in points && forall p | p in init :: p in points;
    if init != [] {
      BoxLeast(init, c);
    }
  }

  /** The bounds of a geometry are the least box holding all its points. */
  lemma BoundsLeast(g: Geometry, c: Bounds)
    requires Points(g) != [] && forall p | p in Points(g) :: Within(p, c)
    ensures Inside(BoundsOf(g), c)
    ensures forall p | p in Points(g) :: Within(p, BoundsOf(g))
  {
    BoxLeast(Points(g), c);
    forall p | p in Points(g)
      ensures Within(p, BoundsOf(g))
    {
      var i :| 0 <= i < |Points(g)| && Points(g)[i] == p;
      BoxHolds(Points(g), i);
    }
  }

  lemma {:induction false} RingPointsMember(poly: Polygon, j: nat, p: Point)
    requires j < |poly| && p in poly[j]
    ensures p in RingPoints(poly)
    decreases |poly|
  {
    if j < |poly| - 1 {
      RingPointsMember(poly[..|poly| - 1], j, p);
    }
  }

  lemma {:induction false} PointsMember(g: Geometry, i: nat, j: nat, p: Point)
    requires i < |g| && j < |g[i]| && p in g[i][j]
    ensures p in Points(g)
    decreases |g|
  {
    if i == |g| - 1 {
      RingPointsMember(g[i], j, p);
    } else {
      PointsMember(g[..|g| - 1], i, j, p);
    }
  }

  lemma BoundsHoldPoint(g: Geometry, i: nat, j: nat, p: Point)
    requires i < |g| && j < |g[i]| && p in g[i][j]
    ensures Within(p, BoundsOf(g))
  {
    PointsMember(g, i, j, p);
    var k :| 0 <= k < |Points(g)| && Points(g)[k] == p;
    BoxHolds(Points(g), k);
  }

  // Even-odd containment

  predicate Straddles(a: Point, b: Point, p: Point) {
    (a.lat > p.lat) != (b.lat > p.lat)
  }

  function CrossingLon(a: Point, b: Point, p: Point): real
    requires Straddles(a, b, p)
  {
    a.lon + (p.lat - a.lat) / (b.lat - a.lat) * (b.lon - a.lon)
  }

  predicate Crosses(a: Point, b: Point, p: Point) {
    Straddles(a, b, p) && CrossingLon(a, b, p) > p.lon
  }

  function RayCrossings(ring: Ring, p: Point): nat
    decreases |ring|
  {
    if |ring| < 2 then 0
    else
      var n := |ring| - 1;
      RayCrossings(ring[..n], p) + (if Crosses(ring[n - 1], ring[n], p) then 1 else 0)
  }

  method CountRayCrossings(ring: Ring, p: Point) returns (count: nat)
    ensures count == RayCrossings(ring, p)
  {
    count := 0;
    var i := 0;
    while i < |ring| - 1
      invariant 0 <= i && (i < |ring| || i == 0)
      invariant count == if |ring| == 0 then 0 else RayCrossings(ring[..i + 1], p)
    {
      var a, b := ring[i], ring[i + 1];
      assert ring[..i + 2][..i + 1] == ring[..i + 1];
      if (a.lat > p.lat) == (b.lat > p.lat) {
        i := i + 1;
        continue;
      }
      var t := (p.lat - a.lat) / (b.lat - a.lat);
      if a.lon + t * (b.lon - a.lon) > p.lon {
        count := count + 1;
      }
      i := i + 1;
    }
    assert |ring| > 0 ==> ring[..|ring|] == ring;
  }

  function TotalCrossings(rings: Polygon, p: Point): nat
    decreases |rings|
  {
    if rings == [] then 0
    else TotalCrossings(rings[..|rings| - 1], p) + RayCrossings(rings[|rings| - 1], p)
  }

  predicate InRings(rings: Polygon, p: Point) {
    TotalCrossings(rings, p) % 2 == 1
  }

  method PointInPolygonRings(rings: Polygon, p: Point) returns (r: bool)
    ensures r == InRings(rings, p)
  {
    var crossings := 0;
    for i := 0 to |rings|
      invariant crossings == TotalCrossings(rings[..i], p)
    {
      var c := CountRayCrossings(rings[i], p);
      crossings := crossings + c;
      assert rings[..i + 1][..i] == rings[..i];
    }
    assert rings[..|rings|] == rings;
    return crossings % 2 == 1;
  }

  method ContainsPoint(g: Geometry, lon: real, lat: real) returns (r: bool)
    ensures r == exists poly | poly in g :: InRings(poly, Point(lon, lat))
  {
    for i := 0 to |g|
      invariant forall k | 0 <= k < i :: !InRings(g[k], Point(lon, lat))
    {
      var inside := PointInPolygonRings(g[i], Point(lon, lat));
      if inside {
        return true;
      }
    }
    return false;
  }

  function StraddleCount(ring: Ring, p: Point): nat
    decreases |ring|
  {
    if |ring| < 2 then 0
    else
      var n := |ring| - 1;
      StraddleCount(ring[..n], p) + (if Straddles(ring[n - 1], ring[n], p) then 1 else 0)
  }

  /** Walking a ring, the side of the latitude changes as often as it must. */
  lemma {:induction false} StraddleParity(ring: Ring, p: Point)
    requires ring != []
    ensures StraddleCount(ring, p) % 2 == if (ring[0].lat > p.lat) != (ring[|ring| - 1].lat > p.lat) then 1 else 0
    decreases |ring|
  {
    if |ring| >= 2 {
      StraddleParity(ring[..|ring| - 1], p);
    }
  }

  lemma {:induction false} AllCross(ring: Ring, p: Point)
    requires forall v | v in ring :: p.lon < v.lon
    ensures RayCrossings(ring, p) == StraddleCount(ring, p)
    decreases |ring|
  {
    if |ring| >= 2 {
      var n := |ring| - 1;
      AllCross(ring[..n], p);
      if Straddles(ring[n - 1], ring[n], p) {
        CrossingBetween(ring[n - 1], ring[n], p);
      }
    }
  }

  /** The crossing lies between the longitudes of the edge's ends. */
  lemma CrossingBetween(a: Point, b: Point, p: Point)
    requires Straddles(a, b, p)
    ensures Min(a.lon, b.lon) <= CrossingLon(a, b, p) <= Max(a.lon, b.lon)
  {
    var d, x := b.lat - a.lat, p.lat - a.lat;
    FractionIn01(x, d);
    MixBetween(a.lon, b.lon, x / d);
  }

  lemma FractionIn01(x: real, d: real)
    requires (d > 0.0 && 0.0 <= x <= d) || (d < 0.0 && d <= x <= 0.0)
    ensures 0.0 <= x / d <= 1.0
  {
  }

  lemma {:induction false} SomeCrossing(ring: Ring, p: Point)
    requires RayCrossings(ring, p) > 0
    ensures exists v | v in ring :: v.lat > p.lat
    ensures exists v | v in ring :: v.lat <= p.lat
    ensures exists v | v in ring :: v.lon > p.lon
    decreases |ring|
  {
    var n := |ring| - 1;
    assert ring[n] in ring && ring[n - 1] in ring;
    if Crosses(ring[n - 1], ring[n], p) {
      CrossingBetween(ring[n - 1], ring[n], p);
    } else {
      SomeCrossing(ring[..n], p);
    }
  }

  /**
   A point counted inside a closed ring lies in every box that holds the
   ring: were it left of the ring, all straddling edges would count, and a
   closed ring has an even number of them.
   */
  lemma OddIsEnclosed(ring: Ring, p: Point, b: Bounds)
    requires ClosedRing(ring) && RayCrossings(ring, p) % 2 == 1
    requires forall v | v in ring :: Within(v, b)
    ensures Within(p, b)
  {
    SomeCrossing(ring, p);
    StraddleParity(ring, p);
    if p.lon < b.minLon {
      AllCross(ring, p);
    }
  }

  lemma {:induction false} OddRing(rings: Polygon, p: Point) returns (j: nat)
    requires TotalCrossings(rings, p) % 2 == 1
    ensures j < |rings| && RayCrossings(rings[j], p) % 2 == 1
    decreases |rings|
  {
    var n := |rings| - 1;
    if RayCrossings(rings[n], p) % 2 == 1 {
      j := n;
    } else {
      j := OddRing(rings[..n], p);
    }
  }

  /** Containment implies the bounding box. */
  lemma InsideIsWithinBounds(g: Geometry, i: nat, p: Point)
    requires ValidGeometry(g) && i < |g| && InRings(g[i], p)
    ensures Within(p, BoundsOf(g))
  {
    hide RayCrossings, BoundsOf, ClosedRing, Within;
    var j := OddRing(g[i], p);
    assert g[i] in g && g[i][j] in g[i];
    forall v | v in g[i][j]
      ensures Within(v, BoundsOf(g))
    {
      BoundsHoldPoint(g, i, j, v);
    }
    OddIsEnclosed(g[i][j], p, BoundsOf(g));
  }

  // Area intersection

  predicate BoundsOverlap(a: Bounds, b: Bounds) {
    && a.minLon <= b.maxLon && a.maxLon >= b.minLon
    && a.minLat <= b.maxLat && a.maxLat >= b.minLat
  }

  predicate EdgesMeet(r: Ring, i: int, s: Ring, j: int)
    requires 0 <= i < |r| - 1 && 0 <= j < |s| - 1
  {
    SegmentsIntersect(r[i], r[i + 1], s[j], s[j + 1])
  }

  ghost predicate RingsMeet(r: Ring, s: Ring) {
    exists i, j | 0 <= i < |r| - 1 && 0 <= j < |s| - 1 :: EdgesMeet(r, i, s, j)
  }

  ghost predicate AnyRingsMeet(polyA: Polygon, polyB: Polygon) {
    exists r, s | r in polyA && s in polyB :: RingsMeet(r, s)
  }

  ghost predicate VertexInside(ring: Ring, poly: Polygon) {
    exists p | p in ring :: InRings(poly, p)
  }

  /** A vertex of one exterior inside the other polygon, or two edges that meet. */
  ghost predicate PolygonsMeet(polyA: Polygon, polyB: Polygon) {
    && polyA != [] && polyB != []
    && (VertexInside(polyA[0], polyB) || VertexInside(polyB[0], polyA) || AnyRingsMeet(polyA, polyB))
  }

  method AnyVertexInside(ring: Ring, poly: Polygon) returns (r: bool)
    ensures r == VertexInside(ring, poly)
  {
    for k := 0 to |ring|
      invariant forall m | 0 <= m < k :: !InRings(poly, ring[m])
    {
      var inside := PointInPolygonRings(poly, ring[k]);
      if inside {
        return true;
      }
    }
    return false;
  }

  method PolygonsIntersect(polyA: Polygon, polyB: Polygon) returns (r: bool)
    ensures r == PolygonsMeet(polyA, polyB)
  {
    hide InRings, SegmentsIntersect;
    if |polyA| == 0 || |polyB| == 0 {
      return false;
    }
    var inside := AnyVertexInside(polyA[0], polyB);
    if inside {
      return true;
    }
    inside := AnyVertexInside(polyB[0], polyA);
    if inside {
      return true;
    }
    for a := 0 to |polyA|
      invariant forall m | 0 <= m < a :: forall s | s in polyB :: !RingsMeet(polyA[m], s)
    {
      var ringA := polyA[a];
      var i := 0;
      while i < |ringA| - 1
        invariant 0 <= i
        invariant forall s | s in polyB :: NoEdgeMeets(ringA, i, s)
      {
        for b := 0 to |polyB|
          invariant forall m | 0 <= m < b :: NoEdgeMeets(ringA, i + 1, polyB[m])
        {
          var ringB := polyB[b];
          assert NoEdgeMeets(ringA, i, ringB);
          var j := 0;
          while j < |ringB| - 1
            invariant 0 <= j
            invariant forall k | 0 <= k < j && k < |ringB| - 1 :: !EdgesMeet(ringA, i, ringB, k)
          {
            if SegmentsIntersect(ringA[i], ringA[i + 1], ringB[j], ringB[j + 1]) {
              assert EdgesMeet(ringA, i, ringB, j);
              assert RingsMeet(ringA, ringB);
              return true;
            }
            j := j + 1;
          }
        }
        i := i + 1;
      }
      assert forall s | s in polyB :: !RingsMeet(ringA, s);
    }
    return false;
  }

  ghost predicate NoEdgeMeets(r: Ring, n: int, s: Ring) {
    forall i, j | 0 <= i < n && i < |r| - 1 && 0 <= j < |s| - 1 :: !EdgesMeet(r, i, s, j)
  }

  ghost predicate AnyPolygonsMeet(a: Geometry, b: Geometry) {
    exists polyA, polyB | polyA in a && polyB in b :: PolygonsMeet(polyA, polyB)
  }

  /** The source's test: boxes first, polygons after. */
  ghost predicate IntersectsTest(a: Geometry, b: Geometry) {
    BoundsOverlap(BoundsOf(a), BoundsOf(b)) && AnyPolygonsMeet(a, b)
  }

  method Intersects(a: Geometry, b: Geometry) returns (r: bool)
    ensures r == IntersectsTest(a, b)
    ensures ValidGeometry(a) && ValidGeometry(b) ==> r == AnyPolygonsMeet(a, b)
  {
    hide PolygonsMeet, BoundsOf, ValidPolygon;
    if ValidGeometry(a) && ValidGeometry(b) {
      RejectIsExact(a, b);
    }
    var ba := ComputeBounds(a);
    var bb := ComputeBounds(b);
    if !BoundsOverlap(ba, bb) {
      return false;
    }
    for i := 0 to |a|
      invariant forall m | 0 <= m < i :: forall polyB | polyB in b :: !PolygonsMeet(a[m], polyB)
    {
      for j := 0 to |b|
        invariant forall m | 0 <= m < j :: !PolygonsMeet(a[i], b[m])
      {
        var meet := PolygonsIntersect(a[i], b[j]);
        if meet {
          assert a[i] in a && b[j] in b;
          return true;
        }
      }
    }
    return false;
  }

  lemma CommonPointOverlap(p: Point, a: Bounds, b: Bounds)
    requires Within(p, a) && Within(p, b)
    ensures BoundsOverlap(a, b)
  {
  }

  lemma OnEdgeWithin(x: Point, p: Point, q: Point, b: Bounds)
    requires On(x, p, q) && Within(p, b) && Within(q, b)
    ensures Within(x, b)
  {
    var t :| 0.0 <= t <= 1.0 && x == At(p, q, t);
    BoxOfSegment(p, q, t);
    hide At;
  }

  lemma VertexInsideOverlap(a: Geometry, i: nat, b: Geometry, j: nat)
    requires ValidGeometry(a) && ValidGeometry(b) && i < |a| && j < |b|
    requires a[i] != [] && VertexInside(a[i][0], b[j])
    ensures BoundsOverlap(BoundsOf(a), BoundsOf(b))
  {
    hide BoundsOf, InRings;
    var p :| p in a[i][0] && InRings(b[j], p);
    BoundsHoldPoint(a, i, 0, p);
    InsideIsWithinBounds(b, j, p);
    CommonPointOverlap(p, BoundsOf(a), BoundsOf(b));
  }

  lemma RingsMeetOverlap(a: Geometry, i: nat, ra: nat, b: Geometry, j: nat, rb: nat)
    requires i < |a| && ra < |a[i]| && j < |b| && rb < |b[j]|
    requires RingsMeet(a[i][ra], b[j][rb])
    ensures BoundsOverlap(BoundsOf(a), BoundsOf(b))
  {
    hide BoundsOf, SegmentsIntersect, On;
    var r, s := a[i][ra], b[j][rb];
    var m, n :| 0 <= m < |r| - 1 && 0 <= n < |s| - 1 && EdgesMeet(r, m, s, n);
    IntersectIffShare(r[m], r[m + 1], s[n], s[n + 1]);
    var x :| On(x, r[m], r[m + 1]) && On(x, s[n], s[n + 1]);
    BoundsHoldPoint(a, i, ra, r[m]);
    BoundsHoldPoint(a, i, ra, r[m + 1]);
    BoundsHoldPoint(b, j, rb, s[n]);
    BoundsHoldPoint(b, j, rb, s[n + 1]);
    OnEdgeWithin(x, r[m], r[m + 1], BoundsOf(a));
    OnEdgeWithin(x, s[n], s[n + 1], BoundsOf(b));
    CommonPointOverlap(x, BoundsOf(a), BoundsOf(b));
  }

  /** The bounding-box reject never changes the answer. */
  lemma RejectIsExact(a: Geometry, b: Geometry)
    requires ValidGeometry(a) && ValidGeometry(b)
    ensures AnyPolygonsMeet(a, b) ==> BoundsOverlap(BoundsOf(a), BoundsOf(b))
    ensures IntersectsTest(a, b) <==> AnyPolygonsMeet(a, b)
  {
    hide BoundsOf, VertexInside, RingsMeet, BoundsOverlap, ValidGeometry;
    if AnyPolygonsMeet(a, b) {
      var polyA, polyB :| polyA in a && polyB in b && PolygonsMeet(polyA, polyB);
      var i :| 0 <= i < |a| && a[i] == polyA;
      var j :| 0 <= j < |b| && b[j] == polyB;
      if VertexInside(polyA[0], polyB) {
        VertexInsideOverlap(a, i, b, j);
      } else if VertexInside(polyB[0], polyA) {
        VertexInsideOverlap(b, j, a, i);
        OverlapSymmetric(BoundsOf(b), BoundsOf(a));
      } else {
        var r, s :| r in polyA && s in polyB && RingsMeet(r, s);
        var ra :| 0 <= ra < |polyA| && polyA[ra] == r;
        var rb :| 0 <= rb < |polyB| && polyB[rb] == s;
        RingsMeetOverlap(a, i, ra, b, j, rb);
      }
    }
  }

  lemma OverlapSymmetric(a: Bounds, b: Bounds)
    ensures BoundsOverlap(a, b) == BoundsOverlap(b, a)
  {
  }

  lemma RingsMeetSymmetric(r: Ring, s: Ring)
    requires RingsMeet(r, s)
    ensures RingsMeet(s, r)
  {
    hide SegmentsIntersect;
    var i, j :| 0 <= i < |r| - 1 && 0 <= j < |s| - 1 && EdgesMeet(r, i, s, j);
    IntersectSymmetric(r[i], r[i + 1], s[j], s[j + 1]);
    assert EdgesMeet(s, j, r, i);
  }

  lemma PolygonsMeetSymmetric(polyA: Polygon, polyB: Polygon)
    requires PolygonsMeet(polyA, polyB)
    ensures PolygonsMeet(polyB, polyA)
  {
    hide VertexInside, RingsMeet;
    if AnyRingsMeet(polyA, polyB) {
      var r, s :| r in polyA && s in polyB && RingsMeet(r, s);
      RingsMeetSymmetric(r, s);
    }
  }

  /** Whether two areas intersect does not depend on which is asked about the other. */
  lemma IntersectsSymmetric(a: Geometry, b: Geometry)
    ensures IntersectsTest(a, b) <==> IntersectsTest(b, a)
  {
    hide PolygonsMeet, BoundsOf, BoundsOverlap;
    OverlapSymmetric(BoundsOf(a), BoundsOf(b));
    if AnyPolygonsMeet(a, b) {
      var polyA, polyB :| polyA in a && polyB in b && PolygonsMeet(polyA, polyB);
      PolygonsMeetSymmetric(polyA, polyB);
    }
    if AnyPolygonsMeet(b, a) {
      var polyB, polyA :| polyB in b && polyA in a && PolygonsMeet(polyB, polyA);
      PolygonsMeetSymmetric(polyB, polyA);
    }
  }

  /** A point of the closed region of a polygon: inside, or on an edge. */
  ghost predicate InRegion(poly: Polygon, x: Point) {
    InRings(poly, x) || exists r, i | r in poly && 0 <= i < |r| - 1 :: On(x, r[i], r[i + 1])
  }

  lemma VertexInRegion(poly: Polygon, j: nat, p: Point)
    requires ValidPolygon(poly) && j < |poly| && p in poly[j]
    ensures InRegion(poly, p)
  {
    var r := poly[j];
    assert r in poly && ClosedRing(r);
    var k :| 0 <= k < |r| && r[k] == p;
    var i := if k == |r| - 1 then k - 1 else k;
    OwnEnds(r[i], r[i + 1]);
  }

  /** An answer of true is never wrong: the two regions have a point in common. */
  lemma IntersectsSound(a: Geometry, b: Geometry)
    requires ValidGeometry(a) && ValidGeometry(b) && IntersectsTest(a, b)
    ensures exists polyA, polyB, x | polyA in a && polyB in b :: InRegion(polyA, x) && InRegion(polyB, x)
  {
    hide BoundsOf, InRings, SegmentsIntersect, On;
    var polyA, polyB :| polyA in a && polyB in b && PolygonsMeet(polyA, polyB);
    if VertexInside(polyA[0], polyB) {
      var p :| p in polyA[0] && InRings(polyB, p);
      VertexInRegion(polyA, 0, p);
      assert InRegion(polyA, p) && InRegion(polyB, p);
    } else if VertexInside(polyB[0], polyA) {
      var p :| p in polyB[0] && InRings(polyA, p);
      VertexInRegion(polyB, 0, p);
      assert InRegion(polyA, p) && InRegion(polyB, p);
    } else {
      var r, s :| r in polyA && s in polyB && RingsMeet(r, s);
      var i, j :| 0 <= i < |r| - 1 && 0 <= j < |s| - 1 && EdgesMeet(r, i, s, j);
      IntersectIffShare(r[i], r[i + 1], s[j], s[j + 1]);
      var x :| On(x, r[i], r[i + 1]) && On(x, s[j], s[j + 1]);
      assert InRegion(polyA, x) && InRegion(polyB, x);
    }
  }
}
