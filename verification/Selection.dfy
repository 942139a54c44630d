/**
 Cell selection: a bounding-box candidate query in front of exact matching.
 For cells stored through import validation the query never loses a match.
 */
module Selection {
  import opened Wrappers
  import opened Segments
  import opened Geometry
  import Regions
  import Nesting

  /** A parsed GeoJSON document: JSON text is taken as an exact carrier of it. */
  datatype Document =
    | PolygonDoc(rings: seq<seq<Position>>)
    | MultiPolygonDoc(polygons: seq<seq<seq<Position>>>)
    | OtherDoc

  function ParseEach(polygons: seq<seq<seq<Position>>>): Result<Geometry, GeometryError>
    decreases |polygons|
  {
    if polygons == [] then Success([])
    else
      var poly :- BuildRings(polygons[0]);
      var rest :- ParseEach(polygons[1..]);
      Success([poly] + rest)
  }

  function ParseGeometry(doc: Document): Result<Geometry, GeometryError> {
    match doc
    case PolygonDoc(coords) =>
      var rings :- BuildRings(coords);
      Success([rings])
    case MultiPolygonDoc(polygons) => if polygons == [] then Failure(NoPolygons) else ParseEach(polygons)
    case OtherDoc => Failure(NoPolygons)
  }

  function GeometryCoords(g: Geometry): seq<seq<seq<Position>>> {
    seq(|g|, i requires 0 <= i < |g| => RingsToCoords(g[i]))
  }

  /** The normalised document that is stored, of the same type as the one parsed. */
  function Canonical(doc: Document, g: Geometry): Document
    requires g != []
  {
    match doc
    case PolygonDoc(_) => PolygonDoc(RingsToCoords(g[0]))
    case _ => MultiPolygonDoc(GeometryCoords(g))
  }

  lemma {:induction false} ReparseEach(polygons: seq<seq<seq<Position>>>)
    requires ParseEach(polygons).Success?
    ensures |ParseEach(polygons).value| == |polygons|
    ensures forall poly | poly in ParseEach(polygons).value :: ValidPolygon(poly)
    ensures ParseEach(GeometryCoords(ParseEach(polygons).value)) == ParseEach(polygons)
    decreases |polygons|
  {
    hide BuildRings, RingsToCoords, ValidPolygon;
    if polygons == [] {
    } else {
      RebuildRings(polygons[0]);
      ReparseEach(polygons[1..]);
      var g := ParseEach(polygons).value;
      assert GeometryCoords(g)[1..] == GeometryCoords(g[1..]);
    }
  }

  lemma ParsedIsValid(doc: Document)
    requires ParseGeometry(doc).Success?
    ensures ValidGeometry(ParseGeometry(doc).value)
  {
    match doc
    case PolygonDoc(coords) => RebuildRings(coords);
    case MultiPolygonDoc(polygons) => ReparseEach(polygons);
  }

  /** What is stored parses back to the very geometry it was made from. */
  lemma CanonicalReparses(doc: Document)
    requires ParseGeometry(doc).Success?
    ensures ParseGeometry(doc).value != []
    ensures ParseGeometry(Canonical(doc, ParseGeometry(doc).value)) == ParseGeometry(doc)
  {
    hide BuildRings, RingsToCoords;
    match doc
    case PolygonDoc(coords) =>
      RebuildRings(coords);
    case MultiPolygonDoc(polygons) =>
      ReparseEach(polygons);
  }

  /** A document is accepted for its polygons: one, or at least one, each of at least one ring of positions. */
  predicate Parseable(doc: Document) {
    match doc
    case PolygonDoc(coords) => RingsParseable(coords)
    case MultiPolygonDoc(polygons) => polygons != [] && forall coords | coords in polygons :: RingsParseable(coords)
    case OtherDoc => false
  }

  /** The parsed area has the document's polygons in order, ring by ring and position by position. */
  ghost predicate ParsedFrom(g: Geometry, doc: Document) {
    match doc
    case PolygonDoc(coords) => |g| == 1 && RingsOf(g[0], coords)
    case MultiPolygonDoc(polygons) =>
      |g| == |polygons| && forall i | 0 <= i < |g| :: RingsOf(g[i], polygons[i])
    case OtherDoc => false
  }

  lemma {:induction false} EachParsed(polygons: seq<seq<seq<Position>>>)
    ensures ParseEach(polygons).Success? <==> forall coords | coords in polygons :: RingsParseable(coords)
    ensures ParseEach(polygons).Success? ==>
      && |ParseEach(polygons).value| == |polygons|
      && forall i | 0 <= i < |polygons| :: RingsOf(ParseEach(polygons).value[i], polygons[i])
    decreases |polygons|
  {
    hide BuildRings, RingsParseable, RingsOf;
    if polygons != [] {
      RingsBuilt(polygons[0]);
      EachParsed(polygons[1..]);
      assert polygons == [polygons[0]] + polygons[1..];
    }
  }

  /** Exactly which documents are accepted, and what they are parsed to. */
  lemma ParsedExactly(doc: Document)
    ensures ParseGeometry(doc).Success? <==> Parseable(doc)
    ensures ParseGeometry(doc).Success? ==> ParsedFrom(ParseGeometry(doc).value, doc)
  {
    hide BuildRings, RingsParseable, RingsOf, ParseEach;
    match doc
    case PolygonDoc(coords) => RingsBuilt(coords);
    case MultiPolygonDoc(polygons) => EachParsed(polygons);
    case OtherDoc =>
  }

  // Cells

  datatype Plmn = Plmn(mcc: string, mnc: string, mncLength: nat)

  datatype LteCell = LteCell(
    id: int, plmn: Plmn, eci: nat, enbId: nat, localCellId: nat, tac: nat, cellName: string, mmeName: string,
    latitude: Option<real>, longitude: Option<real>, radius: Option<real>, azimuth: Option<real>,
      beamwidth: Option<real>,
    coverage: Option<Document>, bounds: Option<Bounds>, quality: string,
    source: string, sourceRecordId: string, sourceVersion: string, active: bool)

  function ValidateCoverage(doc: Document): Result<(Document, Bounds), GeometryError> {
    var g :- ParseGeometry(doc);
    if g == [] then Failure(NoPolygons) else Success((Canonical(doc, g), BoundsOf(g)))
  }

  /** Coverage and bounds as import validation leaves them: both absent, or both from one document. */
  ghost predicate Validated(cell: LteCell) {
    || (cell.coverage.None? && cell.bounds.None?)
    || exists doc :: ValidatedFrom(cell, doc)
  }

  ghost predicate ValidatedFrom(cell: LteCell, doc: Document) {
    && ValidateCoverage(doc).Success?
    && cell.coverage == Some(ValidateCoverage(doc).value.0)
    && cell.bounds == Some(ValidateCoverage(doc).value.1)
  }

  datatype CoverageCheck = Stored(coverage: Option<Document>,
    bounds: Option<Bounds>) | InvalidGeometry | PolygonRequired

  /** The coverage part of row validation. */
  function CheckCoverage(raw: Option<Document>, quality: string): (r: CoverageCheck)
  {
    match raw
    case Some(doc) =>
      (match ValidateCoverage(doc)
       case Success((canonical, bounds)) => Stored(Some(canonical), Some(bounds))
       case Failure(_) => InvalidGeometry)
    case None =>
      if quality == "engineered_polygon" || quality == "propagation_model" then PolygonRequired else Stored(None, None)
  }

  lemma CheckedIsValidated(raw: Option<Document>, quality: string, cell: LteCell)
    requires CheckCoverage(raw, quality) == Stored(cell.coverage, cell.bounds)
    ensures Validated(cell)
  {
    if raw.Some? {
      assert ValidatedFrom(cell, raw.value);
    }
  }

  // Matching

  datatype Reason = CoverageIntersection | CenterInside

  ghost predicate Contains(g: Geometry, p: Point) {
    exists poly | poly in g :: InRings(poly, p)
  }

  ghost function EvaluateSpec(area: Geometry, cell: LteCell): Option<Reason> {
    match cell.coverage
    case Some(doc) =>
      (match ParseGeometry(doc)
       case Failure(_) => None
       case Success(g) => if IntersectsTest(area, g) then Some(CoverageIntersection) else None)
    case None =>
      if cell.latitude.Some? && cell.longitude.Some? && Contains(area, Point(cell.longitude.value, cell.latitude.value))
      then Some(CenterInside) else None
  }

  /** The cell has no coverage, and its centre is known and inside some polygon of the area. */
  ghost predicate CentreInside(area: Geometry, cell: LteCell) {
    && cell.coverage.None? && cell.latitude.Some? && cell.longitude.Some?
    && exists poly :: poly in area && InRings(poly, Point(cell.longitude.value, cell.latitude.value))
  }

  /** The cell's coverage has a point in common with the area. */
  ghost predicate CoverageShares(area: Geometry, cell: LteCell) {
    && cell.coverage.Some? && ParseGeometry(cell.coverage.value).Success?
    && Regions.AreasShare(area, ParseGeometry(cell.coverage.value).value)
  }

  /** The polygons of the cell's coverage, if it has any, are well nested. */
  ghost predicate NestedCoverage(cell: LteCell) {
    cell.coverage.Some? && ParseGeometry(cell.coverage.value).Success? ==>
      forall poly | poly in ParseGeometry(cell.coverage.value).value :: Nesting.WellNested(poly)
  }

  /**
   A cell is selected for its coverage exactly when that has a point in common
   with the area, and for its centre exactly when it has no coverage and the
   centre is inside; a cell with coverage is never selected for its centre.
   */
  lemma EvaluateExactly(area: Geometry, cell: LteCell)
    requires ValidGeometry(area)
    ensures EvaluateSpec(area, cell) == Some(CenterInside) <==> CentreInside(area, cell)
    ensures (forall poly | poly in area :: Nesting.WellNested(poly)) && NestedCoverage(cell) ==>
      (EvaluateSpec(area, cell) == Some(CoverageIntersection) <==> CoverageShares(area, cell))
  {
    hide IntersectsTest, InRings, ParseGeometry, Regions.AreasShare, Nesting.WellNested, ValidPolygon;
    if cell.coverage.Some? && ParseGeometry(cell.coverage.value).Success? {
      ParsedIsValid(cell.coverage.value);
      if (forall poly | poly in area :: Nesting.WellNested(poly)) && NestedCoverage(cell) {
        Nesting.IntersectsIffShare(area, ParseGeometry(cell.coverage.value).value);
      }
    }
  }

  method Evaluate(area: Geometry, cell: LteCell) returns (r: Option<Reason>)
    ensures r == EvaluateSpec(area, cell)
    ensures ValidGeometry(area) ==> (r == Some(CenterInside) <==> CentreInside(area, cell))
    ensures ValidGeometry(area) && (forall poly | poly in area :: Nesting.WellNested(poly)) && NestedCoverage(cell) ==>
      (r == Some(CoverageIntersection) <==> CoverageShares(area, cell))
  {
    hide CentreInside, CoverageShares, NestedCoverage, Nesting.WellNested, ValidGeometry;
    if ValidGeometry(area) {
      EvaluateExactly(area, cell);
    }
    hide IntersectsTest, InRings, BuildRings, ParseEach;
    if cell.coverage.Some? {
      var parsed := ParseGeometry(cell.coverage.value);
      if parsed.Failure? {
        return None;
      }
      var meet := Intersects(area, parsed.value);
      return if meet then Some(CoverageIntersection) else None;
    }
    if cell.latitude.Some? && cell.longitude.Some? {
      var inside := ContainsPoint(area, cell.longitude.value, cell.latitude.value);
      if inside {
        return Some(CenterInside);
      }
    }
    return None;
  }

  predicate MatchesPlmn(plmn: Option<Plmn>, cell: LteCell) {
    plmn.Some? ==> cell.plmn.mcc == plmn.value.mcc && cell.plmn.mnc == plmn.value.mnc
  }

  /** The rows exact matching would have to look at without an index. */
  predicate Eligible(plmn: Option<Plmn>, cell: LteCell) {
    cell.active && MatchesPlmn(plmn, cell)
  }

  /** The candidate query's WHERE clause. */
  predicate Candidate(box: Bounds, plmn: Option<Plmn>, cell: LteCell) {
    && Eligible(plmn, cell)
    && match cell.bounds
       case Some(b) =>
         b.minLon <= box.maxLon && b.maxLon >= box.minLon && b.minLat <= box.maxLat && b.maxLat >= box.minLat
       case None =>
         && cell.latitude.Some? && cell.longitude.Some?
         && box.minLon <= cell.longitude.value <= box.maxLon && box.minLat <= cell.latitude.value <= box.maxLat
  }

  datatype SelectedCell = SelectedCell(id: int, eci: nat, tac: nat, enbId: nat, mmeName: string, quality: string,
    reason: Reason)

  function Select1(c: LteCell, reason: Reason): SelectedCell {
    SelectedCell(c.id, c.eci, c.tac, c.enbId, c.mmeName, c.quality, reason)
  }

  ghost function SelectAll(area: Geometry, cells: seq<LteCell>): seq<SelectedCell>
    decreases |cells|
  {
    if cells == [] then []
    else
      var rest := SelectAll(area, cells[..|cells| - 1]);
      var c := cells[|cells| - 1];
      match EvaluateSpec(area, c)
      case None => rest
      case Some(reason) => rest + [Select1(c, reason)]
  }

  function FindCandidates(box: Bounds, plmn: Option<Plmn>, table: seq<LteCell>): seq<LteCell>
    decreases |table|
  {
    if table == [] then []
    else
      var rest := FindCandidates(box, plmn, table[..|table| - 1]);
      var c := table[|table| - 1];
      if Candidate(box, plmn, c) then rest + [c] else rest
  }

  function FindEligible(plmn: Option<Plmn>, table: seq<LteCell>): seq<LteCell>
    decreases |table|
  {
    if table == [] then []
    else
      var rest := FindEligible(plmn, table[..|table| - 1]);
      var c := table[|table| - 1];
      if Eligible(plmn, c) then rest + [c] else rest
  }

  /** Exact matching of one cell implies that the query returns it. */
  lemma MatchIsCandidate(area: Geometry, plmn: Option<Plmn>, cell: LteCell)
    requires ValidGeometry(area) && Validated(cell) && Eligible(plmn, cell)
    requires EvaluateSpec(area, cell).Some?
    ensures Candidate(BoundsOf(area), plmn, cell)
  {
    hide BoundsOf, AnyPolygonsMeet, InRings, ValidGeometry, ParseGeometry, Canonical;
    if cell.coverage.Some? {
      var doc :| ValidatedFrom(cell, doc);
      CanonicalReparses(doc);
    } else {
      var p := Point(cell.longitude.value, cell.latitude.value);
      var poly :| poly in area && InRings(poly, p);
      var i :| 0 <= i < |area| && area[i] == poly;
      InsideIsWithinBounds(area, i, p);
    }
  }

  /**
   The bounding-box index never loses a match: evaluating only the query's
   candidates selects the same cells, in the same order and for the same
   reasons, as evaluating every active cell of the PLMN.
   */
  lemma {:induction false} IndexLosesNothing(area: Geometry, plmn: Option<Plmn>, table: seq<LteCell>)
    requires ValidGeometry(area)
    requires forall c | c in table :: Validated(c)
    ensures SelectAll(area, FindCandidates(BoundsOf(area), plmn, table)) == SelectAll(area, FindEligible(plmn, table))
    decreases |table|
  {
    hide BoundsOf, EvaluateSpec, ValidGeometry, Validated, Candidate, Eligible;
    if table == [] {
    } else {
      var init, c := table[..|table| - 1], table[|table| - 1];
      assert c in table;
      IndexLosesNothing(area, plmn, init);
      CandidateIsEligible(BoundsOf(area), plmn, c);
      if Eligible(plmn, c) && EvaluateSpec(area, c).Some? {
        MatchIsCandidate(area, plmn, c);
      }
      SelectLast(area, FindCandidates(BoundsOf(area), plmn, init), c);
      SelectLast(area, FindEligible(plmn, init), c);
    }
  }

  lemma CandidateIsEligible(box: Bounds, plmn: Option<Plmn>, c: LteCell)
    ensures Candidate(box, plmn, c) ==> Eligible(plmn, c)
  {
  }

  lemma SelectLast(area: Geometry, cells: seq<LteCell>, c: LteCell)
    ensures SelectAll(area, cells + [c])
         == match EvaluateSpec(area, c)
            case None => SelectAll(area, cells)
            case Some(reason) => SelectAll(area, cells) + [Select1(c, reason)]
  {
    hide EvaluateSpec;
    assert (cells + [c])[..|cells + [c]| - 1] == cells;
  }

  // What is selected

  /** The row is an active cell, of the given network if one is given. */
  predicate InNetwork(mcc: string, mnc: string, c: LteCell) {
    c.active && ((mcc == "" && mnc == "") || (c.plmn.mcc == mcc && c.plmn.mnc == mnc))
  }

  /** s reports row c, with its own identity, area code, eNB, MME and quality. */
  predicate Reports(s: SelectedCell, c: LteCell) {
    && s.id == c.id && s.eci == c.eci && s.tac == c.tac && s.enbId == c.enbId
    && s.mmeName == c.mmeName && s.quality == c.quality
  }

  /** The row is to be selected, and for this reason. */
  ghost predicate Meets(area: Geometry, c: LteCell, reason: Reason) {
    match reason
    case CoverageIntersection => CoverageShares(area, c)
    case CenterInside => CentreInside(area, c)
  }

  lemma {:induction false} EligibleAre(plmn: Option<Plmn>, table: seq<LteCell>, c: LteCell)
    ensures c in FindEligible(plmn, table) <==> c in table && Eligible(plmn, c)
    decreases |table|
  {
    hide Eligible;
    if table != [] {
      EligibleAre(plmn, table[..|table| - 1], c);
      assert table == table[..|table| - 1] + [table[|table| - 1]];
    }
  }

  lemma {:induction false} SelectedAre(area: Geometry, cells: seq<LteCell>, s: SelectedCell)
    ensures s in SelectAll(area, cells)
      <==> exists c :: c in cells && Reports(s, c) && EvaluateSpec(area, c) == Some(s.reason)
    decreases |cells|
  {
    hide EvaluateSpec;
    if cells != [] {
      var init, last := cells[..|cells| - 1], cells[|cells| - 1];
      SelectedAre(area, init, s);
      assert cells == init + [last];
    }
  }

  /**
   The selection is exact: a report is in it if and only if it is that of an
   active row of the network whose coverage meets the area, or which has no
   coverage and whose centre is inside.
   */
  lemma SelectionIsExact(area: Geometry, mcc: string, mnc: string, plmn: Option<Plmn>, table: seq<LteCell>,
    s: SelectedCell)
    requires ValidGeometry(area)
    requires plmn.None? <==> mcc == "" && mnc == ""
    requires plmn.Some? ==> plmn.value.mcc == mcc && plmn.value.mnc == mnc
    requires forall poly | poly in area :: Nesting.WellNested(poly)
    requires forall c | c in table :: NestedCoverage(c)
    ensures s in SelectAll(area, FindEligible(plmn, table))
      <==> exists c :: c in table && InNetwork(mcc, mnc, c) && Reports(s, c) && Meets(area, c, s.reason)
  {
    hide EvaluateSpec, CentreInside, CoverageShares, NestedCoverage, ValidGeometry, Nesting.WellNested, SelectAll,
      FindEligible;
    SelectedAre(area, FindEligible(plmn, table), s);
    forall c
      ensures c in FindEligible(plmn, table) <==> c in table && InNetwork(mcc, mnc, c)
      ensures c in table ==> (EvaluateSpec(area, c) == Some(s.reason) <==> Meets(area, c, s.reason))
    {
      EligibleAre(plmn, table, c);
      if c in table {
        EvaluateExactly(area, c);
      }
    }
  }

  /** The row's box has a point in common with the area's or, if it has none, its centre is in the area's. */
  ghost predicate BoxesShare(box: Bounds, c: LteCell) {
    match c.bounds
    case Some(b) => exists p :: Within(p, box) && Within(p, b)
    case None => c.latitude.Some? && c.longitude.Some? && Within(Point(c.longitude.value, c.latitude.value), box)
  }

  predicate Proper(b: Bounds) {
    b.minLon <= b.maxLon && b.minLat <= b.maxLat
  }

  lemma BoundsAreProper(g: Geometry)
    requires ValidGeometry(g)
    ensures Proper(BoundsOf(g))
  {
    hide BoundsOf, Within;
    assert g[0] in g && g[0][0] in g[0] && g[0][0] != [];
    BoundsHoldPoint(g, 0, 0, g[0][0][0]);
    WithinIsProper(g[0][0][0], BoundsOf(g));
  }

  lemma WithinIsProper(p: Point, b: Bounds)
    requires Within(p, b)
    ensures Proper(b)
  {
  }

  /** The candidate query returns exactly the active rows of the network whose box shares a point with the area's. */
  lemma {:induction false} CandidatesAre(box: Bounds, plmn: Option<Plmn>, table: seq<LteCell>, c: LteCell)
    requires Proper(box) && forall c | c in table :: Validated(c)
    ensures c in FindCandidates(box, plmn, table) <==> c in table && Eligible(plmn, c) && BoxesShare(box, c)
    decreases |table|
  {
    hide Eligible, Validated, BoxesShare, Candidate;
    if table != [] {
      var init, last := table[..|table| - 1], table[|table| - 1];
      assert last in table && table == init + [last];
      CandidatesAre(box, plmn, init, c);
      CandidateIs(box, plmn, last);
    }
  }

  lemma CandidateIs(box: Bounds, plmn: Option<Plmn>, c: LteCell)
    requires Proper(box) && Validated(c)
    ensures Candidate(box, plmn, c) <==> Eligible(plmn, c) && BoxesShare(box, c)
  {
    hide Eligible, ParseGeometry, BoundsOf, Canonical;
    if c.bounds.Some? {
      var doc :| ValidatedFrom(c, doc);
      ParsedIsValid(doc);
      BoundsAreProper(ParseGeometry(doc).value);
      var b := c.bounds.value;
      var p := Point(if box.minLon < b.minLon then b.minLon else box.minLon,
                     if box.minLat < b.minLat then b.minLat else box.minLat);
      if BoundsOverlap(b, box) {
        assert Within(p, box) && Within(p, b);
      }
    }
  }
}
