/**
 Cell inventory import: validating CSV rows and applying them to the cell
 table by merging or replacing.
 */
module Import {
  import opened Wrappers
  import opened Bits
  import opened Numerals
  import opened Selection
  import Geometry

  // Identity of a cell

  datatype Key = Key(plmn: Plmn, eci: nat)

  function KeyOf(c: LteCell): Key {
    Key(c.plmn, c.eci)
  }

  /** "%s<sep>%s<sep>%d<sep>%d" */
  function Joined(k: Key, sep: char): string {
    k.plmn.mcc + [sep] + k.plmn.mnc + [sep] + Decimal(k.plmn.mncLength) + [sep] + Decimal(k.eci)
  }

  /** The key of the replaced-cell set in the store. */
  function CellKey(k: Key): string {
    Joined(k, '/')
  }

  predicate DigitKey(k: Key) {
    AllDigits(k.plmn.mcc) && AllDigits(k.plmn.mnc)
  }

  /** Joined keys identify cells whose network codes are digits. */
  lemma JoinedInjective(k: Key, l: Key, sep: char)
    requires DigitKey(k) && DigitKey(l) && !('0' <= sep <= '9')
    requires Joined(k, sep) == Joined(l, sep)
    ensures k == l
  {
    hide Decimal;
    NotADigit(Decimal(k.eci), sep);
    NotADigit(Decimal(l.eci), sep);
    NotADigit(Decimal(k.plmn.mncLength), sep);
    NotADigit(Decimal(l.plmn.mncLength), sep);
    NotADigit(k.plmn.mnc, sep);
    NotADigit(l.plmn.mnc, sep);
    var a, b := k.plmn.mcc + [sep] + k.plmn.mnc, l.plmn.mcc + [sep] + l.plmn.mnc;
    LastSeparator(a + [sep] + Decimal(k.plmn.mncLength), Decimal(k.eci),
                  b + [sep] + Decimal(l.plmn.mncLength), Decimal(l.eci), sep);
    LastSeparator(a, Decimal(k.plmn.mncLength), b, Decimal(l.plmn.mncLength), sep);
    LastSeparator(k.plmn.mcc, k.plmn.mnc, l.plmn.mcc, l.plmn.mnc, sep);
    DecimalInjective(k.eci, l.eci);
    DecimalInjective(k.plmn.mncLength, l.plmn.mncLength);
  }

  lemma NotADigit(s: string, sep: char)
    requires AllDigits(s) && !('0' <= sep <= '9')
    ensures sep !in s
  {
  }

  // Validating one row

  /** A CSV field that may hold a number. */
  datatype Measure = Absent | Unreadable | Value(value: real)

  /** One row's columns; integers and booleans are None where the text does not parse. */
  datatype Row = Row(
    mcc: string, mnc: string, mncLength: Option<int>, eci: Option<int>, enbId: Option<int>, localCellId: Option<int>,
    tac: Option<int>, active: Option<bool>, quality: string, cellName: string, mmeName: string,
    source: string, sourceRecordId: string, sourceVersion: string,
    latitude: Measure, longitude: Measure, radius: Measure, azimuth: Measure, beamwidth: Measure,
    coverage: Option<Document>)

  datatype FieldError =
    | InvalidMcc | InvalidMnc | InvalidMncLength | MncLengthMismatch
    | InvalidEci | InvalidEnbId | InvalidLocalCellId | EciIdentityMismatch
    | InvalidTac | InvalidActive | MissingQuality | InvalidQuality
    | InvalidLatitude | InvalidLongitude | InvalidRadius | InvalidAzimuth | InvalidBeamwidth
    | InvalidCoverage | CoverageRequired

  const QUALITIES: set<string> :=
    {"engineered_polygon", "propagation_model", "sector_estimate", "point_radius", "site_point", "unknown"}

  predicate InRange(v: Option<int>, lo: int, hi: int) {
    v.Some? && lo <= v.value <= hi
  }

  /** What a row must satisfy, in the terms of the file format. */
  predicate RowOk(r: Row) {
    && |r.mcc| == 3 && AllDigits(r.mcc)
    && 2 <= |r.mnc| <= 3 && AllDigits(r.mnc)
    && r.mncLength == Some(|r.mnc|)
    && InRange(r.eci, 0, 0xfff_ffff) && InRange(r.enbId, 0, 0xf_ffff) && InRange(r.localCellId, 0, 255)
    && r.eci.value / 256 == r.enbId.value && r.eci.value % 256 == r.localCellId.value
    && InRange(r.tac, 0, 0xffff)
    && r.active.Some?
    && r.quality in QUALITIES
    && MeasuresOk(r)
    && CheckCoverage(r.coverage, r.quality).Stored?
  }

  predicate MeasuresOk(r: Row) {
    && !r.latitude.Unreadable? && (r.latitude.Value? ==> -90.0 <= r.latitude.value <= 90.0)
    && !r.longitude.Unreadable? && (r.longitude.Value? ==> -180.0 <= r.longitude.value <= 180.0)
    && !r.radius.Unreadable? && (r.radius.Value? ==> r.radius.value > 0.0)
    && !r.azimuth.Unreadable? && (r.azimuth.Value? ==> 0.0 <= r.azimuth.value < 360.0)
    && !r.beamwidth.Unreadable? && (r.beamwidth.Value? ==> 0.0 < r.beamwidth.value <= 360.0)
  }

  function Reading(m: Measure): Option<real> {
    if m.Value? then Some(m.value) else None
  }

  /** The cell an acceptable row describes. */
  function CellOf(r: Row): LteCell
    requires RowOk(r)
  {
    var stored := CheckCoverage(r.coverage, r.quality);
    LteCell(
      0, Plmn(r.mcc, r.mnc, |r.mnc|), r.eci.value, r.enbId.value, r.localCellId.value, r.tac.value, r.cellName,
        r.mmeName,
      Reading(r.latitude), Reading(r.longitude), Reading(r.radius), Reading(r.azimuth), Reading(r.beamwidth),
      stored.coverage, stored.bounds, r.quality, r.source, r.sourceRecordId, r.sourceVersion, r.active.value)
  }

  /** enbId << 8 | localCellId, for the ranges checked before. */
  function EcgiOf(enbId: nat, localCellId: nat): nat {
    OrWide(enbId * 256, localCellId, 32)
  }

  /** The eNB identity rule: the low octet is the local cell, the rest the eNB. */
  lemma EcgiSplits(eci: nat, enbId: nat, localCellId: nat)
    requires enbId <= 0xf_ffff && localCellId <= 255
    ensures eci == EcgiOf(enbId, localCellId) <==> eci / 256 == enbId && eci % 256 == localCellId
  {
    hide OrWide, Pow2;
    assert Pow2(8) == 256 && Pow2(24) == 0x100_0000 by { Pow2Values(); Pow2Add(8, 16); }
    OrDisjoint(enbId, localCellId, 24, 8);
  }

  method NumericErrors(r: Row) returns (errs: seq<FieldError>)
    ensures errs == [] <==> MeasuresOk(r)
    ensures |errs| <= 5
  {
    errs := [];
    if r.latitude.Unreadable? || (r.latitude.Value? && (r.latitude.value < -90.0 || r.latitude.value > 90.0)) {
      errs := errs + [InvalidLatitude];
    }
    if r.longitude.Unreadable? || (r.longitude.Value? && (r.longitude.value < -180.0 || r.longitude.value > 180.0)) {
      errs := errs + [InvalidLongitude];
    }
    if r.radius.Unreadable? || (r.radius.Value? && r.radius.value <= 0.0) {
      errs := errs + [InvalidRadius];
    }
    if r.azimuth.Unreadable? || (r.azimuth.Value? && (r.azimuth.value < 0.0 || r.azimuth.value >= 360.0)) {
      errs := errs + [InvalidAzimuth];
    }
    if r.beamwidth.Unreadable? || (r.beamwidth.Value? && (r.beamwidth.value <= 0.0 || r.beamwidth.value > 360.0)) {
      errs := errs + [InvalidBeamwidth];
    }
  }

  method IdentityErrors(r: Row) returns (errs: seq<FieldError>)
    ensures |errs| <= 7
    ensures errs == [] <==>
      && |r.mcc| == 3 && AllDigits(r.mcc) && 2 <= |r.mnc| <= 3 && AllDigits(r.mnc) && r.mncLength == Some(|r.mnc|)
      && InRange(r.eci, 0, 0xfff_ffff) && InRange(r.enbId, 0, 0xf_ffff) && InRange(r.localCellId, 0, 255)
      && r.eci.value / 256 == r.enbId.value && r.eci.value % 256 == r.localCellId.value
  {
    hide EcgiOf, AllDigits;
    errs := [];
    if |r.mcc| != 3 || !AllDigits(r.mcc) {
      errs := errs + [InvalidMcc];
    }
    if (|r.mnc| != 2 && |r.mnc| != 3) || !AllDigits(r.mnc) {
      errs := errs + [InvalidMnc];
    }
    if !InRange(r.mncLength, 2, 3) {
      errs := errs + [InvalidMncLength];
    } else if |r.mnc| > 0 && r.mncLength.value != |r.mnc| {
      errs := errs + [MncLengthMismatch];
    }
    if !InRange(r.eci, 0, 0xfff_ffff) {
      errs := errs + [InvalidEci];
    }
    if !InRange(r.enbId, 0, 0xf_ffff) {
      errs := errs + [InvalidEnbId];
    }
    if !InRange(r.localCellId, 0, 255) {
      errs := errs + [InvalidLocalCellId];
    }
    if InRange(r.eci, 0, 0xfff_ffff) && InRange(r.enbId, 0, 0xf_ffff) && InRange(r.localCellId, 0, 255) {
      EcgiSplits(r.eci.value, r.enbId.value, r.localCellId.value);
      if r.eci.value != EcgiOf(r.enbId.value, r.localCellId.value) {
        errs := errs + [EciIdentityMismatch];
      }
    }
  }

  /** Every rule is checked on its own; a row yields a cell exactly when all hold. */
  method CellFrom(r: Row) returns (cell: Option<LteCell>, errs: seq<FieldError>)
    ensures cell.Some? <==> RowOk(r)
    ensures errs == [] <==> RowOk(r)
    ensures cell.Some? ==> cell.value == CellOf(r)
    ensures |errs| <= 16
  {
    hide CheckCoverage, MeasuresOk;
    errs := IdentityErrors(r);
    if !InRange(r.tac, 0, 0xffff) {
      errs := errs + [InvalidTac];
    }
    if r.active.None? {
      errs := errs + [InvalidActive];
    }
    if r.quality == "" {
      errs := errs + [MissingQuality];
    } else if r.quality !in QUALITIES {
      errs := errs + [InvalidQuality];
    }
    var measures := NumericErrors(r);
    errs := errs + measures;
    var coverage := CheckCoverage(r.coverage, r.quality);
    if coverage.InvalidGeometry? {
      errs := errs + [InvalidCoverage];
    } else if coverage.PolygonRequired? {
      errs := errs + [CoverageRequired];
    }
    if errs == [] {
      cell := Some(CellOf(r));
    } else {
      cell := None;
    }
  }

  /** The measure's value, or none where the column is empty. */
  predicate Carries(column: Measure, stored: Option<real>) {
    (column.Value? && stored == Some(column.value)) || (column.Absent? && stored.None?)
  }

  /** An accepted cell has the row's columns, names its network in digits and splits into eNB and local cell. */
  lemma AcceptedCell(r: Row)
    requires RowOk(r)
    ensures
      var c := CellOf(r);
      && c.plmn.mcc == r.mcc && c.plmn.mnc == r.mnc && r.mncLength == Some(c.plmn.mncLength)
      && r.eci == Some(c.eci) && r.enbId == Some(c.enbId) && r.localCellId == Some(c.localCellId)
      && r.tac == Some(c.tac) && r.active == Some(c.active)
      && c.cellName == r.cellName && c.mmeName == r.mmeName && c.quality == r.quality
      && c.source == r.source && c.sourceRecordId == r.sourceRecordId && c.sourceVersion == r.sourceVersion
      && Carries(r.latitude, c.latitude) && Carries(r.longitude, c.longitude) && Carries(r.radius, c.radius)
      && Carries(r.azimuth, c.azimuth) && Carries(r.beamwidth, c.beamwidth)
      && (c.coverage.Some? <==> r.coverage.Some?)
    ensures DigitKey(KeyOf(CellOf(r)))
    ensures CellOf(r).eci / 256 == CellOf(r).enbId && CellOf(r).eci % 256 == CellOf(r).localCellId
    ensures Validated(CellOf(r))
  {
    CheckedIsValidated(r.coverage, r.quality, CellOf(r));
    hide ValidateCoverage, Validated;
  }

  /** The coverage stored for a row is the same area as the row's document, with the box of that area. */
  lemma StoredCoverage(r: Row)
    requires RowOk(r) && r.coverage.Some?
    ensures
      var c := CellOf(r);
      && c.coverage.Some? && ParseGeometry(r.coverage.value).Success?
      && ParseGeometry(c.coverage.value) == ParseGeometry(r.coverage.value)
      && c.bounds == Some(Geometry.BoundsOf(ParseGeometry(r.coverage.value).value))
  {
    hide MeasuresOk, ParseGeometry, Canonical, Geometry.BoundsOf;
    CanonicalReparses(r.coverage.value);
  }

  /** Which qualities there are, and when a row needs a coverage: the rest of the format's rules. */
  lemma QualityRules(r: Row)
    requires RowOk(r)
    ensures r.quality in {"engineered_polygon", "propagation_model", "sector_estimate", "point_radius", "site_point",
                          "unknown"}
    ensures r.coverage.None? ==> r.quality != "engineered_polygon" && r.quality != "propagation_model"
    ensures r.coverage.Some? ==> Parseable(r.coverage.value)
  {
    hide MeasuresOk, Parseable;
    if r.coverage.Some? {
      ParsedExactly(r.coverage.value);
    }
  }

  /** Any other row with acceptable columns: it is accepted with every such quality and coverage. */
  lemma QualityAccepted(r: Row, quality: string, coverage: Option<Document>)
    requires RowOk(r)
    requires quality in {"engineered_polygon", "propagation_model", "sector_estimate", "point_radius", "site_point",
                         "unknown"}
    requires match coverage
      case None => quality != "engineered_polygon" && quality != "propagation_model"
      case Some(doc) => Parseable(doc)
    ensures RowOk(r.(quality := quality, coverage := coverage))
  {
    hide Parseable;
    if coverage.Some? {
      ParsedExactly(coverage.value);
      CanonicalReparses(coverage.value);
    }
  }

  // Validating a file

  const MAX_ERRORS := 1000

  /** A record of the file: with the header's field count, or not. */
  datatype Line = Line(row: Row) | WrongFieldCount

  datatype ParseResult = ParseResult(rows: nat, cells: seq<LteCell>, errors: nat, stopped: bool)

  predicate Good(l: Line) {
    l.Line? && RowOk(l.row)
  }

  /** The cells of the first n lines: each acceptable one whose identity has not appeared before. */
  function Accepted(lines: seq<Line>, n: nat): seq<LteCell>
    requires n <= |lines|
  {
    if n == 0 then []
    else
      var prior := Accepted(lines, n - 1);
      if Good(lines[n - 1]) && (forall c | c in prior :: KeyOf(c) != KeyOf(CellOf(lines[n - 1].row)))
      then prior + [CellOf(lines[n - 1].row)] else prior
  }

  method ParseCsv(lines: seq<Line>) returns (r: ParseResult)
    ensures r.rows <= |lines| && r.cells == Accepted(lines, r.rows)
    ensures r.stopped <==> r.rows < |lines|
    ensures if r.stopped then 1000 < r.errors <= 1016 else r.errors < 1016
    ensures |r.cells| <= r.rows && r.errors >= r.rows - |r.cells|
    ensures r.errors == 0 <==> |Accepted(lines, |lines|)| == |lines|
  {
    hide RowOk, CellOf, Joined;
    var cells: seq<LteCell> := [];
    var errors := 0;
    var rows := 0;
    var seen: set<string> := {};
    while rows < |lines|
      invariant rows <= |lines|
      invariant cells == Accepted(lines, rows)
      invariant |cells| <= rows && errors >= rows - |cells| && errors < 1016
      invariant errors == 0 <==> |cells| == rows
      invariant forall c | c in cells :: DigitKey(KeyOf(c))
      invariant forall s :: s in seen <==> exists c :: c in cells && s == Joined(KeyOf(c), '-')
    {
      if errors >= MAX_ERRORS {
        AcceptedShort(lines, rows, |lines|);
        return ParseResult(rows, cells, errors + 1, true);
      }
      var line := lines[rows];
      rows := rows + 1;
      if line.WrongFieldCount? {
        errors := errors + 1;
        continue;
      }
      var cell, fieldErrors := CellFrom(line.row);
      if |fieldErrors| > 0 {
        errors := errors + |fieldErrors|;
        continue;
      }
      AcceptedCell(line.row);
      var key := Joined(KeyOf(cell.value), '-');
      forall c | c in cells
        ensures Joined(KeyOf(c), '-') == key ==> KeyOf(c) == KeyOf(cell.value)
      {
        if Joined(KeyOf(c), '-') == key {
          JoinedInjective(KeyOf(c), KeyOf(cell.value), '-');
        }
      }
      if key in seen {
        errors := errors + 1;
        continue;
      }
      seen := seen + {key};
      cells := cells + [cell.value];
    }
    return ParseResult(rows, cells, errors, false);
  }

  lemma {:induction false} AcceptedShort(lines: seq<Line>, m: nat, n: nat)
    requires m <= n <= |lines|
    ensures |Accepted(lines, n)| <= |Accepted(lines, m)| + (n - m)
  {
    hide RowOk, CellOf;
    if m < n {
      AcceptedShort(lines, m, n - 1);
    }
  }

  predicate UniqueKeys(cells: seq<LteCell>) {
    forall i, j | 0 <= i < j < |cells| :: KeyOf(cells[i]) != KeyOf(cells[j])
  }

  /** No identity appears twice among the accepted cells, and every acceptable line's identity appears. */
  lemma {:induction false} AcceptedIsUnique(lines: seq<Line>, n: nat)
    requires n <= |lines|
    ensures UniqueKeys(Accepted(lines, n))
    ensures forall c | c in Accepted(lines, n) :: DigitKey(KeyOf(c)) && Validated(c)
    ensures forall i | 0 <= i < n && Good(lines[i]) ::
      exists c :: c in Accepted(lines, n) && KeyOf(c) == KeyOf(CellOf(lines[i].row))
  {
    hide RowOk, CellOf, DigitKey, Validated;
    if n > 0 {
      AcceptedIsUnique(lines, n - 1);
      if Good(lines[n - 1]) {
        AcceptedCell(lines[n - 1].row);
      }
      var prior, now := Accepted(lines, n - 1), Accepted(lines, n);
      forall i | 0 <= i < n && Good(lines[i])
        ensures exists c :: c in now && KeyOf(c) == KeyOf(CellOf(lines[i].row))
      {
        if i < n - 1 {
          var c :| c in prior && KeyOf(c) == KeyOf(CellOf(lines[i].row));
          assert c in now;
        } else if now != prior {
          assert now[|now| - 1] in now;
        }
      }
    }
  }

  /**
   A file parses without error exactly when every line is acceptable and no
   identity repeats; then all its cells are kept in order.
   */
  lemma {:induction false} ErrorFree(lines: seq<Line>, n: nat)
    requires n <= |lines|
    ensures |Accepted(lines, n)| <= n
    ensures |Accepted(lines, n)| == n <==>
      && (forall i | 0 <= i < n :: Good(lines[i]))
      && (forall i, j | 0 <= i < j < n :: KeyOf(CellOf(lines[i].row)) != KeyOf(CellOf(lines[j].row)))
    ensures |Accepted(lines, n)| == n ==> forall i | 0 <= i < n :: Accepted(lines, n)[i] == CellOf(lines[i].row)
  {
    hide RowOk, CellOf, KeyOf;
    if n > 0 {
      ErrorFree(lines, n - 1);
      var prior := Accepted(lines, n - 1);
      if |prior| == n - 1 && Good(lines[n - 1]) {
        NewAmong(prior, KeyOf(CellOf(lines[n - 1].row)));
      }
    }
  }

  lemma NewAmong(cells: seq<LteCell>, key: Key)
    ensures (forall c | c in cells :: KeyOf(c) != key) <==> (forall i | 0 <= i < |cells| :: KeyOf(cells[i]) != key)
  {
    hide KeyOf;
    forall i | 0 <= i < |cells|
      ensures cells[i] in cells
    {
    }
  }

  // The cell table

  type CellTable = map<Key, LteCell>

  datatype Mode = ValidateOnly | Merge | Replace

  datatype Counts = Counts(inserted: nat, updated: nat, deactivated: nat)

  /** The table and the next row identifier. */
  datatype Database = Database(cells: CellTable, nextId: nat)

  /** INSERT … ON CONFLICT DO UPDATE: a known cell keeps its row identifier. */
  function Put(db: Database, c: LteCell): Database {
    var key := KeyOf(c);
    if key in db.cells then db.(cells := db.cells[key := c.(id := db.cells[key].id)])
    else Database(db.cells[key := c.(id := db.nextId)], db.nextId + 1)
  }

  function PutAll(db: Database, cells: seq<LteCell>): Database
    decreases |cells|
  {
    if cells == [] then db else Put(PutAll(db, cells[..|cells| - 1]), cells[|cells| - 1])
  }

  function SeenKeys(cells: seq<LteCell>): set<string> {
    set c | c in cells :: CellKey(KeyOf(c))
  }

  /** The active rows a replacing import did not mention. */
  function Unmentioned(t: CellTable, cells: seq<LteCell>): set<Key> {
    set key | key in t && t[key].active && CellKey(key) !in SeenKeys(cells)
  }

  function Deactivated(t: CellTable, keys: set<Key>): CellTable {
    map key | key in t :: if key in keys then t[key].(active := false) else t[key]
  }

  function Applied(db: Database, mode: Mode, cells: seq<LteCell>): Database {
    var put := PutAll(db, cells);
    if mode == Replace then put.(cells := Deactivated(put.cells, Unmentioned(put.cells, cells))) else put
  }

  function KeysOf(cells: seq<LteCell>): set<Key> {
    set c | c in cells :: KeyOf(c)
  }

  /** Lines of the file whose cell is already in the table or earlier in the file. */
  function Rewritten(t: CellTable, cells: seq<LteCell>): nat
    decreases |cells|
  {
    if cells == [] then 0
    else
      var n := |cells| - 1;
      Rewritten(t, cells[..n]) + if KeyOf(cells[n]) in t || KeyOf(cells[n]) in KeysOf(cells[..n]) then 1 else 0
  }

  /** The file's cells the table lacks, the lines that rewrite one, and the active rows the file does not mention. */
  function Tally(db: Database, mode: Mode, cells: seq<LteCell>): Counts {
    Counts(|KeysOf(cells) - db.cells.Keys|, Rewritten(db.cells, cells),
           if mode == Replace then |Unmentioned(db.cells, cells)| else 0)
  }

  lemma NothingTallied(t: CellTable)
    ensures KeysOf([]) - t.Keys == {} && Rewritten(t, []) == 0
  {
  }

  lemma NewOutside(a: set<Key>, t: set<Key>, key: Key)
    ensures |a + {key} - t| == |a - t| + if key in t || key in a then 0 else 1
  {
    if key in t || key in a {
      assert a + {key} - t == a - t;
    } else {
      assert a + {key} - t == (a - t) + {key};
    }
  }

  lemma KeysNext(cells: seq<LteCell>, i: nat)
    requires i < |cells|
    ensures KeysOf(cells[..i + 1]) == KeysOf(cells[..i]) + {KeyOf(cells[i])}
  {
    hide KeyOf;
    assert cells[..i + 1] == cells[..i] + [cells[i]];
  }

  lemma RewrittenNext(t: CellTable, cells: seq<LteCell>, i: nat)
    requires i < |cells|
    ensures Rewritten(t, cells[..i + 1])
         == Rewritten(t, cells[..i]) + if KeyOf(cells[i]) in t || KeyOf(cells[i]) in KeysOf(cells[..i]) then 1 else 0
  {
    hide KeyOf, KeysOf;
    assert cells[..i + 1][..i] == cells[..i];
  }

  /** One line more is one cell more the table lacked, or one line more that rewrites. */
  lemma TallyNext(t: CellTable, cells: seq<LteCell>, i: nat)
    requires i < |cells|
    ensures
      var known := KeyOf(cells[i]) in t || KeyOf(cells[i]) in KeysOf(cells[..i]);
      && |KeysOf(cells[..i + 1]) - t.Keys| == |KeysOf(cells[..i]) - t.Keys| + (if known then 0 else 1)
      && Rewritten(t, cells[..i + 1]) == Rewritten(t, cells[..i]) + (if known then 1 else 0)
  {
    hide KeyOf, KeysOf, Rewritten;
    KeysNext(cells, i);
    RewrittenNext(t, cells, i);
    NewOutside(KeysOf(cells[..i]), t.Keys, KeyOf(cells[i]));
  }

  /** No row disappears and none is added but the file's. */
  lemma {:induction false} PutAllKeys(db: Database, cells: seq<LteCell>)
    ensures PutAll(db, cells).cells.Keys == db.cells.Keys + KeysOf(cells)
    decreases |cells|
  {
    if cells == [] {
    } else {
      PutAllKeys(db, cells[..|cells| - 1]);
      assert cells == cells[..|cells| - 1] + [cells[|cells| - 1]];
    }
  }

  class CellStore {
    var cells: CellTable
    var nextId: nat

    constructor ()
      ensures cells == map[] && nextId == 1
    {
      cells, nextId := map[], 1;
    }

    ghost function Contents(): Database
      reads this
    {
      Database(cells, nextId)
    }

    method ApplyImport(mode: Mode, file: seq<LteCell>) returns (r: Option<Counts>)
      modifies this
      ensures mode == ValidateOnly ==> r.None? && Contents() == old(Contents())
      ensures mode != ValidateOnly ==>
        r == Some(Tally(old(Contents()), mode, file)) && Contents() == Applied(old(Contents()), mode, file)
    {
      hide CellKey, PutAll, SeenKeys, Deactivated, Unmentioned, KeysOf, Rewritten, KeyOf;
      NothingPut(Contents());
      NothingTallied(cells);
      if mode != Merge && mode != Replace {
        return None;
      }
      var seen: set<string> := {};
      var inserted, updated := 0, 0;
      for i := 0 to |file|
        invariant Contents() == PutAll(old(Contents()), file[..i])
        invariant inserted == |KeysOf(file[..i]) - old(cells).Keys| && updated == Rewritten(old(cells), file[..i])
        invariant seen == SeenKeys(file[..i])
      {
        var c := file[i];
        PutNext(old(Contents()), file, i);
        TallyNext(old(cells), file, i);
        PutAllKeys(old(Contents()), file[..i]);
        seen := seen + {CellKey(KeyOf(c))};
        var known := KeyOf(c) in cells;
        if known {
          cells := cells[KeyOf(c) := c.(id := cells[KeyOf(c)].id)];
          updated := updated + 1;
        } else {
          cells := cells[KeyOf(c) := c.(id := nextId)];
          nextId := nextId + 1;
          inserted := inserted + 1;
        }
      }
      assert file[..|file|] == file;
      var deactivated := 0;
      if mode == Replace {
        UnmentionedBefore(old(Contents()), file);
        deactivated := DeactivateUnseen(seen, file);
      }
      return Some(Counts(inserted, updated, deactivated));
    }

    method DeactivateUnseen(seen: set<string>, ghost file: seq<LteCell>) returns (deactivated: nat)
      requires seen == SeenKeys(file)
      modifies this`cells
      ensures cells == Deactivated(old(cells), Unmentioned(old(cells), file))
      ensures deactivated == |Unmentioned(old(cells), file)|
    {
      hide CellKey, SeenKeys;
      var toDeactivate := set key | key in cells && cells[key].active && CellKey(key) !in seen;
      assert toDeactivate == Unmentioned(cells, file);
      deactivated := 0;
      var rest := toDeactivate;
      while rest != {}
        invariant rest <= toDeactivate
        invariant deactivated == |toDeactivate| - |rest|
        invariant cells == Deactivated(old(cells), toDeactivate - rest)
        decreases |rest|
      {
        var key :| key in rest;
        cells := cells[key := cells[key].(active := false)];
        rest := rest - {key};
        deactivated := deactivated + 1;
      }
      assert toDeactivate - rest == toDeactivate;
    }
  }

  lemma NothingPut(db: Database)
    ensures PutAll(db, []) == db && SeenKeys([]) == {}
  {
  }

  lemma PutNext(db: Database, cells: seq<LteCell>, i: nat)
    requires i < |cells|
    ensures PutAll(db, cells[..i + 1]) == Put(PutAll(db, cells[..i]), cells[i])
    ensures SeenKeys(cells[..i + 1]) == SeenKeys(cells[..i]) + {CellKey(KeyOf(cells[i]))}
  {
    hide CellKey;
    assert cells[..i + 1][..i] == cells[..i] && cells[..i + 1] == cells[..i] + [cells[i]];
  }

  // What an import does to the inventory

  predicate Mentions(cells: seq<LteCell>, key: Key) {
    exists c :: c in cells && KeyOf(c) == key
  }

  lemma MentionsLast(cells: seq<LteCell>, key: Key)
    requires cells != []
    ensures Mentions(cells, key) <==> Mentions(cells[..|cells| - 1], key) || KeyOf(cells[|cells| - 1]) == key
  {
    assert cells == cells[..|cells| - 1] + [cells[|cells| - 1]];
  }

  /** Merging overrides the file's rows and leaves every other as it was; a known cell keeps its row identifier. */
  lemma {:induction false} MergeOverrides(db: Database, cells: seq<LteCell>, key: Key)
    ensures
      var after := PutAll(db, cells).cells;
      && (key in after <==> key in db.cells || Mentions(cells, key))
      && (key in db.cells && !Mentions(cells, key) ==> after[key] == db.cells[key])
      && (key in db.cells ==> after[key].id == db.cells[key].id)
    decreases |cells|
  {
    hide KeyOf, Mentions;
    if cells == [] {
      assert !Mentions(cells, key) by { MentionsNothing(key); }
    } else {
      MentionsLast(cells, key);
      MergeOverrides(db, cells[..|cells| - 1], key);
    }
  }

  lemma MentionsNothing(key: Key)
    ensures !Mentions([], key)
  {
  }

  /** After merging a file without repeats, the table holds each of its cells as the file has it. */
  lemma {:induction false} MergeHolds(db: Database, cells: seq<LteCell>, i: nat)
    requires UniqueKeys(cells) && i < |cells|
    ensures
      var key, after := KeyOf(cells[i]), PutAll(db, cells).cells;
      key in after && after[key] == cells[i].(id := after[key].id)
    decreases |cells|
  {
    hide KeyOf;
    if i < |cells| - 1 {
      MergeHolds(db, cells[..|cells| - 1], i);
    }
  }

  /** Rows have identifiers of their own, all of them below the next one to be given. */
  predicate OwnIds(db: Database) {
    && (forall key | key in db.cells :: db.cells[key].id < db.nextId)
    && (forall k1, k2 | k1 in db.cells && k2 in db.cells && k1 != k2 :: db.cells[k1].id != db.cells[k2].id)
  }

  lemma {:induction false} PutAllOwnIds(db: Database, cells: seq<LteCell>)
    requires OwnIds(db)
    ensures OwnIds(PutAll(db, cells))
    decreases |cells|
  {
    hide KeyOf;
    if cells != [] {
      PutAllOwnIds(db, cells[..|cells| - 1]);
    }
  }

  /** No import ever gives two rows one identifier. */
  lemma ImportKeepsIds(db: Database, mode: Mode, cells: seq<LteCell>)
    requires OwnIds(db)
    ensures OwnIds(Applied(db, mode, cells))
  {
    hide PutAll, Unmentioned;
    PutAllOwnIds(db, cells);
  }

  predicate DigitKeys(t: CellTable) {
    forall key | key in t :: DigitKey(key)
  }

  /** With network codes in digits, the seen set recognises exactly the file's cells. */
  lemma SeenIsMentioned(cells: seq<LteCell>, key: Key)
    requires DigitKey(key) && forall c | c in cells :: DigitKey(KeyOf(c))
    ensures CellKey(key) in SeenKeys(cells) <==> Mentions(cells, key)
  {
    hide Joined, DigitKey;
    if CellKey(key) in SeenKeys(cells) {
      var c :| c in cells && CellKey(KeyOf(c)) == CellKey(key);
      JoinedInjective(key, KeyOf(c), '/');
    }
  }

  /** After a replacing import the active cells are exactly the file's active cells. */
  lemma ActiveAfterReplace(db: Database, cells: seq<LteCell>, key: Key)
    requires UniqueKeys(cells) && DigitKeys(db.cells)
    requires forall c | c in cells :: DigitKey(KeyOf(c))
    ensures
      var after := Applied(db, Replace, cells).cells;
      (key in after && after[key].active) <==> exists c :: c in cells && KeyOf(c) == key && c.active
  {
    hide PutAll, CellKey, SeenKeys, DigitKey, KeyOf;
    MergeOverrides(db, cells, key);
    var put, after := PutAll(db, cells).cells, Applied(db, Replace, cells).cells;
    if key in put {
      assert DigitKey(key);
      SeenIsMentioned(cells, key);
      if Mentions(cells, key) {
        var i :| 0 <= i < |cells| && KeyOf(cells[i]) == key;
        MergeHolds(db, cells, i);
        assert after[key].active == put[key].active == cells[i].active;
      }
    }
  }

  /** A replacing import changes an unmentioned row in nothing but its active flag, and removes none. */
  lemma ReplaceKeepsRows(db: Database, cells: seq<LteCell>, key: Key)
    requires key in db.cells
    ensures
      var after := Applied(db, Replace, cells).cells;
      && key in after
      && after[key].id == db.cells[key].id
      && (!Mentions(cells, key) ==> after[key].(active := true) == db.cells[key].(active := true))
  {
    hide PutAll, CellKey, SeenKeys, Unmentioned;
    MergeOverrides(db, cells, key);
  }

  /** The active rows no line mentions are the ones that were active before. */
  lemma UnmentionedBefore(db: Database, cells: seq<LteCell>)
    ensures Unmentioned(PutAll(db, cells).cells, cells) == Unmentioned(db.cells, cells)
  {
    hide CellKey, PutAll;
    var put := PutAll(db, cells).cells;
    forall key: Key
      ensures key in Unmentioned(put, cells) <==> key in Unmentioned(db.cells, cells)
    {
      MergeOverrides(db, cells, key);
      if Mentions(cells, key) {
        var c :| c in cells && KeyOf(c) == key;
        assert CellKey(key) in SeenKeys(cells);
      }
    }
  }

  lemma {:induction false} TallyAddsUp(t: CellTable, cells: seq<LteCell>, i: nat)
    requires i <= |cells|
    ensures Counted(t, cells[..i]) == i
    decreases i
  {
    hide Counted;
    if i == 0 {
      assert Counted(t, []) == 0 by { NothingCounted(t); }
      assert cells[..0] == [];
    } else {
      var n := i - 1;
      TallyAddsUp(t, cells, n);
      CountedNext(t, cells, n);
      assert n + 1 == i;
    }
  }

  lemma NothingCounted(t: CellTable)
    ensures Counted(t, []) == 0
  {
    NothingTallied(t);
  }

  function Counted(t: CellTable, cells: seq<LteCell>): nat {
    |KeysOf(cells) - t.Keys| + Rewritten(t, cells)
  }

  lemma CountedNext(t: CellTable, cells: seq<LteCell>, i: nat)
    requires i < |cells|
    ensures Counted(t, cells[..i + 1]) == Counted(t, cells[..i]) + 1
  {
    hide KeysOf, Rewritten, KeyOf;
    TallyNext(t, cells, i);
  }

  /**
   Every line of the file is counted once, as a cell the table lacked or as a
   rewritten one; the table grows by exactly the cells it lacked; and the
   active rows lost to a replacing import are exactly the deactivated ones.
   */
  lemma CountsAddUp(db: Database, mode: Mode, cells: seq<LteCell>)
    ensures
      var n := Tally(db, mode, cells);
      && n.inserted + n.updated == |cells|
      && |Applied(db, mode, cells).cells| == |db.cells| + n.inserted
      && n.deactivated == |set key | key in PutAll(db, cells).cells && TurnedOff(db, mode, cells, key)|
  {
    hide CellKey, SeenKeys, PutAll, KeysOf, Rewritten;
    TallyAddsUp(db.cells, cells, |cells|);
    assert cells[..|cells|] == cells;
    var put := PutAll(db, cells).cells;
    PutAllKeys(db, cells);
    UnmentionedBefore(db, cells);
    GrownSize(db.cells.Keys, KeysOf(cells));
    assert Applied(db, mode, cells).cells.Keys == put.Keys;
    KeySize(Applied(db, mode, cells).cells);
    KeySize(db.cells);
    assert (set key | key in put && TurnedOff(db, mode, cells, key))
        == if mode == Replace then Unmentioned(put, cells) else {};
  }

  /** The import's lines leave the row active, yet it ends up inactive. */
  predicate TurnedOff(db: Database, mode: Mode, cells: seq<LteCell>, key: Key) {
    ActiveIn(PutAll(db, cells).cells, key) && !ActiveIn(Applied(db, mode, cells).cells, key)
  }

  lemma KeySize(t: CellTable)
    ensures |t| == |t.Keys|
  {
  }

  lemma GrownSize(a: set<Key>, b: set<Key>)
    ensures |a + b| == |a| + |b - a|
  {
    assert a + b == a + (b - a);
  }

  /** Re-applying the same file inserts nothing, deactivates nothing and leaves every row as it was. */
  lemma ReapplyChangesNothing(db: Database, mode: Mode, cells: seq<LteCell>)
    requires UniqueKeys(cells)
    ensures
      var once := Applied(db, mode, cells);
      && Applied(once, mode, cells) == once
      && Tally(once, mode, cells) == Counts(0, |cells|, 0)
  {
    hide CellKey, SeenKeys, PutAll, Rewritten;
    var once := Applied(db, mode, cells);
    MergedIsFixed(db, mode, cells);
    PutAllOfPresent(once, cells);
    TallyAddsUp(once.cells, cells, |cells|);
    assert cells[..|cells|] == cells;
    assert KeysOf(cells) - once.cells.Keys == {};
    assert Unmentioned(once.cells, cells) == {} || mode != Replace;
    assert Deactivated(once.cells, {}) == once.cells;
  }

  lemma MergedIsFixed(db: Database, mode: Mode, cells: seq<LteCell>)
    requires UniqueKeys(cells)
    ensures
      var once := Applied(db, mode, cells);
      forall c | c in cells :: KeyOf(c) in once.cells && once.cells[KeyOf(c)] == c.(id := once.cells[KeyOf(c)].id)
  {
    hide CellKey, PutAll;
    var put := PutAll(db, cells);
    forall c | c in cells
      ensures KeyOf(c) in put.cells && put.cells[KeyOf(c)] == c.(id := put.cells[KeyOf(c)].id)
      ensures CellKey(KeyOf(c)) in SeenKeys(cells)
    {
      var i :| 0 <= i < |cells| && cells[i] == c;
      MergeHolds(db, cells, i);
    }
  }

  lemma {:induction false} PutAllOfPresent(db: Database, cells: seq<LteCell>)
    requires forall c | c in cells :: KeyOf(c) in db.cells && db.cells[KeyOf(c)] == c.(id := db.cells[KeyOf(c)].id)
    ensures PutAll(db, cells) == db
    decreases |cells|
  {
    if cells != [] {
      var init, last := cells[..|cells| - 1], cells[|cells| - 1];
      assert cells == init + [last];
      PutAllOfPresent(db, init);
    }
  }

  predicate SameCoverage(a: LteCell, b: LteCell) {
    a.coverage == b.coverage && a.bounds == b.bounds
  }

  lemma CoverageDecides(a: LteCell, b: LteCell)
    requires SameCoverage(a, b) && Validated(a)
    ensures Validated(b)
  {
    if a.coverage.Some? {
      var doc :| ValidatedFrom(a, doc);
      assert ValidatedFrom(b, doc);
    }
  }

  ghost predicate AllValidated(t: CellTable) {
    forall key | key in t :: Validated(t[key])
  }

  lemma {:induction false} PutAllValidated(db: Database, cells: seq<LteCell>)
    requires AllValidated(db.cells) && forall c | c in cells :: Validated(c)
    ensures AllValidated(PutAll(db, cells).cells)
    decreases |cells|
  {
    hide Validated;
    if cells != [] {
      var last := cells[|cells| - 1];
      PutAllValidated(db, cells[..|cells| - 1]);
      forall c | SameCoverage(last, c)
        ensures Validated(c)
      {
        CoverageDecides(last, c);
      }
      assert forall n :: SameCoverage(last, last.(id := n));
    }
  }

  /** Every row ever imported keeps its coverage paired with its bounds, which is what the candidate index relies on. */
  lemma ImportKeepsIndexSound(db: Database, mode: Mode, lines: seq<Line>)
    requires AllValidated(db.cells)
    ensures AllValidated(Applied(db, mode, Accepted(lines, |lines|)).cells)
  {
    hide Validated, PutAll, Accepted, Unmentioned;
    var cells := Accepted(lines, |lines|);
    AcceptedIsUnique(lines, |lines|);
    PutAllValidated(db, cells);
    var put, after := PutAll(db, cells).cells, Applied(db, mode, cells).cells;
    forall key | key in after
      ensures Validated(after[key])
    {
      CoverageDecides(put[key], after[key]);
    }
  }

  // The import service

  datatype Status = Checked | Rejected | Completed

  datatype Report = Report(status: Status, received: nat, valid: nat, rejected: nat, counts: Counts)

  datatype ImportError = UploadTooLarge | NotRecorded | ApplyFailed

  /** Every line is a cell of its own: what a file must be to reach the inventory. */
  predicate CleanFile(lines: seq<Line>) {
    |Accepted(lines, |lines|)| == |lines|
  }

  class ImportService {
    const store: CellStore

    constructor (store: CellStore)
      ensures this.store == store
    {
      this.store := store;
    }

    /**
     `tooLarge`: the upload exceeds the size limit; `records` and
     `recordsErrors`: the import and its errors can be stored; `applies`: the
     transaction goes through.
     */
    method Import(
      mode: Mode, lines: seq<Line>, tooLarge: bool, records: bool, recordsErrors: bool, applies: bool)
      returns (r: Result<Report, ImportError>)
      modifies store
      ensures tooLarge ==> r == Failure(UploadTooLarge)
      ensures !tooLarge ==>
        && (r == Failure(NotRecorded) <==> !records || (!CleanFile(lines) && !recordsErrors))
        && (r == Failure(ApplyFailed) <==> records && mode != ValidateOnly && CleanFile(lines) && !applies)
        && r != Failure(UploadTooLarge)
      ensures r.Success? ==>
        && r.value.received <= |lines|
        && r.value.valid + r.value.rejected == r.value.received
        && r.value.valid == |Accepted(lines, r.value.received)|
        && (r.value.status == Checked <==> mode == ValidateOnly)
        && (r.value.status == Rejected <==> mode != ValidateOnly && !CleanFile(lines))
        && (r.value.status == Completed ==>
              && r.value.received == |lines| && r.value.rejected == 0
              && r.value.counts == Tally(old(store.Contents()), mode, Accepted(lines, |lines|)))
      ensures store.Contents() ==
        if r.Success? && r.value.status == Completed
        then Applied(old(store.Contents()), mode, Accepted(lines, |lines|))
        else old(store.Contents())
    {
      hide Accepted, Applied, Tally;
      if tooLarge {
        return Failure(UploadTooLarge);
      }
      var result := ParseCsv(lines);
      var none := Counts(0, 0, 0);
      var fatal := result.errors > 0;
      if !records {
        return Failure(NotRecorded);
      }
      if fatal && !recordsErrors {
        return Failure(NotRecorded);
      }
      if mode == ValidateOnly || fatal {
        return Success(Report(if mode == ValidateOnly then Checked else Rejected,
                              result.rows, |result.cells|, result.rows - |result.cells|, none));
      }
      if !applies {
        return Failure(ApplyFailed);
      }
      var counts := store.ApplyImport(mode, result.cells);
      return Success(Report(Completed, result.rows, |result.cells|, result.rows - |result.cells|, counts.value));
    }
  }

  predicate ActiveLine(l: Line, key: Key) {
    Good(l) && l.row.active == Some(true) && key == Key(Plmn(l.row.mcc, l.row.mnc, |l.row.mnc|), l.row.eci.value)
  }

  predicate ActiveIn(t: CellTable, key: Key) {
    key in t && t[key].active
  }

  /** A line is active under a key exactly when the cell it yields is. */
  lemma ActiveLineIs(l: Line, key: Key)
    requires Good(l)
    ensures ActiveLine(l, key) <==> KeyOf(CellOf(l.row)) == key && CellOf(l.row).active
  {
    hide CheckCoverage, MeasuresOk;
  }

  /** A completed replacing import leaves exactly the active lines of the file active. */
  lemma ReplacedInventory(db: Database, lines: seq<Line>, key: Key)
    requires CleanFile(lines) && DigitKeys(db.cells)
    ensures ActiveIn(Applied(db, Replace, Accepted(lines, |lines|)).cells, key)
       <==> exists l :: l in lines && ActiveLine(l, key)
    ensures DigitKeys(Applied(db, Replace, Accepted(lines, |lines|)).cells)
  {
    hide RowOk, CellOf, Applied, Accepted, DigitKey, KeyOf, ActiveLine;
    ErrorFree(lines, |lines|);
    AcceptedIsUnique(lines, |lines|);
    var cells := Accepted(lines, |lines|);
    ActiveAfterReplace(db, cells, key);
    AppliedDigits(db, cells);
    if exists c :: c in cells && KeyOf(c) == key && c.active {
      var i :| 0 <= i < |cells| && KeyOf(cells[i]) == key && cells[i].active;
      ActiveLineIs(lines[i], key);
    }
    if exists l :: l in lines && ActiveLine(l, key) {
      var i :| 0 <= i < |lines| && ActiveLine(lines[i], key);
      ActiveLineIs(lines[i], key);
      assert cells[i] in cells;
    }
  }

  lemma AppliedDigits(db: Database, cells: seq<LteCell>)
    requires DigitKeys(db.cells) && forall c | c in cells :: DigitKey(KeyOf(c))
    ensures DigitKeys(Applied(db, Replace, cells).cells)
  {
    hide DigitKey, PutAll, SeenKeys, CellKey, Unmentioned;
    PutAllKeys(db, cells);
  }
}
