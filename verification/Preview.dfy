/** The selection preview: candidates, exact matching, and the plan for each MME. */
module Preview {
  import opened Wrappers
  import opened Geometry
  import opened Selection
  import opened MmePlans
  import Nesting

  datatype Preview = Preview(version: string, candidateCount: nat, selectedCount: nat, cells: seq<SelectedCell>,
    plans: seq<MmePlan>, warnings: seq<Warning>)

  datatype Warning = VersionUnknown | NoVersionApplied

  datatype PreviewError = UnsupportedPolicy | InvalidArea(error: GeometryError) | QueryFailed

  const CONSERVATIVE_INTERSECTION := "conservative-intersection"

  /** What the store answers about the inventory version: a failure, none yet, or its name. */
  datatype VersionAnswer = VersionFailed | NoVersion | Version(name: string)

  function PlmnFilter(plmn: Plmn): Option<Plmn> {
    if plmn.mcc != "" || plmn.mnc != "" then Some(plmn) else None
  }

  /** Why no preview is given: checked in this order. */
  function PreviewRefusal(policy: string, request: Document, queryWorks: bool): Option<PreviewError> {
    if policy != "" && policy != CONSERVATIVE_INTERSECTION then Some(UnsupportedPolicy)
    else
      match ParseGeometry(request)
      case Failure(e) => Some(InvalidArea(e))
      case Success(_) => if queryWorks then None else Some(QueryFailed)
  }

  /** Exactly the active rows of the network whose box shares a point with the area's. */
  ghost predicate CandidatesExact(candidates: seq<LteCell>, area: Geometry, plmn: Plmn, table: seq<LteCell>) {
    forall c ::
      c in candidates <==> c in table && InNetwork(plmn.mcc, plmn.mnc, c) && BoxesShare(BoundsOf(area), c)
  }

  /** Exactly the reports of the active rows of the network that meet the area, each with its reason. */
  ghost predicate SelectionExact(cells: seq<SelectedCell>, area: Geometry, plmn: Plmn, table: seq<LteCell>) {
    forall s ::
      s in cells
      <==> exists c :: c in table && InNetwork(plmn.mcc, plmn.mnc, c) && Reports(s, c) && Meets(area, c, s.reason)
  }

  ghost predicate AllNested(area: Geometry, table: seq<LteCell>) {
    (forall poly | poly in area :: Nesting.WellNested(poly)) && forall c | c in table :: NestedCoverage(c)
  }

  /** With every row validated the index changes nothing, and the selection is what it is meant to be. */
  lemma PreviewIsExact(area: Geometry, plmn: Plmn, table: seq<LteCell>)
    requires ValidGeometry(area) && forall c | c in table :: Validated(c)
    ensures
      var candidates := FindCandidates(BoundsOf(area), PlmnFilter(plmn), table);
      && SelectAll(area, candidates) == SelectAll(area, FindEligible(PlmnFilter(plmn), table))
      && CandidatesExact(candidates, area, plmn, table)
      && (AllNested(area, table) ==> SelectionExact(SelectAll(area, candidates), area, plmn, table))
  {
    hide EvaluateSpec, Validated, Candidate, ValidGeometry, BoundsOf, BoxesShare, Nesting.WellNested, NestedCoverage,
      Reports, Meets, SelectAll, FindEligible, FindCandidates;
    var filter := PlmnFilter(plmn);
    IndexLosesNothing(area, filter, table);
    BoundsAreProper(area);
    forall c
      ensures c in FindCandidates(BoundsOf(area), filter, table)
        <==> c in table && InNetwork(plmn.mcc, plmn.mnc, c) && BoxesShare(BoundsOf(area), c)
    {
      CandidatesAre(BoundsOf(area), filter, table, c);
    }
    if AllNested(area, table) {
      forall s
        ensures s in SelectAll(area, FindEligible(filter, table))
          <==> exists c :: c in table && InNetwork(plmn.mcc, plmn.mnc, c) && Reports(s, c) && Meets(area, c, s.reason)
      {
        SelectionIsExact(area, plmn.mcc, plmn.mnc, filter, table, s);
      }
    }
  }

  /** The preview pipeline; a request without MCC and MNC searches every PLMN. */
  method SelectionPreview(
    policy: string, request: Document, plmn: Plmn, table: seq<LteCell>, queryWorks: bool, version: VersionAnswer)
    returns (r: Result<Preview, PreviewError>)
    ensures ParseGeometry(request).Success? <==> Parseable(request)
    ensures r.Success? <==> policy in {"", "conservative-intersection"} && ParseGeometry(request).Success? && queryWorks
    ensures r.Failure? ==> PreviewRefusal(policy, request, queryWorks) == Some(r.error)
    ensures r.Success? ==>
      var area := ParseGeometry(request).value;
      var candidates := FindCandidates(BoundsOf(area), PlmnFilter(plmn), table);
      && ParsedFrom(area, request)
      && r.value.candidateCount == |candidates|
      && r.value.cells == SelectAll(area, candidates)
      && r.value.selectedCount == |r.value.cells| <= r.value.candidateCount
      && (forall i | 0 <= i < |r.value.plans| :: PlanFor(r.value.plans[i], plmn, r.value.cells))
      && PlanNames(r.value.plans) == NamesOf(r.value.cells)
      && (forall i, j | 0 <= i < j < |r.value.plans| :: TextLess(r.value.plans[i].mmeName, r.value.plans[j].mmeName))
      && r.value.warnings ==
           (match version
            case VersionFailed => [VersionUnknown]
            case NoVersion => [NoVersionApplied]
            case Version(_) => [])
      && r.value.version == if version.Version? then version.name else "unversioned"
    ensures r.Success? && (forall c | c in table :: Validated(c)) ==>
      var area := ParseGeometry(request).value;
      && r.value.cells == SelectAll(area, FindEligible(PlmnFilter(plmn), table))
      && CandidatesExact(FindCandidates(BoundsOf(area), PlmnFilter(plmn), table), area, plmn, table)
      && (AllNested(area, table) ==> SelectionExact(r.value.cells, area, plmn, table))
  {
    hide ParseGeometry, EvaluateSpec, Validated, Candidate, Eligible, ValidGeometry, BoundsOf, PlanFor, PlanNames,
      NamesOf, TextLess, Parseable, ParsedFrom, PlmnFilter, CandidatesExact, SelectionExact, AllNested, CentreInside,
      CoverageShares;
    ParsedExactly(request);
    if policy != "" && policy != CONSERVATIVE_INTERSECTION {
      return Failure(UnsupportedPolicy);
    }
    var parsed := ParseGeometry(request);
    if parsed.Failure? {
      return Failure(InvalidArea(parsed.error));
    }
    var area := parsed.value;
    ParsedIsValid(request);
    var filter := PlmnFilter(plmn);
    var box := ComputeBounds(area);
    if !queryWorks {
      return Failure(QueryFailed);
    }
    var candidates := FindCandidates(box, filter, table);
    var selected: seq<SelectedCell> := [];
    for i := 0 to |candidates|
      invariant selected == SelectAll(area, candidates[..i]) && |selected| <= i
    {
      var c := candidates[i];
      SelectLast(area, candidates[..i], c);
      assert candidates[..i + 1] == candidates[..i] + [c];
      var reason := Evaluate(area, c);
      if reason.None? {
        continue;
      }
      selected := selected + [Select1(c, reason.value)];
    }
    assert candidates[..|candidates|] == candidates;
    if forall c | c in table :: Validated(c) {
      PreviewIsExact(area, plmn, table);
    }
    var plans := BuildMmePlans(plmn, selected);
    var warnings: seq<Warning>, name := [], "unversioned";
    match version {
      case VersionFailed => warnings := [VersionUnknown];
      case NoVersion => warnings := [NoVersionApplied];
      case Version(v) => name := v;
    }
    return Success(Preview(name, |candidates|, |selected|, selected, plans, warnings));
  }
}
