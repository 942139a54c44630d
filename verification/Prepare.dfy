/**
 Preparing one CAP alert: targeting, serial numbers and pages for each of its
 information blocks.
 */
module Prepare {
  import opened Wrappers
  import opened Bits
  import opened Encoding
  import opened Serials
  import opened Numerals
  import Container
  import Messages

  datatype PrepareError =
    | BadTarget
    | MixedTarget
    | NoTarget
    | Unclassified
    | NotAllocated(allocation: SerialError)
    | NotPaged(page: EncodingError)

  /**
   A CAP information block: the cells and tracking areas its geocodes list,
   the cells its polygons, circles and named geocodes resolve to, and the
   identifier its event is classified as, where these could be found.
   */
  datatype Info = Info(
    geocodeCells: seq<string>, trackingAreas: seq<string>,
    polygonCells: Option<seq<string>>, circleCells: Option<seq<string>>, namedCells: Option<seq<string>>,
    messageId: Option<uint16>, text: seq<rune>, language: string)

  datatype Alert = Alert(identifier: string, msgType: string, references: seq<string>, infos: seq<Info>)

  // Targets

  predicate Distinct(s: seq<string>) {
    forall i, j | 0 <= i < j < |s| :: s[i] != s[j]
  }

  /** a, then what is new in b, in b's order. */
  function Merged(a: seq<string>, b: seq<string>): seq<string>
    decreases |b|
  {
    if b == [] then a
    else
      var init, last := Merged(a, b[..|b| - 1]), b[|b| - 1];
      if last in init then init else init + [last]
  }

  method MergeUnique(a: seq<string>, b: seq<string>) returns (r: seq<string>)
    ensures r == Merged(a, b)
  {
    r := a;
    if |b| == 0 {
      return;
    }
    var seen: set<string> := set v | v in a;
    for i := 0 to |b|
      invariant r == Merged(a, b[..i])
      invariant forall v :: v in seen <==> v in r
    {
      assert b[..i + 1][..i] == b[..i];
      if b[i] !in seen {
        r, seen := r + [b[i]], seen + {b[i]};
      }
    }
    assert b[..|b|] == b;
  }

  /** Merging keeps the first list as it is, adds exactly the second's other elements, and repeats nothing. */
  lemma {:induction false} MergedIsUnion(a: seq<string>, b: seq<string>)
    ensures a <= Merged(a, b)
    ensures forall v :: v in Merged(a, b) <==> v in a || v in b
    ensures Distinct(a) ==> Distinct(Merged(a, b))
    ensures Distinct(a) && Distinct(b) && (forall v | v in b :: v !in a) ==> Merged(a, b) == a + b
    decreases |b|
  {
    if b == [] {
      assert a + b == a;
    } else {
      var init, last := b[..|b| - 1], b[|b| - 1];
      MergedIsUnion(a, init);
      assert b == init + [last];
      assert a + b == (a + init) + [last];
      if Distinct(b) {
        assert forall i | 0 <= i < |init| :: init[i] == b[i] != last;
      }
      assert forall v | v in init :: v in b;
    }
  }

  /** The cells of all four origins, in their order, each once; none if an origin cannot be resolved. */
  function TargetCells(info: Info): Option<seq<string>> {
    if info.polygonCells.None? || info.circleCells.None? || info.namedCells.None? then None
    else
      var shapes := Merged(Merged(info.geocodeCells, info.polygonCells.value), info.circleCells.value);
      Some(Merged(shapes, info.namedCells.value))
  }

  /** One message targets cells or tracking areas, never both, and the whole PLMN only when allowed. */
  function ChooseTarget(info: Info, allowPlmnWide: bool): Result<Container.Target, PrepareError> {
    match TargetCells(info)
    case None => Failure(BadTarget)
    case Some(cells) =>
      if cells != [] && info.trackingAreas != [] then Failure(MixedTarget)
      else if cells != [] then Success(Container.Target(Container.CELL_WIDE, cells, []))
      else if info.trackingAreas != [] then
        Success(Container.Target(Container.TRACKING_AREA_WIDE, [], info.trackingAreas))
      else if allowPlmnWide then Success(Container.Target(Container.PLMN_WIDE, [], []))
      else Failure(NoTarget)
  }

  method FindTarget(info: Info, allowPlmnWide: bool) returns (r: Result<Container.Target, PrepareError>)
    ensures r == ChooseTarget(info, allowPlmnWide)
  {
    hide Merged;
    var cells, tais := info.geocodeCells, info.trackingAreas;
    if info.polygonCells.None? || info.circleCells.None? || info.namedCells.None? {
      return Failure(BadTarget);
    }
    cells := MergeUnique(cells, info.polygonCells.value);
    cells := MergeUnique(cells, info.circleCells.value);
    cells := MergeUnique(cells, info.namedCells.value);
    if |cells| > 0 && |tais| > 0 {
      return Failure(MixedTarget);
    }
    if |cells| > 0 {
      return Success(Container.Target(Container.CELL_WIDE, cells, []));
    }
    if |tais| > 0 {
      return Success(Container.Target(Container.TRACKING_AREA_WIDE, [], tais));
    }
    if allowPlmnWide {
      return Success(Container.Target(Container.PLMN_WIDE, [], []));
    }
    return Failure(NoTarget);
  }

  /** v is a cell some origin resolved. */
  predicate Resolves(info: Info, v: string)
    requires TargetCells(info).Some?
  {
    v in info.geocodeCells || v in info.polygonCells.value || v in info.circleCells.value || v in info.namedCells.value
  }

  /**
   The target is exactly what was resolved: every cell of every origin and no
   other, each once; tracking areas only when there are no cells; the whole
   PLMN only when there is neither and it is allowed.
   */
  lemma TargetIsExact(info: Info, allowPlmnWide: bool)
    requires Distinct(info.geocodeCells) && TargetCells(info).Some?
    ensures
      var t := ChooseTarget(info, allowPlmnWide);
      var anyCell := exists v :: Resolves(info, v);
      && (t.Success? ==>
            && Distinct(t.value.cells)
            && (forall v :: v in t.value.cells <==> Resolves(info, v))
            && t.value.trackingAreas == info.trackingAreas
            && (t.value.scope == 3 <==> anyCell)
            && (t.value.scope == 2 <==> !anyCell && info.trackingAreas != [])
            && (t.value.scope == 1 <==> !anyCell && info.trackingAreas == [] && allowPlmnWide))
      && (t.Failure? <==>
            || (anyCell && info.trackingAreas != [])
            || (!anyCell && info.trackingAreas == [] && !allowPlmnWide))
  {
    hide Merged;
    var one := Merged(info.geocodeCells, info.polygonCells.value);
    var two := Merged(one, info.circleCells.value);
    var cells := Merged(two, info.namedCells.value);
    MergedIsUnion(info.geocodeCells, info.polygonCells.value);
    MergedIsUnion(one, info.circleCells.value);
    MergedIsUnion(two, info.namedCells.value);
    assert forall v :: v in cells <==> Resolves(info, v);
    if cells != [] {
      assert cells[0] in cells;
    }
  }

  // Allocation keys: "<key>/<messageId as %04x>/<scope>"

  function HexDigit(n: nat): char
    requires n < 16
  {
    if n < 10 then ('0' as int + n) as char else ('a' as int + n - 10) as char
  }

  function Hex4(v: uint16): (s: string)
    ensures |s| == 4
  {
    [HexDigit(v / 4096), HexDigit(v / 256 % 16), HexDigit(v / 16 % 16), HexDigit(v % 16)]
  }

  function AllocationKey(key: string, messageId: uint16, scope: octet): string {
    key + "/" + Hex4(messageId) + "/" + Decimal(scope)
  }

  const HEX := "0123456789abcdef"

  /** The key's text: the alert's key, the message identifier as four hexadecimal digits, and the scope. */
  lemma KeyText(key: string, messageId: uint16, scope: octet)
    requires scope < 10
    ensures AllocationKey(key, messageId, scope)
         == key + "/" + [HEX[messageId / 4096], HEX[messageId / 256 % 16], HEX[messageId / 16 % 16],
                         HEX[messageId % 16]] + "/" + [HEX[scope]]
  {
    hide HexDigit;
    HexDigitIs(messageId / 4096);
    HexDigitIs(messageId / 256 % 16);
    HexDigitIs(messageId / 16 % 16);
    HexDigitIs(messageId % 16);
    DecimalIs(scope);
  }

  lemma HexDigitIs(n: nat)
    requires n < 16
    ensures |HEX| == 16 && HexDigit(n) == HEX[n]
  {
  }

  lemma DecimalIs(n: nat)
    requires n < 10
    ensures |HEX| == 16 && Decimal(n) == [HEX[n]]
  {
  }

  lemma Hex4Injective(m: uint16, n: uint16)
    requires Hex4(m) == Hex4(n)
    ensures m == n
  {
    forall a: nat, b: nat | a < 16 && b < 16 && HexDigit(a) == HexDigit(b)
      ensures a == b
    {
    }
    var s, t := Hex4(m), Hex4(n);
    assert s[0] == t[0] && s[1] == t[1] && s[2] == t[2] && s[3] == t[3];
    SixteenBits(m);
    SixteenBits(n);
  }

  lemma SixteenBits(v: uint16)
    ensures v == (v / 4096) * 4096 + (v / 256 % 16) * 256 + (v / 16 % 16) * 16 + v % 16
  {
    assert v / 16 / 16 == v / 256 && v / 256 / 16 == v / 4096;
  }

  /** Different alerts, message identifiers or scopes never share an allocation key, whatever the alert's name. */
  lemma AllocationKeyInjective(k1: string, m1: uint16, s1: octet, k2: string, m2: uint16, s2: octet)
    requires AllocationKey(k1, m1, s1) == AllocationKey(k2, m2, s2)
    ensures k1 == k2 && m1 == m2 && s1 == s2
  {
    hide Hex4, Decimal, HexDigit;
    LastSeparator(k1 + "/" + Hex4(m1), Decimal(s1), k2 + "/" + Hex4(m2), Decimal(s2), '/');
    DecimalInjective(s1, s2);
    var a, b := k1 + "/" + Hex4(m1), k2 + "/" + Hex4(m2);
    assert |k1| == |k2|;
    assert a[..|k1|] == k1 && b[..|k2|] == k2;
    assert a[|k1| + 1..] == Hex4(m1) && b[|k2| + 1..] == Hex4(m2);
    Hex4Injective(m1, m2);
  }

  // Preparing

  predicate IsUpdate(a: Alert) {
    a.msgType == "Update" && a.references != []
  }

  /** An update keeps using the allocation of the first alert it references. */
  function BaseKey(a: Alert): string {
    if IsUpdate(a) then a.references[0] else a.identifier
  }

  datatype Progress = Progress(table: Table, serials: map<string, uint16>, error: Option<PrepareError>)

  predicate Resolved(info: Info, allowPlmnWide: bool) {
    ChooseTarget(info, allowPlmnWide).Success? && info.messageId.Some?
  }

  function CallFor(a: Alert, info: Info, allowPlmnWide: bool): Call
    requires Resolved(info, allowPlmnWide)
  {
    var scope := ChooseTarget(info, allowPlmnWide).value.scope;
    Call(AllocationKey(BaseKey(a), info.messageId.value, scope), info.messageId.value, scope, IsUpdate(a))
  }

  /** The table, the serials and the first error once the first n blocks are done. */
  function Prepared(t: Table, a: Alert, allowPlmnWide: bool, n: nat): Progress
    requires n <= |a.infos|
  {
    if n == 0 then Progress(t, map[], None)
    else
      var p := Prepared(t, a, allowPlmnWide, n - 1);
      if p.error.Some? then p else PrepareOne(p, a, a.infos[n - 1], allowPlmnWide)
  }

  function PrepareOne(p: Progress, a: Alert, info: Info, allowPlmnWide: bool): Progress {
    var target := ChooseTarget(info, allowPlmnWide);
    if target.Failure? then p.(error := Some(target.error))
    else if info.messageId.None? then p.(error := Some(Unclassified))
    else
      var call := CallFor(a, info, allowPlmnWide);
      var q := AllocateOnce(p, call);
      if q.error.None? && !Accepts(info.text) then q.(error := Some(NotPaged(Refusal(info.text)))) else q
  }

  /** The memo: a key is allocated at most once per alert. */
  function AllocateOnce(p: Progress, call: Call): Progress {
    if call.key in p.serials then p
    else
      var done := Allocate(p.table, call);
      match done.result
      case Failure(e) => p.(error := Some(NotAllocated(e)))
      case Success(serial) => Progress(done.table, p.serials[call.key := serial], None)
  }

  class Preparer {
    const allowPlmnWide: bool
    const store: SerialStore

    constructor (allowPlmnWide: bool, store: SerialStore)
      ensures this.allowPlmnWide == allowPlmnWide && this.store == store
    {
      this.allowPlmnWide := allowPlmnWide;
      this.store := store;
    }

    /** Message m carries block i: its identifier, target and memoised serial, and the pages of its text. */
    ghost predicate Carries(m: Container.Message, a: Alert, i: nat, serials: map<string, uint16>)
      requires i < |a.infos|
    {
      var info := a.infos[i];
      && Resolved(info, allowPlmnWide)
      && CallFor(a, info, allowPlmnWide).key in serials
      && m.infoIndex == i
      && Some(m.messageId) == info.messageId
      && Success(m.target) == ChooseTarget(info, allowPlmnWide)
      && m.serial == serials[CallFor(a, info, allowPlmnWide).key]
      && IsEncoding(info.text, info.language, Content(m.pages, m.dcs, m.alphabet))
    }

    method Prepare(a: Alert) returns (r: Result<seq<Container.Message>, PrepareError>)
      modifies store
      ensures a.msgType == "Cancel" ==> r == Success([]) && store.allocations == old(store.allocations)
      ensures a.msgType != "Cancel" ==>
        var p := Prepared(old(store.allocations), a, allowPlmnWide, |a.infos|);
        && store.allocations == p.table
        && (r.Failure? <==> p.error.Some?)
        && (r.Failure? ==> p.error == Some(r.error))
        && (r.Success? ==>
              |r.value| == |a.infos| && forall i | 0 <= i < |a.infos| :: Carries(r.value[i], a, i, p.serials))
    {
      hide PrepareOne, Prepared, Carries;
      if a.msgType == "Cancel" {
        return Success([]);
      }
      var plan: seq<Container.Message> := [];
      var serials: map<string, uint16> := map[];
      ghost var t := store.allocations;
      NothingPrepared(t, a, allowPlmnWide);
      for i := 0 to |a.infos|
        invariant |plan| == i
        invariant Prepared(t, a, allowPlmnWide, i) == Progress(store.allocations, serials, None)
        invariant forall k | 0 <= k < i :: Carries(plan[k], a, k, serials)
      {
        PreparedStep(t, a, allowPlmnWide, i);
        ghost var before := serials;
        var message;
        message, serials := PrepareInfo(a, i, serials);
        if message.Failure? {
          return Failure(message.error);
        }
        CarriesStill(plan, a, before, serials);
        plan := plan + [message.value];
      }
      return Success(plan);
    }

    method PrepareInfo(a: Alert, i: nat, memo: map<string, uint16>)
      returns (r: Result<Container.Message, PrepareError>, serials: map<string, uint16>)
      requires i < |a.infos|
      modifies store
      ensures
        var q := PrepareOne(Progress(old(store.allocations), memo, None), a, a.infos[i], allowPlmnWide);
        && store.allocations == q.table && serials == q.serials
        && (r.Failure? <==> q.error.Some?)
        && (r.Failure? ==> q.error == Some(r.error))
        && (r.Success? ==> Carries(r.value, a, i, serials))
      ensures forall key | key in memo :: key in serials && serials[key] == memo[key]
    {
      hide Allocate, Accepts, Refusal, AllocationKey, ChooseTarget, Received, UnitCount, IsEncoding;
      serials := memo;
      var info := a.infos[i];
      var target := FindTarget(info, allowPlmnWide);
      if target.Failure? {
        return Failure(target.error), serials;
      }
      if info.messageId.None? {
        return Failure(Unclassified), serials;
      }
      var allocationKey := AllocationKey(BaseKey(a), info.messageId.value, target.value.scope);
      FailedLeavesTable(store.allocations, CallFor(a, info, allowPlmnWide));
      if allocationKey !in serials {
        var serial := store.AllocateCBSSerial(allocationKey, info.messageId.value, target.value.scope, IsUpdate(a));
        if serial.Failure? {
          return Failure(NotAllocated(serial.error)), serials;
        }
        serials := serials[allocationKey := serial.value];
      }
      var content := Encode(info.text, info.language);
      if content.Failure? {
        return Failure(NotPaged(content.error)), serials;
      }
      var m := Container.Message(
        i, info.messageId.value, serials[allocationKey], content.value.dcs, content.value.alphabet,
        target.value, content.value.pages);
      return Success(m), serials;
    }

    /** Whatever text was prepared is what the receiver of its request reads, identifiers and coding scheme included. */
    lemma PreparedTextIsReceived(
      m: Container.Message, a: Alert, i: nat, serials: map<string, uint16>, repetition: uint16, broadcasts: uint16,
      plmn: string, parse: string -> Option<Container.uint32>, pdu: seq<octet>)
      requires i < |a.infos| && Carries(m, a, i, serials)
      requires Container.IsWriteReplace(m, repetition, broadcasts, plmn, parse, pdu)
      ensures
        var request := Messages.ReadWriteReplace(pdu);
        && request.Success?
        && Some(request.value.ids.messageId) == a.infos[i].messageId
        && request.value.ids.serial == serials[CallFor(a, a.infos[i], allowPlmnWide).key]
        && Container.ReceivedText(request.value.contents, request.value.dcs, UnitCount(a.infos[i].text))
          == Some(a.infos[i].text)
    {
      hide Messages.ReadWriteReplace, Container.IsWriteReplace, Container.ReceivedText, IsEncoding, UnitCount,
        AllocationKey, ChooseTarget;
      Container.TextReachesTheReceiver(
        a.infos[i].text, a.infos[i].language, m, repetition, broadcasts, plmn, parse, pdu);
    }

    /** Later allocations do not disturb the messages already planned. */
    lemma CarriesStill(plan: seq<Container.Message>, a: Alert, before: map<string, uint16>, after: map<string, uint16>)
      requires |plan| <= |a.infos|
      requires forall k | 0 <= k < |plan| :: Carries(plan[k], a, k, before)
      requires forall key | key in before :: key in after && after[key] == before[key]
      ensures forall k | 0 <= k < |plan| :: Carries(plan[k], a, k, after)
    {
      hide IsEncoding, ChooseTarget, AllocationKey;
    }
  }

  lemma NothingPrepared(t: Table, a: Alert, allowPlmnWide: bool)
    ensures Prepared(t, a, allowPlmnWide, 0) == Progress(t, map[], None)
  {
  }

  /** Block i is prepared after the first i succeed; an error there ends the preparation. */
  lemma PreparedStep(t: Table, a: Alert, allowPlmnWide: bool, i: nat)
    requires i < |a.infos| && Prepared(t, a, allowPlmnWide, i).error.None?
    ensures
      var q := PrepareOne(Prepared(t, a, allowPlmnWide, i), a, a.infos[i], allowPlmnWide);
      && Prepared(t, a, allowPlmnWide, i + 1) == q
      && (q.error.Some? ==> Prepared(t, a, allowPlmnWide, |a.infos|) == q)
  {
    hide PrepareOne;
    if Prepared(t, a, allowPlmnWide, i + 1).error.Some? {
      ErrorStays(t, a, allowPlmnWide, i + 1, |a.infos|);
    }
  }

  lemma {:induction false} ErrorStays(t: Table, a: Alert, allowPlmnWide: bool, i: nat, n: nat)
    requires i <= n <= |a.infos| && Prepared(t, a, allowPlmnWide, i).error.Some?
    ensures Prepared(t, a, allowPlmnWide, n) == Prepared(t, a, allowPlmnWide, i)
  {
    hide PrepareOne;
    if i < n {
      ErrorStays(t, a, allowPlmnWide, i, n - 1);
    }
  }

  lemma FailedLeavesTable(t: Table, c: Call)
    ensures Allocate(t, c).result.Failure? ==> Allocate(t, c).table == t
  {
    hide Granted, Serial, Group;
  }

  /** What one preparation may do to one key. */
  ghost predicate AdvancedOnce(before: Table, after: Table, serials: map<string, uint16>, key: string, update: bool) {
    if key in serials then
      && key in after
      && serials[key] == Serial(after[key])
      && (key in before ==>
            after[key] == if update then before[key].(number := (before[key].number + 1) % 16) else before[key])
      && (key !in before ==> after[key].number == 0)
    else
      (key in after <==> key in before) && (key in after ==> after[key] == before[key])
  }

  lemma AllocateOnceAdvances(t: Table, p: Progress, call: Call, key: string)
    requires AdvancedOnce(t, p.table, p.serials, key, call.update)
    requires AdvancedOnce(t, p.table, p.serials, call.key, call.update)
    ensures AdvancedOnce(t, AllocateOnce(p, call).table, AllocateOnce(p, call).serials, key, call.update)
  {
    hide Serial, MaxCode, Group, Codes;
  }

  /** However many blocks an alert has, each allocation it touches advances at most once, and no other changes. */
  lemma {:induction false} EachAllocationAdvancesOnce(t: Table, a: Alert, allowPlmnWide: bool, n: nat, key: string)
    requires n <= |a.infos|
    ensures
      var p := Prepared(t, a, allowPlmnWide, n);
      AdvancedOnce(t, p.table, p.serials, key, IsUpdate(a))
  {
    hide AdvancedOnce, Allocate, Accepts, Refusal, ChooseTarget, AllocateOnce, AllocationKey;
    if n == 0 {
      assert AdvancedOnce(t, t, map[], key, IsUpdate(a)) by { Untouched(t, key, IsUpdate(a)); }
    } else {
      var p, info := Prepared(t, a, allowPlmnWide, n - 1), a.infos[n - 1];
      EachAllocationAdvancesOnce(t, a, allowPlmnWide, n - 1, key);
      if Resolved(info, allowPlmnWide) {
        var call := CallFor(a, info, allowPlmnWide);
        EachAllocationAdvancesOnce(t, a, allowPlmnWide, n - 1, call.key);
        AllocateOnceAdvances(t, p, call, key);
      }
    }
  }

  lemma Untouched(t: Table, key: string, update: bool)
    ensures AdvancedOnce(t, t, map[], key, update)
  {
  }

  /** Every key of the table is one that Prepare would build for its own allocation. */
  ghost predicate PreparedKeys(t: Table) {
    forall key | key in t :: exists base :: key == AllocationKey(base, t[key].messageId, t[key].scope)
  }

  lemma CompatibleCall(t: Table, a: Alert, info: Info, allowPlmnWide: bool)
    requires PreparedKeys(t) && Resolved(info, allowPlmnWide)
    ensures Compatible(t, CallFor(a, info, allowPlmnWide))
  {
    hide AllocationKey;
    var c := CallFor(a, info, allowPlmnWide);
    if c.key in t {
      var base :| c.key == AllocationKey(base, t[c.key].messageId, t[c.key].scope);
      AllocationKeyInjective(base, t[c.key].messageId, t[c.key].scope, BaseKey(a), c.messageId, c.scope);
    }
  }

  lemma AllocateKeepsKeys(t: Table, c: Call, base: string)
    requires PreparedKeys(t) && c.key == AllocationKey(base, c.messageId, c.scope)
    ensures PreparedKeys(Allocate(t, c).table)
  {
    hide AllocationKey, Serial, MaxCode, Group, Codes;
  }

  /** On a table only Prepare has written, the allocator's incompatibility error cannot occur. */
  lemma {:induction false} NeverIncompatible(t: Table, a: Alert, allowPlmnWide: bool, n: nat)
    requires n <= |a.infos| && PreparedKeys(t)
    ensures
      var p := Prepared(t, a, allowPlmnWide, n);
      PreparedKeys(p.table) && p.error != Some(NotAllocated(IncompatibleKey))
  {
    hide PrepareOne, PreparedKeys;
    if n > 0 {
      NeverIncompatible(t, a, allowPlmnWide, n - 1);
      var p := Prepared(t, a, allowPlmnWide, n - 1);
      if p.error.None? {
        PrepareOneKeys(p, a, a.infos[n - 1], allowPlmnWide);
      }
    }
  }

  lemma PrepareOneKeys(p: Progress, a: Alert, info: Info, allowPlmnWide: bool)
    requires PreparedKeys(p.table) && p.error.None?
    ensures
      var q := PrepareOne(p, a, info, allowPlmnWide);
      PreparedKeys(q.table) && q.error != Some(NotAllocated(IncompatibleKey))
  {
    hide AllocationKey, Serial, MaxCode, Group, Codes, Accepts, PreparedKeys, Granted, Refusal;
    if Resolved(info, allowPlmnWide) {
      CompatibleCall(p.table, a, info, allowPlmnWide);
      AllocateKeepsKeys(p.table, CallFor(a, info, allowPlmnWide), BaseKey(a));
    }
  }

  /** The allocations left by a series of alerts, starting with none. */
  function PreparedAll(alerts: seq<Alert>, allowPlmnWide: bool): Table
    decreases |alerts|
  {
    if alerts == [] then map[]
    else
      var a := alerts[|alerts| - 1];
      var t := PreparedAll(alerts[..|alerts| - 1], allowPlmnWide);
      if a.msgType == "Cancel" then t else Prepared(t, a, allowPlmnWide, |a.infos|).table
  }

  /** However many alerts were prepared before, the incompatibility error is unreachable. */
  lemma {:induction false} IncompatibleIsUnreachable(alerts: seq<Alert>, allowPlmnWide: bool, a: Alert)
    ensures
      var t := PreparedAll(alerts, allowPlmnWide);
      && PreparedKeys(t)
      && Prepared(t, a, allowPlmnWide, |a.infos|).error != Some(NotAllocated(IncompatibleKey))
    decreases |alerts|
  {
    hide Prepared;
    if alerts != [] {
      var last := alerts[|alerts| - 1];
      IncompatibleIsUnreachable(alerts[..|alerts| - 1], allowPlmnWide, last);
      NeverIncompatible(PreparedAll(alerts[..|alerts| - 1], allowPlmnWide), last, allowPlmnWide, |last.infos|);
    }
    NeverIncompatible(PreparedAll(alerts, allowPlmnWide), a, allowPlmnWide, |a.infos|);
  }
}
