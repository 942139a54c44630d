/**
 Answering an eNB restart: which stored broadcasts are sent again, and to
 which of their cells or tracking areas.
 */
module Rebroadcast {
  import opened Wrappers
  import opened Bits
  import opened Container
  import opened Encoding
  import Alerts
  import Elements
  import Messages
  import Restart

  datatype Config = Config(plmn: string, repetition: uint16, broadcasts: uint16)

  /** What restarted: cells by their 28-bit identity, tracking areas by their 16-bit code. */
  datatype Restarted = Restarted(ecis: set<uint32>, tacs: set<uint16>)

  function RestartedOf(ri: Restart.RestartIndication): Restarted {
    Restarted(set c | c in ri.cells :: c.eci, set t | t in ri.tais :: t.tac)
  }

  /** Whether a stored value names a restarted cell; a tracking area is compared by its low 16 bits. */
  predicate Hit(v: string, scope: octet, restarted: Restarted, parse: string -> Option<uint32>) {
    match parse(v)
    case None => false
    case Some(id) => if scope == CELL_WIDE then id in restarted.ecis else id % 0x1_0000 in restarted.tacs
  }

  function Overlap(
      values: seq<string>, scope: octet, restarted: Restarted, parse: string -> Option<uint32>): seq<string> {
    if values == [] then []
    else
      var n := |values| - 1;
      Overlap(values[..n], scope, restarted, parse) +
        if Hit(values[n], scope, restarted, parse) then [values[n]] else []
  }

  function Narrowed(t: Target, restarted: Restarted, parse: string -> Option<uint32>): Option<Target> {
    var overlap := Overlap(TargetValues(t), t.scope, restarted, parse);
    if t.scope == CELL_WIDE && overlap != [] then Some(Target(CELL_WIDE, overlap, []))
    else if t.scope == TRACKING_AREA_WIDE && overlap != [] then Some(Target(TRACKING_AREA_WIDE, [], overlap))
    else None
  }

  method NarrowTargetToRestart(t: Target, restarted: Restarted, parse: string -> Option<uint32>)
    returns (r: Option<Target>)
    ensures r == Narrowed(t, restarted, parse)
  {
    var overlap: seq<string> := [];
    if t.scope == CELL_WIDE {
      for i := 0 to |t.cells|
        invariant overlap == Overlap(t.cells[..i], CELL_WIDE, restarted, parse)
      {
        assert t.cells[..i + 1][..i] == t.cells[..i];
        var v := parse(t.cells[i]);
        if v.None? {
          continue;
        }
        if v.value in restarted.ecis {
          overlap := overlap + [t.cells[i]];
        }
      }
      assert t.cells[..|t.cells|] == t.cells;
      if |overlap| == 0 {
        return None;
      }
      return Some(Target(CELL_WIDE, overlap, []));
    } else if t.scope == TRACKING_AREA_WIDE {
      for i := 0 to |t.trackingAreas|
        invariant overlap == Overlap(t.trackingAreas[..i], TRACKING_AREA_WIDE, restarted, parse)
      {
        assert t.trackingAreas[..i + 1][..i] == t.trackingAreas[..i];
        var v := parse(t.trackingAreas[i]);
        if v.None? {
          continue;
        }
        if v.value % 0x1_0000 in restarted.tacs {
          overlap := overlap + [t.trackingAreas[i]];
        }
      }
      assert t.trackingAreas[..|t.trackingAreas|] == t.trackingAreas;
      if |overlap| == 0 {
        return None;
      }
      return Some(Target(TRACKING_AREA_WIDE, [], overlap));
    }
    return None;
  }

  // What is sent

  /** The identifiers a stored target names, in order. */
  function StoredIds(values: seq<string>, parse: string -> Option<uint32>): seq<uint32> {
    if values == [] then []
    else
      var n := |values| - 1;
      StoredIds(values[..n], parse) + match parse(values[n]) { case None => [] case Some(id) => [id] }
  }

  /** Those of them that restarted, compared in full. */
  function RestartedIds(ids: seq<uint32>, scope: octet, restarted: Restarted): seq<uint32> {
    if ids == [] then []
    else
      var n := |ids| - 1;
      RestartedIds(ids[..n], scope, restarted) + if InRestart(ids[n], scope, restarted) then [ids[n]] else []
  }

  predicate InRestart(id: uint32, scope: octet, restarted: Restarted) {
    if scope == CELL_WIDE then id in restarted.ecis else id <= 0xffff && id in restarted.tacs
  }

  lemma RestartedIdsOfMore(ids: seq<uint32>, id: uint32, scope: octet, restarted: Restarted)
    ensures RestartedIds(ids + [id], scope, restarted)
         == RestartedIds(ids, scope, restarted) + if InRestart(id, scope, restarted) then [id] else []
  {
    assert (ids + [id])[..|ids|] == ids;
  }

  /** A code of at most 16 bits is compared in full. */
  lemma HitInFull(v: string, scope: octet, restarted: Restarted, parse: string -> Option<uint32>)
    requires parse(v).Some?
    ensures InRestart(parse(v).value, scope, restarted) ==> Hit(v, scope, restarted, parse)
    ensures Hit(v, scope, restarted, parse) && (scope != CELL_WIDE ==> parse(v).value <= 0xffff) ==>
      InRestart(parse(v).value, scope, restarted)
  {
  }

  lemma {:induction false} OverlapIds(
    values: seq<string>, scope: octet, restarted: Restarted, parse: string -> Option<uint32>, ids: seq<uint32>)
    requires
      var overlap := Overlap(values, scope, restarted, parse);
      |ids| == |overlap| && forall i | 0 <= i < |ids| :: parse(overlap[i]) == Some(ids[i])
    requires scope != CELL_WIDE ==> forall i | 0 <= i < |ids| :: ids[i] <= 0xffff
    ensures ids == RestartedIds(StoredIds(values, parse), scope, restarted)
    decreases |values|
  {
    hide Hit, InRestart, RestartedIds;
    if values == [] {
      assert RestartedIds([], scope, restarted) == [] by { NoneRestarted(scope, restarted); }
    } else {
      var n, m := |values| - 1, |ids| - 1;
      var before, overlap := Overlap(values[..n], scope, restarted, parse), Overlap(values, scope, restarted, parse);
      var stored := StoredIds(values[..n], parse);
      if Hit(values[n], scope, restarted, parse) {
        assert overlap[m] == values[n];
        assert overlap[..m] == before;
        OverlapIds(values[..n], scope, restarted, parse, ids[..m]);
        HitInFull(values[n], scope, restarted, parse);
        RestartedIdsOfMore(stored, ids[m], scope, restarted);
        assert ids == ids[..m] + [ids[m]];
      } else {
        assert overlap == before;
        OverlapIds(values[..n], scope, restarted, parse, ids);
        if parse(values[n]).None? {
          assert StoredIds(values, parse) == stored;
        } else {
          HitInFull(values[n], scope, restarted, parse);
          RestartedIdsOfMore(stored, parse(values[n]).value, scope, restarted);
        }
      }
    }
  }

  lemma NoneRestarted(scope: octet, restarted: Restarted)
    ensures RestartedIds([], scope, restarted) == []
  {
  }

  /**
   What the receiver of a re-sent request finds: the stored identifiers,
   coding scheme and pages, and an area of these ids.
   */
  ghost predicate Conveys(pdu: seq<octet>, m: Message, config: Config, ids: seq<uint32>) {
    var request := Messages.ReadWriteReplace(pdu);
    && request.Success?
    && request.value.ids == Messages.Ids(m.messageId, m.serial)
    && request.value.dcs == m.dcs
    && |m.pages| <= MAX_PAGES && (forall p | p in m.pages :: |p.data| == PAGE_OCTETS)
    && request.value.contents == Contents(m.pages, m.alphabet)
    && exists plmn ::
      && PlmnTbcd(config.plmn) == Success(plmn)
      && request.value.area == Some(AreaNaming(m.target.scope, plmn, ids))
  }

  function AreaNaming(scope: octet, plmn: seq<octet>, ids: seq<uint32>): Elements.WarningArea {
    if scope == CELL_WIDE then Elements.WarningArea(true, plmn, ids, [])
    else Elements.WarningArea(false, plmn, [], seq(|ids|, i requires 0 <= i < |ids| => ids[i] % 0x1_0000))
  }

  /**
   What is re-sent for a stored message: the same identifiers, coding scheme
   and contents, and an area naming exactly those of the message's cells or
   tracking areas that restarted, in the stored order, at least one, and
   never the whole PLMN.
   */
  lemma ResentIsExact(
    m: Message, t: Target, restarted: Restarted, config: Config, parse: string -> Option<uint32>, pdu: seq<octet>)
    requires Narrowed(m.target, restarted, parse) == Some(t)
    requires IsWriteReplace(m.(target := t), config.repetition, config.broadcasts, config.plmn, parse, pdu)
    ensures m.target.scope == CELL_WIDE || m.target.scope == TRACKING_AREA_WIDE
    ensures
      var ids := RestartedIds(StoredIds(TargetValues(m.target), parse), m.target.scope, restarted);
      ids != [] && (m.target.scope != CELL_WIDE ==> forall i | 0 <= i < |ids| :: ids[i] <= 0xffff)
        && Conveys(pdu, m, config, ids)
  {
    hide Messages.ReadWriteReplace, Contents, PlmnTbcd, Overlap, StoredIds, RestartedIds, Messages.WriteReplaceTarget,
      PagesOk;
    var contents := Contents(m.pages, m.alphabet);
    var wire :|
      && IsTargetWire(t, config.plmn, parse, wire)
      && Messages.WriteReplaceTarget(
           m.messageId, m.serial, m.dcs, contents, config.repetition, config.broadcasts, t.scope, wire.plmn, wire.ids)
             == Success(pdu);
    Messages.WriteReplaceReadBack(
      m.messageId, m.serial, m.dcs, contents, config.repetition, config.broadcasts, t.scope, wire.plmn, wire.ids);
    Messages.WriteReplaceAccepts(
      m.messageId, m.serial, m.dcs, contents, config.repetition, config.broadcasts, t.scope, wire.plmn, wire.ids);
    AreaIds(t.scope, wire.plmn, wire.ids);
    OverlapIds(TargetValues(m.target), m.target.scope, restarted, parse, wire.ids);
  }

  /** A stored code that only matches in its low 16 bits makes the request unencodable, so it reaches nobody. */
  lemma WrappedCodeReachesNobody(
    m: Message, t: Target, restarted: Restarted, config: Config, parse: string -> Option<uint32>, pdu: seq<octet>,
      i: nat)
    requires m.target.scope == TRACKING_AREA_WIDE && Narrowed(m.target, restarted, parse) == Some(t)
    requires i < |t.trackingAreas| && parse(t.trackingAreas[i]).Some? && parse(t.trackingAreas[i]).value > 0xffff
    ensures !IsWriteReplace(m.(target := t), config.repetition, config.broadcasts, config.plmn, parse, pdu)
  {
    hide Contents, PlmnTbcd, Overlap, Messages.WriteReplaceTarget, PagesOk;
    if IsWriteReplace(m.(target := t), config.repetition, config.broadcasts, config.plmn, parse, pdu) {
      var contents := Contents(m.pages, m.alphabet);
      var wire :|
        && IsTargetWire(t, config.plmn, parse, wire)
        && Messages.WriteReplaceTarget(
             m.messageId, m.serial, m.dcs, contents, config.repetition, config.broadcasts, t.scope, wire.plmn,
               wire.ids) == Success(pdu);
      assert wire.ids[i] in wire.ids;
      Messages.WriteReplaceAccepts(
        m.messageId, m.serial, m.dcs, contents, config.repetition, config.broadcasts, t.scope, wire.plmn, wire.ids);
    }
  }

  lemma AreaIds(scope: octet, plmn: seq<octet>, ids: seq<uint32>)
    requires scope == CELL_WIDE || scope == TRACKING_AREA_WIDE
    requires Messages.IdsInRange(scope, ids)
    ensures Messages.AreaOf(scope, plmn, ids) == Some(AreaNaming(scope, plmn, ids))
    ensures scope == TRACKING_AREA_WIDE ==> forall i | 0 <= i < |ids| :: ids[i] <= 0xffff
  {
    hide Messages.NarrowTacs;
    if scope == TRACKING_AREA_WIDE {
      assert forall i | 0 <= i < |ids| :: ids[i] in ids;
      assert Messages.NarrowTacs(ids).value == AreaNaming(scope, plmn, ids).tacs;
    }
  }

  // Handling one indication

  datatype Request = Request(alertId: string, messageId: uint16, serial: uint16, pdu: seq<octet>)

  type Plans = map<string, seq<Message>>

  /** The request for one stored message, if any of its area restarted and it can be encoded. */
  ghost function Resent(
    id: string, m: Message, restarted: Restarted, config: Config, parse: string -> Option<uint32>): seq<Request>
  {
    match Narrowed(m.target, restarted, parse)
    case None => []
    case Some(t) =>
      var narrowed := m.(target := t);
      if exists pdu :: IsWriteReplace(narrowed, config.repetition, config.broadcasts, config.plmn, parse, pdu) then
        var pdu :| IsWriteReplace(narrowed, config.repetition, config.broadcasts, config.plmn, parse, pdu);
        [Request(id, m.messageId, m.serial, pdu)]
      else []
  }

  ghost function ResentAll(
    id: string, plan: seq<Message>, restarted: Restarted, config: Config, parse: string -> Option<uint32>): seq<Request>
  {
    if plan == [] then []
    else
      var n := |plan| - 1;
      ResentAll(id, plan[..n], restarted, config, parse) + Resent(id, plan[n], restarted, config, parse)
  }

  ghost function ResentFor(
    records: seq<Alerts.Record>, plans: Plans, restarted: Restarted, config: Config,
      parse: string -> Option<uint32>): seq<Request>
  {
    if records == [] then []
    else
      var n := |records| - 1;
      var r := records[n];
      ResentFor(records[..n], plans, restarted, config, parse) +
        if r.state.Active? && r.alert.identifier in plans
        then ResentAll(r.alert.identifier, plans[r.alert.identifier], restarted, config, parse) else []
  }

  /** An indication from an eNB of another network. */
  predicate ForeignPlmn(ri: Restart.RestartIndication, config: Config) {
    PlmnTbcd(config.plmn).Success? && |ri.enb.plmn| == 3 && PlmnTbcd(config.plmn).value != ri.enb.plmn
  }

  lemma OnePdu(m: Message, config: Config, parse: string -> Option<uint32>, a: seq<octet>, b: seq<octet>)
    requires IsWriteReplace(m, config.repetition, config.broadcasts, config.plmn, parse, a)
    requires IsWriteReplace(m, config.repetition, config.broadcasts, config.plmn, parse, b)
    ensures a == b
  {
    hide IsTargetWire, Contents, Messages.WriteReplaceTarget, PagesOk;
    forall v: Wire, w: Wire | IsTargetWire(m.target, config.plmn, parse, v)
      && IsTargetWire(m.target, config.plmn, parse, w)
      ensures v == w
    {
      OneWire(m.target, config.plmn, parse, v, w);
    }
  }

  /** Hands each request to the association in turn; how a send ends does not affect the others. */
  method HandleRestart(
    ri: Restart.RestartIndication, records: Option<seq<Alerts.Record>>, plans: Plans,
    config: Config, parse: string -> Option<uint32>)
    returns (sent: seq<Request>)
    ensures sent ==
      if ForeignPlmn(ri, config) || records.None? then []
      else ResentFor(records.value, plans, RestartedOf(ri), config, parse)
    ensures !ForeignPlmn(ri, config) && records.Some? ==>
      forall q :: q in sent <==> exists r, m :: r in records.value && Owed(q, r, m, plans, ri, config, parse)
  {
    hide PlmnTbcd, Owed;
    sent := [];
    var plmn := PlmnTbcd(config.plmn);
    if plmn.Success? && |ri.enb.plmn| == 3 {
      if plmn.value != ri.enb.plmn {
        return;
      }
    }
    var restarted := RestartedOf(ri);
    if records.None? {
      return;
    }
    var all := records.value;
    for i := 0 to |all|
      invariant sent == ResentFor(all[..i], plans, restarted, config, parse)
    {
      assert all[..i + 1][..i] == all[..i];
      if all[i].state != Alerts.Active {
        continue;
      }
      var id := all[i].alert.identifier;
      if id !in plans {
        continue;
      }
      var requests := ResendPlan(id, plans[id], restarted, config, parse);
      sent := sent + requests;
    }
    assert all[..|all|] == all;
    forall q
      ensures q in sent <==> exists r, m :: r in all && Owed(q, r, m, plans, ri, config, parse)
    {
      SentExactlyForActive(all, plans, ri, config, parse, q);
    }
  }

  method ResendPlan(
    id: string, plan: seq<Message>, restarted: Restarted, config: Config, parse: string -> Option<uint32>)
    returns (sent: seq<Request>)
    ensures sent == ResentAll(id, plan, restarted, config, parse)
  {
    hide IsWriteReplace, Narrowed;
    sent := [];
    for i := 0 to |plan|
      invariant sent == ResentAll(id, plan[..i], restarted, config, parse)
    {
      assert plan[..i + 1][..i] == plan[..i];
      var m := plan[i];
      var narrowed := NarrowTargetToRestart(m.target, restarted, parse);
      if narrowed.None? {
        continue;
      }
      var narrowedMessage := m.(target := narrowed.value);
      var pdu := SbcapWriteReplace(narrowedMessage, config.repetition, config.broadcasts, config.plmn, parse);
      if pdu.Failure? {
        continue;
      }
      forall other | IsWriteReplace(narrowedMessage, config.repetition, config.broadcasts, config.plmn, parse, other)
        ensures other == pdu.value
      {
        OnePdu(narrowedMessage, config, parse, other, pdu.value);
      }
      sent := sent + [Request(id, m.messageId, m.serial, pdu.value)];
    }
    assert plan[..|plan|] == plan;
  }

  /** q answers message m of an active alert's plan. */
  ghost predicate Answers(
    q: Request, r: Alerts.Record, m: Message, plans: Plans, restarted: Restarted, config: Config,
      parse: string -> Option<uint32>)
  {
    && r.state.Active?
    && r.alert.identifier in plans && m in plans[r.alert.identifier]
    && Narrowed(m.target, restarted, parse).Some?
    && IsWriteReplace(
         m.(target := Narrowed(m.target, restarted, parse).value), config.repetition, config.broadcasts, config.plmn,
           parse, q.pdu)
    && q == Request(r.alert.identifier, m.messageId, m.serial, q.pdu)
  }

  lemma {:induction false} PlanRequests(
    id: string, plan: seq<Message>, restarted: Restarted, config: Config, parse: string -> Option<uint32>, q: Request)
    ensures q in ResentAll(id, plan, restarted, config, parse)
       <==> exists m :: m in plan && q in Resent(id, m, restarted, config, parse)
    decreases |plan|
  {
    hide Resent;
    if plan != [] {
      var n := |plan| - 1;
      PlanRequests(id, plan[..n], restarted, config, parse, q);
      assert plan == plan[..n] + [plan[n]];
    }
  }

  lemma ResentAnswers(
    r: Alerts.Record, m: Message, plans: Plans, restarted: Restarted, config: Config, parse: string -> Option<uint32>,
      q: Request)
    requires r.state.Active? && r.alert.identifier in plans && m in plans[r.alert.identifier]
    ensures q in Resent(r.alert.identifier, m, restarted, config, parse)
      <==> Answers(q, r, m, plans, restarted, config, parse)
  {
    hide IsWriteReplace, Narrowed;
    if Answers(q, r, m, plans, restarted, config, parse) {
      var narrowed := m.(target := Narrowed(m.target, restarted, parse).value);
      forall other | IsWriteReplace(narrowed, config.repetition, config.broadcasts, config.plmn, parse, other)
        ensures other == q.pdu
      {
        OnePdu(narrowed, config, parse, other, q.pdu);
      }
    }
  }

  lemma {:induction false} SentAnswers(
    records: seq<Alerts.Record>, plans: Plans, restarted: Restarted, config: Config, parse: string -> Option<uint32>,
      q: Request)
    ensures q in ResentFor(records, plans, restarted, config, parse)
       <==> exists r, m :: r in records && Answers(q, r, m, plans, restarted, config, parse)
    decreases |records|
  {
    hide Answers, Resent, ResentAll;
    if records == [] {
    } else {
      var n := |records| - 1;
      var last := records[n];
      SentAnswers(records[..n], plans, restarted, config, parse, q);
      assert records == records[..n] + [last];
      RecordRequests(last, plans, restarted, config, parse, q);
    }
  }

  lemma RecordRequests(
    r: Alerts.Record, plans: Plans, restarted: Restarted, config: Config, parse: string -> Option<uint32>, q: Request)
    ensures
      (r.state.Active? && r.alert.identifier in plans
        && q in ResentAll(r.alert.identifier, plans[r.alert.identifier], restarted, config, parse))
      <==> exists m :: Answers(q, r, m, plans, restarted, config, parse)
  {
    hide Resent, ResentAll, IsWriteReplace, Narrowed;
    if r.state.Active? && r.alert.identifier in plans {
      var id := r.alert.identifier;
      PlanRequests(id, plans[id], restarted, config, parse, q);
      forall m | m in plans[id]
        ensures q in Resent(id, m, restarted, config, parse) <==> Answers(q, r, m, plans, restarted, config, parse)
      {
        ResentAnswers(r, m, plans, restarted, config, parse, q);
      }
    }
  }

  // What is owed, in terms of the indication itself

  /** The values for which `keep` holds, in order. */
  function Kept(values: seq<string>, keep: string -> bool): seq<string> {
    if values == [] then []
    else (if keep(values[0]) then [values[0]] else []) + Kept(values[1..], keep)
  }

  /** The value names a cell of the indication (scope 3) or, in its low 16 bits, one of its tracking areas (scope 2). */
  predicate Named(v: string, scope: octet, ri: Restart.RestartIndication, parse: string -> Option<uint32>) {
    match parse(v)
    case None => false
    case Some(id) =>
      if scope == 3 then exists c :: c in ri.cells && c.eci == id else exists t :: t in ri.tais && t.tac == id % 65536
  }

  lemma {:induction false} KeptMore(values: seq<string>, v: string, keep: string -> bool)
    ensures Kept(values + [v], keep) == Kept(values, keep) + if keep(v) then [v] else []
  {
    if values == [] {
      assert (values + [v])[1..] == [];
    } else {
      assert (values + [v])[1..] == values[1..] + [v];
      KeptMore(values[1..], v, keep);
    }
  }

  lemma NamedIsHit(v: string, scope: octet, ri: Restart.RestartIndication, parse: string -> Option<uint32>)
    ensures Named(v, scope, ri, parse) <==> Hit(v, scope, RestartedOf(ri), parse)
  {
  }

  lemma {:induction false} OverlapIsKept(
    values: seq<string>, scope: octet, ri: Restart.RestartIndication, parse: string -> Option<uint32>,
    keep: string -> bool)
    requires forall v :: keep(v) == Named(v, scope, ri, parse)
    ensures Overlap(values, scope, RestartedOf(ri), parse) == Kept(values, keep)
    decreases |values|
  {
    hide Hit, Named, RestartedOf;
    if values != [] {
      var init, last := values[..|values| - 1], values[|values| - 1];
      OverlapIsKept(init, scope, ri, parse, keep);
      NamedIsHit(last, scope, ri, parse);
      KeptMore(init, last, keep);
      assert values == init + [last];
    }
  }

  /**
   q is what message m of record r is owed after the indication: the stored
   identifiers, and the request for the part of its cells (scope 3) or of its
   tracking areas (scope 2) that the indication names, at least one.
   */
  ghost predicate Owed(
    q: Request, r: Alerts.Record, m: Message, plans: Plans, ri: Restart.RestartIndication, config: Config,
      parse: string -> Option<uint32>)
  {
    && r.state.Active? && r.alert.identifier in plans && m in plans[r.alert.identifier]
    && q.alertId == r.alert.identifier && q.messageId == m.messageId && q.serial == m.serial
    && 2 <= m.target.scope <= 3
    && var kept := Kept(if m.target.scope == 3 then m.target.cells else m.target.trackingAreas,
                        v => Named(v, m.target.scope, ri, parse));
       && kept != []
       && IsWriteReplace(
            m.(target := if m.target.scope == 3 then Target(3, kept, []) else Target(2, [], kept)),
            config.repetition, config.broadcasts, config.plmn, parse, q.pdu)
  }

  lemma OwedIsAnswer(
    q: Request, r: Alerts.Record, m: Message, plans: Plans, ri: Restart.RestartIndication, config: Config,
      parse: string -> Option<uint32>)
    ensures Owed(q, r, m, plans, ri, config, parse) <==> Answers(q, r, m, plans, RestartedOf(ri), config, parse)
  {
    hide Overlap, Kept, Named, IsWriteReplace, RestartedOf;
    OverlapIsKept(TargetValues(m.target), m.target.scope, ri, parse, v => Named(v, m.target.scope, ri, parse));
  }

  /** The requests are exactly those owed: nothing else is sent and nothing owed is skipped. */
  lemma SentExactlyForActive(
    records: seq<Alerts.Record>, plans: Plans, ri: Restart.RestartIndication, config: Config,
      parse: string -> Option<uint32>, q: Request)
    ensures q in ResentFor(records, plans, RestartedOf(ri), config, parse)
       <==> exists r, m :: r in records && Owed(q, r, m, plans, ri, config, parse)
  {
    hide Answers, Owed, ResentFor, RestartedOf;
    SentAnswers(records, plans, RestartedOf(ri), config, parse, q);
    forall r, m
      ensures Owed(q, r, m, plans, ri, config, parse) <==> Answers(q, r, m, plans, RestartedOf(ri), config, parse)
    {
      OwedIsAnswer(q, r, m, plans, ri, config, parse);
    }
  }
}
