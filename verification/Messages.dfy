/**
 The SBcAP requests and responses the CBC sends and receives: what a peer
 reads from each encoded message, and exactly which messages are encoded.
 */
module Messages {
  import opened Wrappers
  import opened Bits
  import opened Per
  import opened Pdu
  import opened Elements

  const ID_CAUSE := 1
  const ID_DATA_CODING_SCHEME := 3
  const ID_MESSAGE_IDENTIFIER := 5
  const ID_BROADCASTS := 7
  const ID_REPETITION_PERIOD := 10
  const ID_SERIAL_NUMBER := 11
  const ID_WARNING_AREA_LIST := 15
  const ID_MESSAGE_CONTENT := 16
  const ID_CONCURRENT_INDICATOR := 20
  const ID_SEND_INDICATION := 24

  const PROC_WRITE_REPLACE := 0
  const PROC_STOP := 1
  const PROC_ERROR_INDICATION := 2

  // Requests

  /** The 16-bit TACs, or the first identifier that does not fit. */
  function NarrowTacs(ids: seq<uint32>): (r: Result<seq<uint16>, Error>)
    ensures r.Success? <==> forall id | id in ids :: id <= 0xffff
    ensures r.Success? ==> |r.value| == |ids| && forall i | 0 <= i < |ids| :: r.value[i] == ids[i]
  {
    if ids == [] then Success([])
    else if ids[0] > 0xffff then
      assert ids[0] in ids;
      Failure(ValueOutOfRange)
    else
      assert forall id :: id in ids <==> id == ids[0] || id in ids[1..];
      var rest :- NarrowTacs(ids[1..]);
      Success([ids[0]] + rest)
  }

  /** The Warning-Area-List element: none for PLMN-wide delivery. */
  function AreaIE(scope: int, plmn: seq<octet>, ids: seq<uint32>): Result<seq<ProtocolIE>, Error> {
    if scope == 1 then Success([])
    else if scope == 2 then
      var tacs :- NarrowTacs(ids);
      var value :- EncodeTrackingArea(plmn, tacs);
      Success([ProtocolIE(ID_WARNING_AREA_LIST, CRIT_IGNORE, value)])
    else if scope == 3 then
      var value :- EncodeCellArea(plmn, ids);
      Success([ProtocolIE(ID_WARNING_AREA_LIST, CRIT_IGNORE, value)])
    else Failure(InvalidArea)
  }

  predicate AreaShape(scope: int, plmn: seq<octet>, ids: seq<uint32>) {
    1 <= scope <= 3 && (scope != 1 ==> |plmn| == 3 && ids != [])
  }

  function Identifiers(messageId: uint16, serial: uint16): seq<ProtocolIE> {
    [ProtocolIE(ID_MESSAGE_IDENTIFIER, CRIT_REJECT, Encode16(messageId)),
     ProtocolIE(ID_SERIAL_NUMBER, CRIT_REJECT, Encode16(serial))]
  }

  function DeliveryIEs(
      repetition: seq<octet>, broadcasts: seq<octet>, dcs: octet, contents: seq<octet>): seq<ProtocolIE> {
    [ProtocolIE(ID_REPETITION_PERIOD, CRIT_REJECT, repetition),
     ProtocolIE(ID_BROADCASTS, CRIT_REJECT, broadcasts),
     ProtocolIE(ID_DATA_CODING_SCHEME, CRIT_IGNORE, Encode8(dcs)),
     ProtocolIE(ID_MESSAGE_CONTENT, CRIT_IGNORE, contents),
     ProtocolIE(ID_CONCURRENT_INDICATOR, CRIT_REJECT, []),
     ProtocolIE(ID_SEND_INDICATION, CRIT_IGNORE, [])]
  }

  function WriteReplaceTarget(
    messageId: uint16, serial: uint16, dcs: octet, contents: seq<octet>,
    repetition: uint16, broadcasts: uint16, scope: int, plmn: seq<octet>, ids: seq<uint32>
  ): Encoded
  {
    if contents == [] || |contents| > 9600 then Failure(InvalidContents)
    else if !AreaShape(scope, plmn, ids) then Failure(InvalidArea)
    else
      var content :- EncodeContents(contents);
      var rep :- EncodeInt(0, 4096, repetition);
      var num :- EncodeInt(0, 65535, broadcasts);
      var area :- AreaIE(scope, plmn, ids);
      EncodePdu(PDU_INITIATING, PROC_WRITE_REPLACE, CRIT_REJECT,
                Identifiers(messageId, serial) + area + DeliveryIEs(rep, num, dcs, content))
  }

  function StopTarget(messageId: uint16, serial: uint16, scope: int, plmn: seq<octet>, ids: seq<uint32>): Encoded {
    if !AreaShape(scope, plmn, ids) then Failure(InvalidArea)
    else
      var area :- AreaIE(scope, plmn, ids);
      EncodePdu(PDU_INITIATING, PROC_STOP, CRIT_REJECT, Identifiers(messageId, serial) + area)
  }

  function SuccessResponse(procedure: int, messageId: uint16, serial: uint16, cause: int): Encoded {
    if procedure != PROC_WRITE_REPLACE && procedure != PROC_STOP then Failure(InvalidProcedure)
    else
      var c :- EncodeInt(0, 255, cause);
      EncodePdu(PDU_SUCCESSFUL, procedure, CRIT_REJECT,
                Identifiers(messageId, serial) + [ProtocolIE(ID_CAUSE, CRIT_REJECT, c)])
  }

  function ErrorIndication(cause: int): Encoded {
    var c :- EncodeInt(0, 255, cause);
    EncodePdu(PDU_INITIATING, PROC_ERROR_INDICATION, CRIT_IGNORE, [ProtocolIE(ID_CAUSE, CRIT_IGNORE, c)])
  }

  // Reading

  datatype Header = Header(outcome: int, procedure: int)

  function ReadHeader(pdu: seq<octet>): Result<Header, Error> {
    var d :- DecodePdu(pdu);
    Success(Header(d.choice + 1, d.procedure))
  }

  datatype Ids = Ids(messageId: uint16, serial: uint16)

  function FindValue(ies: seq<ProtocolIE>, id: int): Result<seq<octet>, Error> {
    match FindIE(ies, id)
    case None => Failure(MissingElement)
    case Some(ie) => Success(ie.value)
  }

  function CorrelationIds(ies: seq<ProtocolIE>): Result<Ids, Error> {
    var m :- FindValue(ies, ID_MESSAGE_IDENTIFIER);
    var n :- FindValue(ies, ID_SERIAL_NUMBER);
    var messageId :- Decode16(m);
    var serial :- Decode16(n);
    Success(Ids(messageId, serial))
  }

  function ResponseIds(pdu: seq<octet>, procedure: int): Result<Ids, Error> {
    var d :- DecodePdu(pdu);
    if d.choice != PDU_SUCCESSFUL || d.procedure != procedure then Failure(WrongMessage)
    else CorrelationIds(d.ies)
  }

  function RequestIds(pdu: seq<octet>): Result<Ids, Error> {
    var d :- DecodePdu(pdu);
    if d.choice != PDU_INITIATING then Failure(WrongMessage)
    else CorrelationIds(d.ies)
  }

  datatype Cause = Cause(value: int) | NoCause

  function DecodeErrorIndication(pdu: seq<octet>): Result<Cause, Error> {
    var d :- DecodePdu(pdu);
    if d.choice != PDU_INITIATING || d.procedure != PROC_ERROR_INDICATION then Failure(WrongMessage)
    else
      match FindIE(d.ies, ID_CAUSE)
      case None => Success(NoCause)
      case Some(ie) =>
        var c :- DecodeInt(ie.value, 0, 255);
        Success(Cause(c))
  }

  /** What the receiver of a request finds in it, element by element. */
  datatype Request = Request(
    ids: Ids, area: Option<WarningArea>, repetition: int, broadcasts: int,
    dcs: octet, contents: seq<octet>, concurrent: bool, sendIndication: bool)

  function ReadAreaIE(ies: seq<ProtocolIE>): Result<Option<WarningArea>, Error> {
    match FindIE(ies, ID_WARNING_AREA_LIST)
    case None => Success(None)
    case Some(ie) =>
      var area :- DecodeArea(ie.value);
      Success(Some(area))
  }

  function ReadWriteReplace(pdu: seq<octet>): Result<Request, Error> {
    var d :- DecodePdu(pdu);
    if d.choice != PDU_INITIATING || d.procedure != PROC_WRITE_REPLACE then Failure(WrongMessage)
    else ReadRequest(d.ies)
  }

  function ReadRequest(ies: seq<ProtocolIE>): Result<Request, Error> {
    var ids :- CorrelationIds(ies);
    var area :- ReadAreaIE(ies);
    var r :- FindValue(ies, ID_REPETITION_PERIOD);
    var repetition :- DecodeInt(r, 0, 4096);
    var b :- FindValue(ies, ID_BROADCASTS);
    var broadcasts :- DecodeInt(b, 0, 65535);
    var s :- FindValue(ies, ID_DATA_CODING_SCHEME);
    var dcs :- Decode8(s);
    var c :- FindValue(ies, ID_MESSAGE_CONTENT);
    var contents :- DecodeContents(c);
    Success(Request(ids, area, repetition, broadcasts, dcs, contents,
                    FindIE(ies, ID_CONCURRENT_INDICATOR).Some?, FindIE(ies, ID_SEND_INDICATION).Some?))
  }

  /** The area a receiver must find for a requested scope. */
  function AreaOf(scope: int, plmn: seq<octet>, ids: seq<uint32>): Option<WarningArea> {
    if scope == 3 then Some(WarningArea(true, plmn, ids, []))
    else if scope == 2 && NarrowTacs(ids).Success? then Some(WarningArea(false, plmn, [], NarrowTacs(ids).value))
    else None
  }

  // Theorems

  lemma {:induction false} FindReceived(ies: seq<ProtocolIE>, id: int)
    ensures FindIE(ReceivedAll(ies), id)
         == (match FindIE(ies, id) case None => None case Some(ie) => Some(Received(ie)))
  {
    if ies == [] {
    } else {
      assert ReceivedAll(ies)[1..] == ReceivedAll(ies[1..]);
      FindReceived(ies[1..], id);
    }
  }

  lemma {:induction false} FindInConcat(a: seq<ProtocolIE>, b: seq<ProtocolIE>, id: int)
    ensures FindIE(a + b, id) == if FindIE(a, id).Some? then FindIE(a, id) else FindIE(b, id)
  {
    if a == [] {
      assert a + b == b;
    } else {
      assert (a + b)[1..] == a[1..] + b;
      FindInConcat(a[1..], b, id);
    }
  }

  lemma AreaReadBack(scope: int, plmn: seq<octet>, ids: seq<uint32>)
    requires AreaIE(scope, plmn, ids).Success?
    ensures var area := AreaIE(scope, plmn, ids).value;
      && (area == [] <==> scope == 1)
      && (area != [] ==>
            && |area| == 1 && area[0].id == ID_WARNING_AREA_LIST && area[0].value != []
            && DecodeArea(area[0].value) == Success(AreaOf(scope, plmn, ids).value))
      && (AreaOf(scope, plmn, ids).None? <==> area == [])
  {
    hide EncodeCellArea, EncodeTrackingArea, DecodeArea;
    if scope == 2 {
      TrackingAreaReadBack(plmn, NarrowTacs(ids).value);
      TrackingNonEmpty(plmn, NarrowTacs(ids).value);
    } else if scope == 3 {
      CellAreaReadBack(plmn, ids);
      CellsNonEmpty(plmn, ids);
    }
  }

  lemma TrackingNonEmpty(plmn: seq<octet>, tacs: seq<uint16>)
    requires EncodeTrackingArea(plmn, tacs).Success?
    ensures EncodeTrackingArea(plmn, tacs).value != []
  {
    hide DecodeBody, AppendNumber, AppendTais;
    var b := AppendNumber(AppendNumber([false], 0, 2, AREA_TRACKING).value, 1, 65535, |tacs|).value;
    AreaPreamble(AREA_TRACKING, |tacs|);
    TaisReadBack(b, TaisOf(plmn, tacs), AppendTais(b, TaisOf(plmn, tacs)).value);
  }

  lemma CellsNonEmpty(plmn: seq<octet>, ecis: seq<uint32>)
    requires EncodeCellArea(plmn, ecis).Success?
    ensures EncodeCellArea(plmn, ecis).value != []
  {
    hide AppendNumber, AppendCgis;
    var b := AppendNumber(AppendNumber([false], 0, 2, AREA_CELLS).value, 1, 65535, |ecis|).value;
    AreaPreamble(AREA_CELLS, |ecis|);
    CgisReadBack(b, CellsOf(plmn, ecis), AppendCgis(b, CellsOf(plmn, ecis)).value);
  }

  lemma FindIdentifiers(messageId: uint16, serial: uint16, rest: seq<ProtocolIE>)
    ensures CorrelationIds(ReceivedAll(Identifiers(messageId, serial) + rest)) == Success(Ids(messageId, serial))
  {
    var head := Identifiers(messageId, serial);
    FindInConcat(head, rest, ID_MESSAGE_IDENTIFIER);
    FindInConcat(head, rest, ID_SERIAL_NUMBER);
    FindReceived(head + rest, ID_MESSAGE_IDENTIFIER);
    FindReceived(head + rest, ID_SERIAL_NUMBER);
    assert head[1..][0] == head[1];
    Fixed16ReadBack(messageId);
    Fixed16ReadBack(serial);
  }

  /** Looking an element up behind the identifiers and the area. */
  lemma FindBehind(head: seq<ProtocolIE>, area: seq<ProtocolIE>, tail: seq<ProtocolIE>, id: int)
    requires FindIE(head, id).None? && FindIE(area, id).None? && FindIE(tail, id).Some?
    ensures FindIE(ReceivedAll(head + area + tail), id) == Some(Received(FindIE(tail, id).value))
  {
    hide FindIE, ReceivedAll;
    FindReceived(head + area + tail, id);
    FindInConcat(head + area, tail, id);
    FindInConcat(head, area, id);
  }

  lemma IdentifiersLack(messageId: uint16, serial: uint16, id: int)
    requires id != ID_MESSAGE_IDENTIFIER && id != ID_SERIAL_NUMBER
    ensures FindIE(Identifiers(messageId, serial), id).None?
  {
    FindAbsent(Identifiers(messageId, serial), id);
  }

  lemma AreaLacks(scope: int, plmn: seq<octet>, ids: seq<uint32>, id: int)
    requires AreaIE(scope, plmn, ids).Success? && id != ID_WARNING_AREA_LIST
    ensures FindIE(AreaIE(scope, plmn, ids).value, id).None?
  {
    hide AreaIE, AreaOf, DecodeArea;
    AreaReadBack(scope, plmn, ids);
    FindAbsent(AreaIE(scope, plmn, ids).value, id);
  }

  lemma {:induction false} FindAbsent(ies: seq<ProtocolIE>, id: int)
    requires forall j | 0 <= j < |ies| :: ies[j].id != id
    ensures FindIE(ies, id).None?
  {
    if ies == [] {
    } else {
      FindAbsent(ies[1..], id);
    }
  }

  lemma {:induction false} FindAt(ies: seq<ProtocolIE>, i: nat, id: int)
    requires i < |ies| && ies[i].id == id
    requires forall j | 0 <= j < i :: ies[j].id != id
    ensures FindIE(ies, id) == Some(ies[i])
  {
    if i == 0 {
    } else {
      FindAt(ies[1..], i - 1, id);
    }
  }

  /** The area element is found between the identifiers and whatever follows. */
  lemma FindArea(head: seq<ProtocolIE>, scope: int, plmn: seq<octet>, ids: seq<uint32>, tail: seq<ProtocolIE>)
    requires AreaIE(scope, plmn, ids).Success?
    requires forall j | 0 <= j < |head| :: head[j].id != ID_WARNING_AREA_LIST
    requires forall j | 0 <= j < |tail| :: tail[j].id != ID_WARNING_AREA_LIST
    ensures ReadAreaIE(ReceivedAll(head + AreaIE(scope, plmn, ids).value + tail)) == Success(AreaOf(scope, plmn, ids))
  {
    hide AreaIE, DecodeArea, AreaOf;
    var area := AreaIE(scope, plmn, ids).value;
    AreaReadBack(scope, plmn, ids);
    FindReceived(head + area + tail, ID_WARNING_AREA_LIST);
    FindInConcat(head + area, tail, ID_WARNING_AREA_LIST);
    FindInConcat(head, area, ID_WARNING_AREA_LIST);
    FindAbsent(head, ID_WARNING_AREA_LIST);
    FindAbsent(tail, ID_WARNING_AREA_LIST);
  }

  /**
   A receiver of an encoded Write-Replace-Warning-Request finds in it exactly
   what was requested: identifiers, area with every identifier in order,
   repetition, broadcasts, coding scheme, contents octet for octet, and both
   flags.
   */
  lemma WriteReplaceReadBack(
    messageId: uint16, serial: uint16, dcs: octet, contents: seq<octet>,
    repetition: uint16, broadcasts: uint16, scope: int, plmn: seq<octet>, ids: seq<uint32>)
    requires WriteReplaceTarget(messageId, serial, dcs, contents, repetition, broadcasts, scope, plmn, ids).Success?
    ensures ReadWriteReplace(WriteReplaceTarget(messageId, serial, dcs, contents, repetition, broadcasts, scope, plmn,
      ids).value)
         == Success(Request(Ids(messageId, serial), AreaOf(scope, plmn, ids), repetition, broadcasts, dcs, contents,
           true, true))
  {
    hide EncodePdu, DecodePdu, EncodeInt, EncodeContents, AreaIE, ReadRequest, AreaOf;
    var content := EncodeContents(contents).value;
    var rep := EncodeInt(0, 4096, repetition).value;
    var num := EncodeInt(0, 65535, broadcasts).value;
    var area := AreaIE(scope, plmn, ids).value;
    PduReadBack(PDU_INITIATING, PROC_WRITE_REPLACE, CRIT_REJECT,
                Identifiers(messageId, serial) + area + DeliveryIEs(rep, num, dcs, content));
    RequestReadBack(messageId, serial, dcs, contents, repetition, broadcasts, scope, plmn, ids);
  }

  lemma RequestReadBack(
    messageId: uint16, serial: uint16, dcs: octet, contents: seq<octet>,
    repetition: uint16, broadcasts: uint16, scope: int, plmn: seq<octet>, ids: seq<uint32>)
    requires EncodeContents(contents).Success? && EncodeInt(0, 4096, repetition).Success?
    requires EncodeInt(0, 65535, broadcasts).Success? && AreaIE(scope, plmn, ids).Success?
    ensures
      ReadRequest(ReceivedAll(
        Identifiers(messageId, serial) + AreaIE(scope, plmn, ids).value
        + DeliveryIEs(EncodeInt(0, 4096, repetition).value, EncodeInt(0, 65535, broadcasts).value, dcs,
          EncodeContents(contents).value)))
      == Success(Request(Ids(messageId, serial), AreaOf(scope, plmn, ids), repetition, broadcasts, dcs, contents,
        true, true))
  {
    hide EncodeInt, EncodeContents, DecodeInt, DecodeContents, AreaIE, AreaOf, CorrelationIds, ReadAreaIE,
         FindIE, FindValue, ReceivedAll, Identifiers, DeliveryIEs;
    var head := Identifiers(messageId, serial);
    var area := AreaIE(scope, plmn, ids).value;
    var rep := EncodeInt(0, 4096, repetition).value;
    var num := EncodeInt(0, 65535, broadcasts).value;
    var content := EncodeContents(contents).value;
    assert head + area + DeliveryIEs(rep, num, dcs, content) == head + (area + DeliveryIEs(rep, num, dcs, content));
    FindIdentifiers(messageId, serial, area + DeliveryIEs(rep, num, dcs, content));
    DeliveryLookups(messageId, serial, scope, plmn, ids, rep, num, dcs, content);
    IntReadBack(0, 4096, repetition);
    IntReadBack(0, 65535, broadcasts);
    TwoOctetInt(0, 4096, repetition);
    TwoOctetInt(0, 65535, broadcasts);
    ContentsReadBack(contents);
  }

  lemma DeliveryLookups(
    messageId: uint16, serial: uint16, scope: int, plmn: seq<octet>, ids: seq<uint32>,
    rep: seq<octet>, num: seq<octet>, dcs: octet, content: seq<octet>)
    requires AreaIE(scope, plmn, ids).Success?
    ensures var all := ReceivedAll(Identifiers(messageId, serial) + AreaIE(scope, plmn, ids).value
      + DeliveryIEs(rep, num, dcs, content));
      && ReadAreaIE(all) == Success(AreaOf(scope, plmn, ids))
      && FindValue(all, ID_REPETITION_PERIOD) == Success(Widen(rep))
      && FindValue(all, ID_BROADCASTS) == Success(Widen(num))
      && FindValue(all, ID_DATA_CODING_SCHEME) == Success([dcs])
      && FindValue(all, ID_MESSAGE_CONTENT) == Success(Widen(content))
      && FindIE(all, ID_CONCURRENT_INDICATOR).Some? && FindIE(all, ID_SEND_INDICATION).Some?
  {
    hide AreaIE, AreaOf, ReadAreaIE, FindIE, ReceivedAll, Identifiers;
    var tail := DeliveryIEs(rep, num, dcs, content);
    HeadHasNoArea(messageId, serial, scope, plmn, ids, tail);
    DeliveryLookup(messageId, serial, scope, plmn, ids, tail, 0);
    DeliveryLookup(messageId, serial, scope, plmn, ids, tail, 1);
    DeliveryLookup(messageId, serial, scope, plmn, ids, tail, 2);
    DeliveryLookup(messageId, serial, scope, plmn, ids, tail, 3);
    DeliveryLookup(messageId, serial, scope, plmn, ids, tail, 4);
    DeliveryLookup(messageId, serial, scope, plmn, ids, tail, 5);
  }

  lemma HeadHasNoArea(
    messageId: uint16, serial: uint16, scope: int, plmn: seq<octet>, ids: seq<uint32>, tail: seq<ProtocolIE>)
    requires AreaIE(scope, plmn, ids).Success?
    requires forall j | 0 <= j < |tail| :: tail[j].id != ID_WARNING_AREA_LIST
    ensures ReadAreaIE(ReceivedAll(Identifiers(messageId, serial) + AreaIE(scope, plmn, ids).value + tail))
      == Success(AreaOf(scope, plmn, ids))
  {
    hide AreaIE, AreaOf, ReadAreaIE, ReceivedAll, Encode16;
    FindArea(Identifiers(messageId, serial), scope, plmn, ids, tail);
  }

  lemma DeliveryLookup(
    messageId: uint16, serial: uint16, scope: int, plmn: seq<octet>, ids: seq<uint32>, tail: seq<ProtocolIE>, i: nat)
    requires AreaIE(scope, plmn, ids).Success? && i < |tail|
    requires forall j | 0 <= j < i :: tail[j].id != tail[i].id
    requires tail[i].id !in {ID_MESSAGE_IDENTIFIER, ID_SERIAL_NUMBER, ID_WARNING_AREA_LIST}
    ensures FindIE(ReceivedAll(Identifiers(messageId, serial) + AreaIE(scope, plmn, ids).value + tail), tail[i].id)
         == Some(Received(tail[i]))
  {
    hide AreaIE, FindIE, ReceivedAll, Identifiers;
    var id := tail[i].id;
    IdentifiersLack(messageId, serial, id);
    AreaLacks(scope, plmn, ids, id);
    FindAt(tail, i, id);
    FindBehind(Identifiers(messageId, serial), AreaIE(scope, plmn, ids).value, tail, id);
  }

  /** A Stop-Warning-Request keeps the identifiers and the warning area. */
  lemma StopReadBack(messageId: uint16, serial: uint16, scope: int, plmn: seq<octet>, ids: seq<uint32>)
    requires StopTarget(messageId, serial, scope, plmn, ids).Success?
    ensures var d := DecodePdu(StopTarget(messageId, serial, scope, plmn, ids).value);
      && d.Success? && d.value.choice == PDU_INITIATING && d.value.procedure == PROC_STOP
        && d.value.criticality == CRIT_REJECT
      && CorrelationIds(d.value.ies) == Success(Ids(messageId, serial))
      && ReadAreaIE(d.value.ies) == Success(AreaOf(scope, plmn, ids))
      && |d.value.ies| == if scope == 1 then 2 else 3
  {
    hide EncodePdu, DecodePdu, AreaIE, AreaOf, CorrelationIds, ReadAreaIE;
    var head := Identifiers(messageId, serial);
    var area := AreaIE(scope, plmn, ids).value;
    PduReadBack(PDU_INITIATING, PROC_STOP, CRIT_REJECT, head + area);
    FindIdentifiers(messageId, serial, area);
    FindArea(head, scope, plmn, ids, []);
    assert head + area + [] == head + area;
    AreaReadBack(scope, plmn, ids);
  }

  /** The identifiers of an encoded request are read by RequestIds. */
  lemma RequestIdsReadBack(
    messageId: uint16, serial: uint16, dcs: octet, contents: seq<octet>,
    repetition: uint16, broadcasts: uint16, scope: int, plmn: seq<octet>, ids: seq<uint32>)
    ensures var w := WriteReplaceTarget(messageId, serial, dcs, contents, repetition, broadcasts, scope, plmn, ids);
      w.Success? ==> RequestIds(w.value) == Success(Ids(messageId, serial))
    ensures var s := StopTarget(messageId, serial, scope, plmn, ids);
      s.Success? ==> RequestIds(s.value) == Success(Ids(messageId, serial))
  {
    hide WriteReplaceTarget, StopTarget, DecodePdu, CorrelationIds, ReadAreaIE, AreaOf, FindValue, FindIE;
    if WriteReplaceTarget(messageId, serial, dcs, contents, repetition, broadcasts, scope, plmn, ids).Success? {
      WriteReplaceReadBack(messageId, serial, dcs, contents, repetition, broadcasts, scope, plmn, ids);
    }
    if StopTarget(messageId, serial, scope, plmn, ids).Success? {
      StopReadBack(messageId, serial, scope, plmn, ids);
    }
  }

  /** The cause a response carries, read as a constrained integer. */
  function ReadCause(ies: seq<ProtocolIE>): Result<int, Error> {
    var c :- FindValue(ies, ID_CAUSE);
    DecodeInt(c, 0, 255)
  }

  /** A response built for a procedure carries its header, identifiers and cause. */
  lemma ResponseReadBack(procedure: int, messageId: uint16, serial: uint16, cause: int)
    requires SuccessResponse(procedure, messageId, serial, cause).Success?
    ensures var pdu := SuccessResponse(procedure, messageId, serial, cause).value;
      && ReadHeader(pdu) == Success(Header(2, procedure))
      && (forall p :: ResponseIds(pdu, p) == if p == procedure then Success(Ids(messageId, serial))
        else Failure(WrongMessage))
      && RequestIds(pdu) == Failure(WrongMessage)
      && DecodePdu(pdu).Success? && ReadCause(DecodePdu(pdu).value.ies) == Success(cause)
  {
    hide EncodePdu, DecodePdu, CorrelationIds, EncodeInt, ReadCause;
    var c := EncodeInt(0, 255, cause).value;
    var tail := [ProtocolIE(ID_CAUSE, CRIT_REJECT, c)];
    PduReadBack(PDU_SUCCESSFUL, procedure, CRIT_REJECT, Identifiers(messageId, serial) + tail);
    FindIdentifiers(messageId, serial, tail);
    CauseReadBack(messageId, serial, cause);
  }

  lemma CauseReadBack(messageId: uint16, serial: uint16, cause: int)
    requires EncodeInt(0, 255, cause).Success?
    ensures
      ReadCause(ReceivedAll(Identifiers(messageId, serial)
        + [ProtocolIE(ID_CAUSE, CRIT_REJECT, EncodeInt(0, 255, cause).value)]))
      == Success(cause)
  {
    hide EncodeInt, DecodeInt, ReceivedAll, FindIE;
    var head, tail := Identifiers(messageId, serial),
      [ProtocolIE(ID_CAUSE, CRIT_REJECT, EncodeInt(0, 255, cause).value)];
    FindReceived(head + tail, ID_CAUSE);
    FindInConcat(head, tail, ID_CAUSE);
    IdentifiersLack(messageId, serial, ID_CAUSE);
    FindAt(tail, 0, ID_CAUSE);
    OctetInt(cause);
    IntReadBack(0, 255, cause);
  }

  lemma ErrorIndicationReadBack(cause: int)
    ensures ErrorIndication(cause).Success? <==> 0 <= cause <= 255
    ensures ErrorIndication(cause).Success? ==>
      DecodeErrorIndication(ErrorIndication(cause).value) == Success(Cause(cause))
  {
    hide EncodePdu, DecodePdu, EncodeInt, DecodeInt;
    OctetInt(cause);
    if 0 <= cause <= 255 {
      var c := EncodeInt(0, 255, cause).value;
      var ies := [ProtocolIE(ID_CAUSE, CRIT_IGNORE, c)];
      EncodePduAccepts(PDU_INITIATING, PROC_ERROR_INDICATION, CRIT_IGNORE, ies);
      PduReadBack(PDU_INITIATING, PROC_ERROR_INDICATION, CRIT_IGNORE, ies);
      IntReadBack(0, 255, cause);
      assert ies[1..] == [];
      assert IEsSize(ies) == 5;
    }
  }

  lemma OctetInt(value: int)
    ensures EncodeInt(0, 255, value).Success? <==> 0 <= value <= 255
    ensures 0 <= value <= 255 ==> |EncodeInt(0, 255, value).value| == 1
  {
    hide ToBits;
  }

  // Exactly which requests are encoded

  /** Octets of the Warning-Area-List element with its header. */
  function AreaSize(scope: int, n: nat): nat {
    if scope == 2 then 3 + OpenSize(3 + 6 * n)
    else if scope == 3 then 3 + OpenSize(4 + 7 * n)
    else 0
  }

  predicate IdsInRange(scope: int, ids: seq<uint32>) {
    && (scope == 2 ==> forall id | id in ids :: id <= 0xffff)
    && (scope == 3 ==> forall id | id in ids :: id <= 0x0fff_ffff)
    && (scope != 1 ==> |ids| <= 65535)
  }

  lemma AreaAccepts(scope: int, plmn: seq<octet>, ids: seq<uint32>)
    requires AreaShape(scope, plmn, ids)
    ensures AreaIE(scope, plmn, ids).Success? <==> IdsInRange(scope, ids)
    ensures AreaIE(scope, plmn, ids).Success? ==>
      && IEsSize(AreaIE(scope, plmn, ids).value) == AreaSize(scope, |ids|)
      && (forall ie | ie in AreaIE(scope, plmn, ids).value ::
            (Encodable(ie) <==> AreaSize(scope, |ids|) < 16384 + 5))
      && |AreaIE(scope, plmn, ids).value| <= 1
  {
    hide EncodeCellArea, EncodeTrackingArea;
    if scope == 2 && NarrowTacs(ids).Success? {
      TrackingAreaSize(plmn, NarrowTacs(ids).value);
    } else if scope == 3 {
      CellAreaSize(plmn, ids);
    }
    if AreaIE(scope, plmn, ids).Success? && scope != 1 {
      assert AreaIE(scope, plmn, ids).value[1..] == [];
    }
  }

  lemma {:induction false} SizeOfConcat(a: seq<ProtocolIE>, b: seq<ProtocolIE>)
    ensures IEsSize(a + b) == IEsSize(a) + IEsSize(b)
  {
    if a == [] {
      assert a + b == b;
    } else {
      assert (a + b)[1..] == a[1..] + b;
      SizeOfConcat(a[1..], b);
    }
  }

  lemma FixedSizes(messageId: uint16, serial: uint16, rep: seq<octet>, num: seq<octet>, dcs: octet, content: seq<octet>)
    requires |rep| == 2 && |num| == 2
    ensures IEsSize(Identifiers(messageId, serial)) == 12
    ensures IEsSize(DeliveryIEs(rep, num, dcs, content)) == 30 + OpenSize(|content|)
  {
    var ids := Identifiers(messageId, serial);
    assert ids[1..] == [ids[1]] && ids[1..][1..] == [];
    var d := DeliveryIEs(rep, num, dcs, content);
    assert d[1..] == [d[1], d[2], d[3], d[4], d[5]];
    assert d[1..][1..] == [d[2], d[3], d[4], d[5]];
    assert d[1..][1..][1..] == [d[3], d[4], d[5]];
    assert d[1..][1..][1..][1..] == [d[4], d[5]];
    assert d[1..][1..][1..][1..][1..] == [d[5]];
    assert IEsSize([d[5]]) == 5;
    assert IEsSize([d[4], d[5]]) == 10;
    assert IEsSize([d[3], d[4], d[5]]) == 13 + OpenSize(|content|);
    assert IEsSize([d[2], d[3], d[4], d[5]]) == 18 + OpenSize(|content|);
  }

  lemma Counts(messageId: uint16, serial: uint16, rep: seq<octet>, num: seq<octet>, dcs: octet, content: seq<octet>)
    ensures |Identifiers(messageId, serial)| == 2 && |DeliveryIEs(rep, num, dcs, content)| == 6
  {
  }

  lemma OthersEncodable(
    messageId: uint16, serial: uint16, area: seq<ProtocolIE>, rep: seq<octet>, num: seq<octet>, dcs: octet,
      content: seq<octet>)
    requires |rep| == 2 && |num| == 2 && |content| <= 9602
    ensures (forall ie | ie in Identifiers(messageId, serial) + area + DeliveryIEs(rep, num, dcs, content) ::
      Encodable(ie))
       <==> (forall ie | ie in area :: Encodable(ie))
  {
    var head, tail := Identifiers(messageId, serial), DeliveryIEs(rep, num, dcs, content);
    assert forall ie | ie in head :: Encodable(ie);
    assert forall ie | ie in tail :: Encodable(ie);
    assert forall ie :: ie in head + area + tail <==> ie in head || ie in area || ie in tail;
  }

  /**
   Exactly which Write-Replace-Warning-Requests the CBC can encode: the last
   conjunct is the one unfragmented open type the body must fit in, which
   bounds the number of cells or tracking areas far below the 65535 the list
   itself allows.
   */
  lemma WriteReplaceAccepts(
    messageId: uint16, serial: uint16, dcs: octet, contents: seq<octet>,
    repetition: uint16, broadcasts: uint16, scope: int, plmn: seq<octet>, ids: seq<uint32>)
    ensures WriteReplaceTarget(messageId, serial, dcs, contents, repetition, broadcasts, scope, plmn, ids).Success?
       <==> && 1 <= |contents| <= 9600
            && AreaShape(scope, plmn, ids) && IdsInRange(scope, ids)
            && repetition <= 4096
            && 45 + AreaSize(scope, |ids|) + OpenSize(|contents| + 2) < 16384
  {
    hide EncodePdu, EncodeInt, EncodeContents, AreaIE, IdsInRange, IEsSize, Identifiers, DeliveryIEs, Encodable,
      AreaSize;
    ContentsReadBack(contents);
    TwoOctetInt(0, 4096, repetition);
    TwoOctetInt(0, 65535, broadcasts);
    if 1 <= |contents| <= 9600 && AreaShape(scope, plmn, ids) && repetition <= 4096 {
      AreaAccepts(scope, plmn, ids);
      if IdsInRange(scope, ids) {
        var head := Identifiers(messageId, serial);
        var area := AreaIE(scope, plmn, ids).value;
        var rep := EncodeInt(0, 4096, repetition).value;
        var num := EncodeInt(0, 65535, broadcasts).value;
        var content := EncodeContents(contents).value;
        var tail := DeliveryIEs(rep, num, dcs, content);
        Counts(messageId, serial, rep, num, dcs, content);
        assert |head + area + tail| <= 65535;
        FixedSizes(messageId, serial, rep, num, dcs, content);
        SizeOfConcat(head + area, tail);
        SizeOfConcat(head, area);
        EncodePduAccepts(PDU_INITIATING, PROC_WRITE_REPLACE, CRIT_REJECT, head + area + tail);
        OthersEncodable(messageId, serial, area, rep, num, dcs, content);
      }
    }
  }

  lemma IdentifiersEncodable(messageId: uint16, serial: uint16)
    ensures forall ie | ie in Identifiers(messageId, serial) :: Encodable(ie)
    ensures |Identifiers(messageId, serial)| == 2 && IEsSize(Identifiers(messageId, serial)) == 12
  {
    var ies := Identifiers(messageId, serial);
    assert ies[1..] == [ies[1]] && ies[1..][1..] == [];
    assert IEsSize([ies[1]]) == 6;
  }

  /** Exactly which Stop-Warning-Requests the CBC can encode. */
  lemma StopAccepts(messageId: uint16, serial: uint16, scope: int, plmn: seq<octet>, ids: seq<uint32>)
    ensures StopTarget(messageId, serial, scope, plmn, ids).Success?
       <==> AreaShape(scope, plmn, ids) && IdsInRange(scope, ids) && 15 + AreaSize(scope, |ids|) < 16384
  {
    hide EncodePdu, AreaIE, IdsInRange, IEsSize, Identifiers, Encodable, AreaSize;
    if AreaShape(scope, plmn, ids) {
      AreaAccepts(scope, plmn, ids);
      if IdsInRange(scope, ids) {
        var head, area := Identifiers(messageId, serial), AreaIE(scope, plmn, ids).value;
        IdentifiersEncodable(messageId, serial);
        SizeOfConcat(head, area);
        EncodePduAccepts(PDU_INITIATING, PROC_STOP, CRIT_REJECT, head + area);
        assert forall ie :: ie in head + area <==> ie in head || ie in area;
      }
    }
  }

  /** Exactly which successful responses can be encoded: those of the two procedures, with a cause of one octet. */
  lemma ResponseAccepts(procedure: int, messageId: uint16, serial: uint16, cause: int)
    ensures SuccessResponse(procedure, messageId, serial, cause).Success?
       <==> (procedure == PROC_WRITE_REPLACE || procedure == PROC_STOP) && 0 <= cause <= 255
  {
    hide EncodePdu, EncodeInt, Identifiers, IEsSize, Encodable;
    OctetInt(cause);
    if 0 <= cause <= 255 {
      var head, c := Identifiers(messageId, serial), EncodeInt(0, 255, cause).value;
      var tail := [ProtocolIE(ID_CAUSE, CRIT_REJECT, c)];
      IdentifiersEncodable(messageId, serial);
      SizeOfConcat(head, tail);
      OctetElement(tail[0]);
      EncodePduAccepts(PDU_SUCCESSFUL, procedure, CRIT_REJECT, head + tail);
      assert forall ie :: ie in head + tail <==> ie in head || ie == tail[0];
    }
  }

  lemma OctetElement(ie: ProtocolIE)
    requires 0 <= ie.id <= 65535 && 0 <= ie.criticality <= 2 && |ie.value| == 1
    ensures Encodable(ie) && IEsSize([ie]) == 5
  {
    assert [ie][1..] == [];
  }
}
