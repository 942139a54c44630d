/**
 Indications an MME sends on its own: the decoders follow the source, the
 encoders are the inverse written from X.691 (the CBC itself never sends
 these messages), and each decoder is proved to give back what was encoded.
 */
module Restart {
  import opened Wrappers
  import opened Bits
  import opened Per
  import opened Pdu
  import opened Elements
  import opened Messages

  const PROC_WRITE_REPLACE_INDICATION := 3
  const PROC_RESTART_INDICATION := 5
  const PROC_FAILURE_INDICATION := 6
  const ID_GLOBAL_ENB := 28
  const ID_RESTARTED_CELLS := 30
  const ID_RESTART_TAIS := 31
  const ID_FAILED_CELLS := 33
  const MAX_RESTARTED_CELLS := 256
  const MAX_RESTART_TAIS := 2048
  const MAX_FAILED_CELLS := 256

  datatype EnbKind = Macro | Home | ShortMacro | LongMacro
  datatype EnbId = EnbId(kind: EnbKind, value: nat)
  datatype GlobalEnbId = GlobalEnbId(plmn: seq<octet>, enb: EnbId)

  function KindBits(kind: EnbKind): nat {
    match kind
    case Macro => 20
    case Home => 28
    case ShortMacro => 18
    case LongMacro => 21
  }

  // Decoders

  /** A bit string of more than two octets is aligned before its content. */
  function ReadFixedBits(s: seq<bool>, pos: nat, bits: nat): Parsed<nat> {
    if (bits + 7) / 8 > 2 then
      var (_, p) :- ReadPad(s, pos);
      ReadBits(s, p, bits)
    else ReadBits(s, pos, bits)
  }

  function ReadSmallNumber(s: seq<bool>, pos: nat): Parsed<nat> {
    var (large, p) :- ReadBits(s, pos, 1);
    if large == 0 then ReadBits(s, p, 6)
    else
      var (_, q) :- ReadPad(s, p);
      var (longer, r) :- ReadBits(s, q, 1);
      if longer == 1 then Unparsed(RangeUnsupported)
      else
        var (length, t) :- ReadBits(s, r, 7);
        if length > 4 then Unparsed(RangeUnsupported) else ReadBits(s, t, length * 8)
  }

  function ReadRootEnbId(s: seq<bool>, pos: nat): Parsed<EnbId> {
    var (index, p) :- ReadNumber(s, pos, 0, 1);
    var kind := if index == 0 then Macro else Home;
    var (v, q) :- ReadFixedBits(s, p, KindBits(kind));
    Parsed(EnbId(kind, v), q)
  }

  /** An extension alternative is itself wrapped in an open type. */
  function ReadExtensionEnbId(s: seq<bool>, pos: nat): Parsed<EnbId> {
    var (index, p) :- ReadSmallNumber(s, pos);
    var (content, q) :- ReadOpenType(s, p);
    if index > 1 then Unparsed(UnsupportedAlternative)
    else
      var kind := if index == 0 then ShortMacro else LongMacro;
      var (v, _) :- ReadFixedBits(OctetBits(content), 0, KindBits(kind));
      Parsed(EnbId(kind, v), q)
  }

  function ReadEnbId(s: seq<bool>, pos: nat): Parsed<EnbId> {
    var (extension, p) :- ReadBits(s, pos, 1);
    if extension == 0 then ReadRootEnbId(s, p) else ReadExtensionEnbId(s, p)
  }

  function ReadGlobalEnbId(s: seq<bool>, pos: nat): Parsed<GlobalEnbId> {
    var (_, p) :- ReadClear(s, pos);
    var (_, q) :- ReadClear(s, p);
    var (_, r) :- ReadPad(s, q);
    var (plmn, t) :- ReadOctets(s, r, 3);
    var (enb, u) :- ReadEnbId(s, t);
    Parsed(GlobalEnbId(plmn, enb), u)
  }

  function ReadCellList(s: seq<bool>, lb: int, ub: int): Parsed<seq<Cgi>> {
    var (count, p) :- ReadNumber(s, 0, lb, ub);
    ReadCgis(s, p, Times(count))
  }

  function ReadTaiList(s: seq<bool>): Parsed<seq<Tai>> {
    var (count, p) :- ReadNumber(s, 0, 1, MAX_RESTART_TAIS);
    ReadTais(s, p, Times(count))
  }

  datatype RestartIndication = RestartIndication(enb: GlobalEnbId, cells: seq<Cgi>, tais: seq<Tai>)

  function DecodeRestart(pdu: seq<octet>): Result<RestartIndication, Error> {
    var d :- DecodePdu(pdu);
    if d.choice != PDU_INITIATING || d.procedure != PROC_RESTART_INDICATION then Failure(WrongMessage)
    else
      var c :- FindValue(d.ies, ID_RESTARTED_CELLS);
      var cells :- Unwrap(ReadCellList(OctetBits(c), 1, MAX_RESTARTED_CELLS));
      var g :- FindValue(d.ies, ID_GLOBAL_ENB);
      var enb :- Unwrap(ReadGlobalEnbId(OctetBits(g), 0));
      var t :- FindValue(d.ies, ID_RESTART_TAIS);
      var tais :- Unwrap(ReadTaiList(OctetBits(t)));
      Success(RestartIndication(enb, cells, tais))
  }

  datatype FailureIndication = FailureIndication(enb: GlobalEnbId, cells: seq<Cgi>)

  function DecodeFailure(pdu: seq<octet>): Result<FailureIndication, Error> {
    var d :- DecodePdu(pdu);
    if d.choice != PDU_INITIATING || d.procedure != PROC_FAILURE_INDICATION then Failure(WrongMessage)
    else
      var c :- FindValue(d.ies, ID_FAILED_CELLS);
      var cells :- Unwrap(ReadCellList(OctetBits(c), 1, MAX_FAILED_CELLS));
      var g :- FindValue(d.ies, ID_GLOBAL_ENB);
      var enb :- Unwrap(ReadGlobalEnbId(OctetBits(g), 0));
      Success(FailureIndication(enb, cells))
  }

  function DecodeWriteReplaceIndication(pdu: seq<octet>): Result<Ids, Error> {
    var d :- DecodePdu(pdu);
    if d.choice != PDU_INITIATING || d.procedure != PROC_WRITE_REPLACE_INDICATION then Failure(WrongMessage)
    else CorrelationIds(d.ies)
  }

  // The inverse encoders

  predicate ValidEnbId(enb: EnbId) {
    enb.value < Pow2(KindBits(enb.kind))
  }

  function ExtensionContent(enb: EnbId): seq<octet>
    requires ValidEnbId(enb)
  {
    Finish(ToBits(enb.value, KindBits(enb.kind)))
  }

  function AppendEnbId(w: seq<bool>, enb: EnbId): Written
    requires ValidEnbId(enb)
  {
    match enb.kind
    case Macro => Success(AppendPad(w + [false] + [false]) + ToBits(enb.value, 20))
    case Home => Success(AppendPad(w + [false] + [true]) + ToBits(enb.value, 28))
    case ShortMacro => AppendOpenType(w + [true] + [false] + ToBits(0, 6), ExtensionContent(enb))
    case LongMacro => AppendOpenType(w + [true] + [false] + ToBits(1, 6), ExtensionContent(enb))
  }

  function AppendGlobalEnbId(w: seq<bool>, g: GlobalEnbId): Written
    requires ValidEnbId(g.enb)
  {
    if |g.plmn| != 3 then Failure(BadPlmn)
    else AppendEnbId(AppendOctets(AppendPad(w + [false] + [false]), g.plmn), g.enb)
  }

  function EncodeGlobalEnbId(g: GlobalEnbId): Encoded
    requires ValidEnbId(g.enb)
  {
    var w :- AppendGlobalEnbId([], g);
    Success(Finish(w))
  }

  function EncodeCellList(lb: int, ub: int, cells: seq<Cgi>): Encoded {
    var a :- AppendNumber([], lb, ub, |cells|);
    var w :- AppendCgis(a, cells);
    Success(Finish(w))
  }

  function EncodeTaiList(tais: seq<Tai>): Encoded {
    var a :- AppendNumber([], 1, MAX_RESTART_TAIS, |tais|);
    var w :- AppendTais(a, tais);
    Success(Finish(w))
  }

  function RestartIEs(cells: seq<octet>, enb: seq<octet>, tais: seq<octet>): seq<ProtocolIE> {
    [ProtocolIE(ID_RESTARTED_CELLS, CRIT_REJECT, cells),
     ProtocolIE(ID_GLOBAL_ENB, CRIT_REJECT, enb),
     ProtocolIE(ID_RESTART_TAIS, CRIT_REJECT, tais)]
  }

  function EncodeRestart(ri: RestartIndication): Encoded
    requires ValidEnbId(ri.enb.enb)
  {
    var c :- EncodeCellList(1, MAX_RESTARTED_CELLS, ri.cells);
    var g :- EncodeGlobalEnbId(ri.enb);
    var t :- EncodeTaiList(ri.tais);
    EncodePdu(PDU_INITIATING, PROC_RESTART_INDICATION, CRIT_IGNORE, RestartIEs(c, g, t))
  }

  function EncodeFailure(fi: FailureIndication): Encoded
    requires ValidEnbId(fi.enb.enb)
  {
    var c :- EncodeCellList(1, MAX_FAILED_CELLS, fi.cells);
    var g :- EncodeGlobalEnbId(fi.enb);
    EncodePdu(PDU_INITIATING, PROC_FAILURE_INDICATION, CRIT_IGNORE,
              [ProtocolIE(ID_FAILED_CELLS, CRIT_REJECT, c), ProtocolIE(ID_GLOBAL_ENB, CRIT_REJECT, g)])
  }

  // Round trips

  lemma BitReadBack(w: seq<bool>, bit: bool, s: seq<bool>)
    requires w + [bit] <= s
    ensures ReadBits(s, |w|, 1) == Parsed(if bit then 1 else 0, |w| + 1)
  {
    assert ToBits(if bit then 1 else 0, 1) == [bit];
    assert Pow2(1) == 2;
    BitsReadBack(w, if bit then 1 else 0, 1, s);
  }

  lemma RootIndexReadBack(w: seq<bool>, bit: bool, s: seq<bool>)
    requires w + [bit] <= s
    ensures ReadNumber(s, |w|, 0, 1) == Parsed(if bit then 1 else 0, |w| + 1)
  {
    assert BitsFor(2) == 1 by { assert Pow2(0) == 1 && Pow2(1) == 2; }
    BitReadBack(w, bit, s);
  }

  lemma RootEnbIdReadBack(w: seq<bool>, enb: EnbId, s: seq<bool>)
    requires enb.kind.Macro? || enb.kind.Home?
    requires ValidEnbId(enb) && AppendEnbId(w, enb).value <= s
    ensures ReadEnbId(s, |w|) == Parsed(enb, |AppendEnbId(w, enb).value|)
    ensures w <= AppendEnbId(w, enb).value
  {
    hide ReadBits, ReadPad, ReadNumber, AppendPad, ToBits, Pow2;
    var a := w + [false];
    var b := a + [enb.kind.Home?];
    var p := AppendPad(b);
    assert a <= b <= p <= p + ToBits(enb.value, KindBits(enb.kind)) <= s;
    BitReadBack(w, false, s);
    RootIndexReadBack(a, enb.kind.Home?, s);
    PadReadBack(b, s);
    BitsReadBack(p, enb.value, KindBits(enb.kind), s);
  }

  lemma ExtensionContentReadBack(enb: EnbId)
    requires ValidEnbId(enb) && (enb.kind.ShortMacro? || enb.kind.LongMacro?)
    ensures ReadFixedBits(OctetBits(ExtensionContent(enb)), 0, KindBits(enb.kind))
      == Parsed(enb.value, KindBits(enb.kind))
    ensures |ExtensionContent(enb)| == 3
  {
    hide ReadBits, ToBits, Pow2;
    var n := KindBits(enb.kind);
    var bits := ToBits(enb.value, n);
    FinishBits(bits);
    assert [] + bits == bits;
    BitsReadBack([], enb.value, n, OctetBits(Finish(bits)));
  }

  lemma SmallNumberReadBack(w: seq<bool>, v: nat, s: seq<bool>)
    requires v < 64 && w + [false] + ToBits(v, 6) <= s
    ensures ReadSmallNumber(s, |w|) == Parsed(v, |w| + 7)
  {
    hide ReadBits, ReadPad, ToBits, Pow2;
    assert w + [false] <= s;
    BitReadBack(w, false, s);
    assert Pow2(6) == 64 by { Pow2Values(); }
    BitsReadBack(w + [false], v, 6, s);
  }

  lemma ExtensionEnbIdReadBack(w: seq<bool>, enb: EnbId, s: seq<bool>)
    requires enb.kind.ShortMacro? || enb.kind.LongMacro?
    requires ValidEnbId(enb) && AppendEnbId(w, enb).Success? && AppendEnbId(w, enb).value <= s
    ensures ReadEnbId(s, |w|) == Parsed(enb, |AppendEnbId(w, enb).value|)
    ensures w <= AppendEnbId(w, enb).value
  {
    hide ReadBits, ReadSmallNumber, ReadOpenType, AppendOpenType, ReadFixedBits, ExtensionContent, ToBits, Pow2;
    var index := if enb.kind.ShortMacro? then 0 else 1;
    var a := w + [true];
    var b := a + [false] + ToBits(index, 6);
    var content := ExtensionContent(enb);
    OpenTypeReadBack(b, content, s);
    assert w <= a <= b <= s;
    BitReadBack(w, true, s);
    SmallNumberReadBack(a, index, s);
    ExtensionContentReadBack(enb);
  }

  /** All four eNB identity forms, root and extension, are read back. */
  lemma EnbIdReadBack(w: seq<bool>, enb: EnbId, s: seq<bool>)
    requires ValidEnbId(enb) && AppendEnbId(w, enb).Success? && AppendEnbId(w, enb).value <= s
    ensures ReadEnbId(s, |w|) == Parsed(enb, |AppendEnbId(w, enb).value|)
    ensures w <= AppendEnbId(w, enb).value
  {
    hide ReadEnbId, AppendEnbId;
    if enb.kind.Macro? || enb.kind.Home? {
      RootEnbIdReadBack(w, enb, s);
    } else {
      ExtensionEnbIdReadBack(w, enb, s);
    }
  }

  lemma GlobalEnbIdReadBack(g: GlobalEnbId)
    requires ValidEnbId(g.enb) && EncodeGlobalEnbId(g).Success?
    ensures Unwrap(ReadGlobalEnbId(OctetBits(EncodeGlobalEnbId(g).value), 0)) == Success(g)
    ensures EncodeGlobalEnbId(g).value != []
  {
    hide ReadClear, ReadPad, ReadOctets, ReadEnbId, AppendEnbId, OctetBits;
    var a: seq<bool> := [] + [false];
    var b := a + [false];
    var p := AppendPad(b);
    var q := AppendOctets(p, g.plmn);
    var w := AppendEnbId(q, g.enb).value;
    var s := OctetBits(Finish(w));
    FinishBits(w);
    EnbIdReadBack(q, g.enb, s);
    assert a <= b <= p <= q <= s;
    ClearReadBack([], s);
    ClearReadBack(a, s);
    PadReadBack(b, s);
    OctetsReadBack(p, g.plmn, s);
  }

  lemma CellListReadBack(lb: int, ub: int, cells: seq<Cgi>)
    requires 1 <= lb && EncodeCellList(lb, ub, cells).Success?
    ensures Unwrap(ReadCellList(OctetBits(EncodeCellList(lb, ub, cells).value), lb, ub)) == Success(cells)
    ensures EncodeCellList(lb, ub, cells).value != []
  {
    hide AppendNumber, ReadNumber, AppendCgis, ReadCgis, OctetBits;
    var a := AppendNumber([], lb, ub, |cells|).value;
    var w := AppendCgis(a, cells).value;
    var s := OctetBits(Finish(w));
    FinishBits(w);
    CgisReadBack(a, cells, s);
    NumberReadBack([], lb, ub, |cells|, s);
    CellsTakeRoom(lb, ub, cells);
  }

  lemma CellsTakeRoom(lb: int, ub: int, cells: seq<Cgi>)
    requires 1 <= lb && EncodeCellList(lb, ub, cells).Success?
    ensures EncodeCellList(lb, ub, cells).value != []
  {
    hide AppendCgi, ToBits;
    var a := AppendNumber([], lb, ub, |cells|).value;
    var next := AppendCgi(a, cells[0]).value;
    CgiSize(a, cells[0]);
    CgisReadBack(next, cells[1..], AppendCgis(next, cells[1..]).value);
  }

  lemma TaiListReadBack(tais: seq<Tai>)
    requires EncodeTaiList(tais).Success?
    ensures Unwrap(ReadTaiList(OctetBits(EncodeTaiList(tais).value))) == Success(tais)
    ensures EncodeTaiList(tais).value != []
  {
    hide AppendNumber, ReadNumber, AppendTais, ReadTais, OctetBits;
    var a := AppendNumber([], 1, MAX_RESTART_TAIS, |tais|).value;
    var w := AppendTais(a, tais).value;
    var s := OctetBits(Finish(w));
    FinishBits(w);
    TaisReadBack(a, tais, s);
    NumberReadBack([], 1, MAX_RESTART_TAIS, |tais|, s);
    TaiCountRoom(|tais|);
  }

  lemma TaiCountRoom(n: nat)
    requires AppendNumber([], 1, MAX_RESTART_TAIS, n).Success?
    ensures |AppendNumber([], 1, MAX_RESTART_TAIS, n).value| == 16
  {
    hide ToBits;
  }

  /** Every encoded PWS-Restart-Indication is decoded to its eNB, cells and tracking areas in order. */
  lemma RestartReadBack(ri: RestartIndication)
    requires ValidEnbId(ri.enb.enb) && EncodeRestart(ri).Success?
    ensures DecodeRestart(EncodeRestart(ri).value) == Success(ri)
  {
    hide EncodePdu, DecodePdu, EncodeCellList, EncodeGlobalEnbId, EncodeTaiList, ReadCellList, ReadGlobalEnbId,
      ReadTaiList, FindIE, ReceivedAll;
    var c := EncodeCellList(1, MAX_RESTARTED_CELLS, ri.cells).value;
    var g := EncodeGlobalEnbId(ri.enb).value;
    var t := EncodeTaiList(ri.tais).value;
    var ies := RestartIEs(c, g, t);
    PduReadBack(PDU_INITIATING, PROC_RESTART_INDICATION, CRIT_IGNORE, ies);
    CellListReadBack(1, MAX_RESTARTED_CELLS, ri.cells);
    GlobalEnbIdReadBack(ri.enb);
    TaiListReadBack(ri.tais);
    FindReceivedAt(ies, 0);
    FindReceivedAt(ies, 1);
    FindReceivedAt(ies, 2);
  }

  lemma FindReceivedAt(ies: seq<ProtocolIE>, i: nat)
    requires i < |ies|
    requires forall j | 0 <= j < i :: ies[j].id != ies[i].id
    ensures FindIE(ReceivedAll(ies), ies[i].id) == Some(Received(ies[i]))
  {
    FindReceived(ies, ies[i].id);
    FindAt(ies, i, ies[i].id);
  }

  lemma FailureReadBack(fi: FailureIndication)
    requires ValidEnbId(fi.enb.enb) && EncodeFailure(fi).Success?
    ensures DecodeFailure(EncodeFailure(fi).value) == Success(fi)
  {
    hide EncodePdu, DecodePdu, EncodeCellList, EncodeGlobalEnbId, ReadCellList, ReadGlobalEnbId, FindIE, ReceivedAll;
    var c := EncodeCellList(1, MAX_FAILED_CELLS, fi.cells).value;
    var g := EncodeGlobalEnbId(fi.enb).value;
    var ies := [ProtocolIE(ID_FAILED_CELLS, CRIT_REJECT, c), ProtocolIE(ID_GLOBAL_ENB, CRIT_REJECT, g)];
    PduReadBack(PDU_INITIATING, PROC_FAILURE_INDICATION, CRIT_IGNORE, ies);
    CellListReadBack(1, MAX_FAILED_CELLS, fi.cells);
    GlobalEnbIdReadBack(fi.enb);
    FindReceivedAt(ies, 0);
    FindReceivedAt(ies, 1);
  }

  lemma WriteReplaceIndicationReadBack(messageId: uint16, serial: uint16, criticality: int, rest: seq<ProtocolIE>)
    requires EncodePdu(PDU_INITIATING, PROC_WRITE_REPLACE_INDICATION, criticality,
      Identifiers(messageId, serial) + rest).Success?
    ensures DecodeWriteReplaceIndication(
              EncodePdu(PDU_INITIATING, PROC_WRITE_REPLACE_INDICATION, criticality,
                Identifiers(messageId, serial) + rest).value)
         == Success(Ids(messageId, serial))
  {
    hide EncodePdu, DecodePdu, CorrelationIds, Identifiers;
    PduReadBack(PDU_INITIATING, PROC_WRITE_REPLACE_INDICATION, criticality, Identifiers(messageId, serial) + rest);
    FindIdentifiers(messageId, serial, rest);
  }
}
