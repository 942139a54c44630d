/**
 Protocol-IE containers and SBC-AP PDUs (3GPP TS 29.168) on top of aligned
 PER: what is encoded is decoded again, exactly which messages can be encoded,
 and how short an accepted body can be.
 */
module Pdu {
  import opened Wrappers
  import opened Bits
  import opened Per

  const CRIT_REJECT := 0
  const CRIT_IGNORE := 1
  const PDU_INITIATING := 0
  const PDU_SUCCESSFUL := 1

  datatype ProtocolIE = ProtocolIE(id: int, criticality: int, value: seq<octet>)
  datatype DecodedPdu = DecodedPdu(choice: int, procedure: int, criticality: int, ies: seq<ProtocolIE>)

  // Encoding

  function AppendIE(w: seq<bool>, ie: ProtocolIE): Written {
    var a :- AppendNumber(w, 0, 65535, ie.id);
    var b :- AppendNumber(a, 0, 2, ie.criticality);
    AppendOpenType(b, ie.value)
  }

  function AppendIEs(w: seq<bool>, ies: seq<ProtocolIE>): Written
    decreases |ies|
  {
    if ies == [] then Success(w)
    else
      var next :- AppendIE(w, ies[0]);
      AppendIEs(next, ies[1..])
  }

  function AppendContainer(w: seq<bool>, ies: seq<ProtocolIE>): Written {
    var a :- AppendNumber(w, 0, 65535, |ies|);
    AppendIEs(a, ies)
  }

  /** The octets holding the bits written, the last octet filled with zero bits. */
  function Finish(w: seq<bool>): seq<octet> {
    ToOctets(AppendPad(w))
  }

  function EncodeBody(ies: seq<ProtocolIE>): Result<seq<octet>, Error> {
    var w :- AppendContainer([false, false], ies);
    Success(Finish(w))
  }

  function EncodePdu(choice: int, procedure: int, criticality: int, ies: seq<ProtocolIE>): Result<seq<octet>, Error> {
    var body :- EncodeBody(ies);
    var a :- AppendNumber([false], 0, 2, choice);
    var b :- AppendNumber(a, 0, 255, procedure);
    var c :- AppendNumber(b, 0, 2, criticality);
    var d :- AppendOpenType(c, body);
    Success(Finish(d))
  }

  // Decoding

  function ReadIE(s: seq<bool>, pos: nat): Parsed<ProtocolIE> {
    var (id, p) :- ReadNumber(s, pos, 0, 65535);
    var (crit, q) :- ReadNumber(s, p, 0, 2);
    var (value, r) :- ReadOpenType(s, q);
    Parsed(ProtocolIE(id, crit, value), r)
  }

  function ReadIEs(s: seq<bool>, pos: nat, count: nat): (r: Parsed<seq<ProtocolIE>>)
    ensures r.Parsed? ==> |r.value| == count
    decreases count
  {
    if count == 0 then Parsed([], pos)
    else
      var (ie, p) :- ReadIE(s, pos);
      var (rest, q) :- ReadIEs(s, p, count - 1);
      Parsed([ie] + rest, q)
  }

  /** How often a loop counting from zero up to n runs. */
  function Times(n: int): nat {
    if n < 0 then 0 else n
  }

  function ReadContainer(s: seq<bool>, pos: nat): Parsed<seq<ProtocolIE>> {
    var (count, p) :- ReadNumber(s, pos, 0, 65535);
    ReadIEs(s, p, Times(count))
  }

  /** Reads one preamble bit that must be clear. */
  function ReadClear(s: seq<bool>, pos: nat): Parsed<()> {
    var (bit, p) :- ReadBits(s, pos, 1);
    if bit != 0 then Unparsed(ExtensionUnsupported) else Parsed((), p)
  }

  function DecodeBody(content: seq<octet>): Result<seq<ProtocolIE>, Error> {
    var s := OctetBits(content);
    match ReadBody(s)
    case Parsed(ies, _) => Success(ies)
    case Unparsed(e) => Failure(e)
  }

  function ReadBody(s: seq<bool>): Parsed<seq<ProtocolIE>> {
    var (_, p) :- ReadClear(s, 0);
    var (_, q) :- ReadClear(s, p);
    ReadContainer(s, q)
  }

  datatype Envelope = Envelope(choice: int, procedure: int, criticality: int, body: seq<octet>)

  function ReadEnvelope(s: seq<bool>): Parsed<Envelope> {
    var (_, p) :- ReadClear(s, 0);
    var (choice, q) :- ReadNumber(s, p, 0, 2);
    var (procedure, r) :- ReadNumber(s, q, 0, 255);
    var (criticality, t) :- ReadNumber(s, r, 0, 2);
    var (body, u) :- ReadOpenType(s, t);
    Parsed(Envelope(choice, procedure, criticality, body), u)
  }

  function DecodePdu(pdu: seq<octet>): Result<DecodedPdu, Error> {
    if pdu == [] then Failure(EmptyPdu)
    else
      match ReadEnvelope(OctetBits(pdu))
      case Unparsed(e) => Failure(e)
      case Parsed(env, _) =>
        var ies :- DecodeBody(env.body);
        Success(DecodedPdu(env.choice, env.procedure, env.criticality, ies))
  }

  /** The first element with the given identifier. */
  function FindIE(ies: seq<ProtocolIE>, id: int): Option<ProtocolIE> {
    if ies == [] then None
    else if ies[0].id == id then Some(ies[0])
    else FindIE(ies[1..], id)
  }

  // Round trip

  function Received(ie: ProtocolIE): ProtocolIE {
    ie.(value := Widen(ie.value))
  }

  function ReceivedAll(ies: seq<ProtocolIE>): seq<ProtocolIE> {
    seq(|ies|, i requires 0 <= i < |ies| => Received(ies[i]))
  }

  lemma FinishBits(w: seq<bool>)
    ensures OctetBits(Finish(w)) == AppendPad(w) && w <= OctetBits(Finish(w))
  {
    ToOctetsBits(AppendPad(w));
  }

  lemma ClearReadBack(w: seq<bool>, s: seq<bool>)
    requires w + [false] <= s
    ensures ReadClear(s, |w|) == Parsed((), |w| + 1)
  {
    hide ReadBits;
    assert ToBits(0, 1) == [false];
    BitsReadBack(w, 0, 1, s);
  }

  lemma IEReadBack(w: seq<bool>, ie: ProtocolIE, s: seq<bool>)
    requires AppendIE(w, ie).Success? && AppendIE(w, ie).value <= s
    ensures ReadIE(s, |w|) == Parsed(Received(ie), |AppendIE(w, ie).value|)
    ensures w <= AppendIE(w, ie).value
  {
    hide ReadNumber, ReadOpenType, AppendNumber, AppendOpenType;
    var a := AppendNumber(w, 0, 65535, ie.id).value;
    var b := AppendNumber(a, 0, 2, ie.criticality).value;
    OpenTypeReadBack(b, ie.value, s);
    NumberReadBack(a, 0, 2, ie.criticality, s);
    NumberReadBack(w, 0, 65535, ie.id, s);
  }

  lemma {:induction false} IEsExtend(w: seq<bool>, ies: seq<ProtocolIE>)
    requires AppendIEs(w, ies).Success?
    ensures w <= AppendIEs(w, ies).value
    decreases |ies|
  {
    hide AppendIE;
    if ies == [] {
    } else {
      var next := AppendIE(w, ies[0]).value;
      IEReadBack(w, ies[0], next);
      IEsExtend(next, ies[1..]);
    }
  }

  lemma {:induction false} IEsReadBack(w: seq<bool>, ies: seq<ProtocolIE>, s: seq<bool>)
    requires AppendIEs(w, ies).Success? && AppendIEs(w, ies).value <= s
    ensures ReadIEs(s, |w|, |ies|) == Parsed(ReceivedAll(ies), |AppendIEs(w, ies).value|)
    decreases |ies|
  {
    hide AppendIE, ReadIE, Received;
    if ies == [] {
    } else {
      var next := AppendIE(w, ies[0]).value;
      IEsExtend(next, ies[1..]);
      IEReadBack(w, ies[0], s);
      IEsReadBack(next, ies[1..], s);
      assert ReceivedAll(ies) == [Received(ies[0])] + ReceivedAll(ies[1..]);
    }
  }

  lemma ContainerReadBack(w: seq<bool>, ies: seq<ProtocolIE>, s: seq<bool>)
    requires AppendContainer(w, ies).Success? && AppendContainer(w, ies).value <= s
    ensures ReadContainer(s, |w|) == Parsed(ReceivedAll(ies), |AppendContainer(w, ies).value|)
    ensures w <= AppendContainer(w, ies).value
  {
    hide AppendNumber, ReadNumber, AppendIEs, ReadIEs;
    var a := AppendNumber(w, 0, 65535, |ies|).value;
    IEsExtend(a, ies);
    NumberReadBack(w, 0, 65535, |ies|, s);
    IEsReadBack(a, ies, s);
  }

  lemma BodyReadBack(ies: seq<ProtocolIE>)
    requires EncodeBody(ies).Success?
    ensures DecodeBody(EncodeBody(ies).value) == Success(ReceivedAll(ies))
  {
    hide AppendContainer, ReadContainer, ReadClear, OctetBits, AppendPad;
    var w := AppendContainer([false, false], ies).value;
    var s := OctetBits(Finish(w));
    FinishBits(w);
    ContainerReadBack([false, false], ies, s);
    assert [] + [false] <= s && [false] + [false] <= s;
    ClearReadBack([], s);
    ClearReadBack([false], s);
  }

  /**
   Decoding undoes encoding: the same choice, procedure and criticality, and
   the same elements in the same order, an empty value coming back as one
   zero octet.
   */
  lemma PduReadBack(choice: int, procedure: int, criticality: int, ies: seq<ProtocolIE>)
    requires EncodePdu(choice, procedure, criticality, ies).Success?
    ensures DecodePdu(EncodePdu(choice, procedure, criticality, ies).value)
         == Success(DecodedPdu(choice, procedure, criticality, ReceivedAll(ies)))
  {
    hide AppendNumber, ReadNumber, AppendOpenType, ReadOpenType, EncodeBody, DecodeBody, ReadClear, OctetBits,
      AppendPad;
    var body := EncodeBody(ies).value;
    var a := AppendNumber([false], 0, 2, choice).value;
    var b := AppendNumber(a, 0, 255, procedure).value;
    var c := AppendNumber(b, 0, 2, criticality).value;
    var d := AppendOpenType(c, body).value;
    var s := OctetBits(Finish(d));
    FinishBits(d);
    OpenTypeReadBack(c, body, s);
    NumberReadBack(b, 0, 2, criticality, s);
    NumberReadBack(a, 0, 255, procedure, s);
    NumberReadBack([false], 0, 2, choice, s);
    assert [] + [false] <= s;
    ClearReadBack([], s);
    BodyReadBack(ies);
    assert body != [] by { BodySize(ies); }
  }

  // Exactly which messages can be encoded

  function OpenSize(n: nat): nat {
    var m := if n == 0 then 1 else n;
    (if m <= 127 then 1 else 2) + m
  }

  predicate Encodable(ie: ProtocolIE) {
    0 <= ie.id <= 65535 && 0 <= ie.criticality <= 2 && |ie.value| < 16384
  }

  function IEsSize(ies: seq<ProtocolIE>): nat {
    if ies == [] then 0 else 3 + OpenSize(|ies[0].value|) + IEsSize(ies[1..])
  }

  lemma NumberSizes(w: seq<bool>, v: int)
    ensures AppendNumber(w, 0, 65535, v).Success? <==> 0 <= v <= 65535
    ensures 0 <= v <= 65535 ==> |AppendNumber(w, 0, 65535, v).value| == |AppendPad(w)| + 16
    ensures AppendNumber(w, 0, 2, v).Success? <==> 0 <= v <= 2
    ensures 0 <= v <= 2 ==> |AppendNumber(w, 0, 2, v).value| == |w| + 2
  {
    hide ToBits, AppendPad;
    TwoBits();
  }

  lemma TwoBits()
    ensures BitsFor(3) == 2
  {
    assert Pow2(0) == 1 && Pow2(1) == 2 && Pow2(2) == 4;
  }

  lemma OpenTypeSize(w: seq<bool>, content: seq<octet>)
    ensures AppendOpenType(w, content).Success? <==> |content| < 16384
    ensures |content| < 16384 ==> |AppendOpenType(w, content).value| == |AppendPad(w)| + 8 * OpenSize(|content|)
  {
    hide ToBits, OctetBits;
  }

  lemma IESize(w: seq<bool>, ie: ProtocolIE)
    requires |w| % 8 == 0
    ensures AppendIE(w, ie).Success? <==> Encodable(ie)
    ensures Encodable(ie) ==> |AppendIE(w, ie).value| == |w| + 8 * (3 + OpenSize(|ie.value|))
  {
    hide AppendNumber, AppendOpenType;
    NumberSizes(w, ie.id);
    if 0 <= ie.id <= 65535 {
      var a := AppendNumber(w, 0, 65535, ie.id).value;
      NumberSizes(a, ie.criticality);
      if 0 <= ie.criticality <= 2 {
        OpenTypeSize(AppendNumber(a, 0, 2, ie.criticality).value, ie.value);
      }
    }
  }

  lemma {:induction false} IEsTotalSize(w: seq<bool>, ies: seq<ProtocolIE>)
    requires |w| % 8 == 0
    ensures AppendIEs(w, ies).Success? <==> forall ie | ie in ies :: Encodable(ie)
    ensures AppendIEs(w, ies).Success? ==> |AppendIEs(w, ies).value| == |w| + 8 * IEsSize(ies)
    decreases |ies|
  {
    hide AppendIE;
    if ies == [] {
    } else {
      IESize(w, ies[0]);
      assert forall ie :: ie in ies <==> ie == ies[0] || ie in ies[1..];
      if Encodable(ies[0]) {
        IEsTotalSize(AppendIE(w, ies[0]).value, ies[1..]);
      }
    }
  }

  /**
   A PDU is encoded exactly when every field is in range and the body stays
   below the 16384 octets one unfragmented open type can hold.
   */
  lemma EncodePduAccepts(choice: int, procedure: int, criticality: int, ies: seq<ProtocolIE>)
    ensures EncodePdu(choice, procedure, criticality, ies).Success?
       <==> && 0 <= choice <= 2 && 0 <= procedure <= 255 && 0 <= criticality <= 2
            && |ies| <= 65535 && (forall ie | ie in ies :: Encodable(ie))
            && 3 + IEsSize(ies) < 16384
  {
    hide AppendNumber, AppendOpenType, AppendContainer;
    BodySize(ies);
    NumberSizes([false], choice);
    if EncodeBody(ies).Success? && 0 <= choice <= 2 {
      var a := AppendNumber([false], 0, 2, choice).value;
      OctetNumber(a, procedure);
      if 0 <= procedure <= 255 {
        var b := AppendNumber(a, 0, 255, procedure).value;
        NumberSizes(b, criticality);
        if 0 <= criticality <= 2 {
          OpenTypeSize(AppendNumber(b, 0, 2, criticality).value, EncodeBody(ies).value);
        }
      }
    }
  }

  lemma OctetNumber(w: seq<bool>, v: int)
    ensures AppendNumber(w, 0, 255, v).Success? <==> 0 <= v <= 255
  {
  }

  lemma BodySize(ies: seq<ProtocolIE>)
    ensures EncodeBody(ies).Success? <==> |ies| <= 65535 && forall ie | ie in ies :: Encodable(ie)
    ensures EncodeBody(ies).Success? ==> |EncodeBody(ies).value| == 3 + IEsSize(ies)
  {
    hide AppendNumber, AppendIEs;
    NumberSizes([false, false], |ies|);
    if |ies| <= 65535 {
      IEsTotalSize(AppendNumber([false, false], 0, 65535, |ies|).value, ies);
    }
  }

  // Accepted bodies have a minimal size

  lemma ReadNumberRoom(s: seq<bool>, pos: nat)
    ensures ReadNumber(s, pos, 0, 65535).Parsed? ==>
      ReadNumber(s, pos, 0, 65535).pos == pos + PadLength(pos) + 16 <= |s|
    ensures ReadNumber(s, pos, 0, 2).Parsed? ==> ReadNumber(s, pos, 0, 2).pos == pos + 2 <= |s|
  {
    hide FromBits;
    TwoBits();
  }

  lemma ReadOpenTypeRoom(s: seq<bool>, pos: nat)
    requires ReadOpenType(s, pos).Parsed?
    ensures pos + PadLength(pos) + 8 <= ReadOpenType(s, pos).pos <= |s|
    ensures ReadOpenType(s, pos).pos % 8 == 0
  {
  }

  lemma ReadIERoom(s: seq<bool>, pos: nat)
    requires pos % 8 == 0 && ReadIE(s, pos).Parsed?
    ensures pos + 32 <= ReadIE(s, pos).pos <= |s| && ReadIE(s, pos).pos % 8 == 0
  {
    hide ReadNumber, ReadOpenType;
    ReadNumberRoom(s, pos);
    var p := ReadNumber(s, pos, 0, 65535).pos;
    ReadNumberRoom(s, p);
    ReadOpenTypeRoom(s, ReadNumber(s, p, 0, 2).pos);
  }

  lemma {:induction false} IEsRoom(s: seq<bool>, pos: nat, count: nat)
    requires pos % 8 == 0 && ReadIEs(s, pos, count).Parsed?
    ensures ReadIEs(s, pos, count).pos >= pos + 32 * count
    ensures pos <= |s| ==> ReadIEs(s, pos, count).pos <= |s|
    decreases count
  {
    hide ReadIE;
    if count == 0 {
    } else {
      ReadIERoom(s, pos);
      IEsRoom(s, ReadIE(s, pos).pos, count - 1);
    }
  }

  /** A body accepted with n elements has at least 3 + 4n octets. */
  lemma BodyRoom(content: seq<octet>)
    requires DecodeBody(content).Success?
    ensures |content| >= 3 + 4 * |DecodeBody(content).value|
  {
    var s := OctetBits(content);
    ReadNumberRoom(s, 2);
    var count := ReadNumber(s, 2, 0, 65535);
    IEsRoom(s, count.pos, count.value);
  }
}
